/**
 * The in-process transport: what it makes of the lines a Composer run printed,
 * the options it adds before a run, and how it decides that a run failed.
 * A run is given as its status code and its captured lines.
 */
module Web {
  import opened Wrappers
  import opened Php
  import opened Lines
  import opened Options
  import Parser

  // ---------------------------------------------------------------------------------
  // getVersions

  /** One `show --installed` line: the first word maps to the second; None for a missing second word (PHP null). */
  function VersionEntry(line: string): Option<(string, Option<string>)> {
    if StartsWith(line, "<warning>") then None
    else
      var words := Explode(SqueezeSpaces(line), " ");
      Some((words[0], if |words| > 1 then Some(words[1]) else None))
  }

  method GetVersions(lines: seq<string>) returns (result: map<string, Option<string>>)
    ensures result == Assoc(lines, VersionEntry)
  {
    result := AssocEach(lines, VersionEntry);
  }

  /** A row `name  version` (any padding) yields its name and version. */
  lemma VersionEntryOfRow(name: string, gap: string, version: string)
    requires |name| > 0 && Lacks(name, ' ') && name[0] != '<'
    requires |gap| > 0 && forall i :: 0 <= i < |gap| ==> gap[i] == ' '
    requires |version| > 0 && Lacks(version, ' ')
    ensures VersionEntry(name + (gap + version)) == Some((name, Some(version)))
  {
    var line := name + (gap + version);
    NotStartsWithAt(line, "<warning>", 0);
    SqueezeRow(name, gap, version);
    SqueezeKeepsHead(version, []);
    assert version + [] == version;
    WordThenSpace(name, version);
    NotContainsFirstChar(version, " ");
    ExplodeWhole(version, " ");
  }

  /** A row with further columns after the version yields the same pair. */
  lemma VersionEntryOfLongRow(name: string, gap: string, version: string, rest: string)
    requires |name| > 0 && Lacks(name, ' ') && name[0] != '<'
    requires |gap| > 0 && forall i :: 0 <= i < |gap| ==> gap[i] == ' '
    requires |version| > 0 && Lacks(version, ' ')
    ensures VersionEntry(name + (gap + (version + (" " + rest)))) == Some((name, Some(version)))
  {
    var line := name + (gap + (version + (" " + rest)));
    NotStartsWithAt(line, "<warning>", 0);
    var sq := SqueezeSpaces(" " + rest);
    assert sq == " " + sq[1..];
    SqueezeKeepsHead(version, " " + rest);
    SqueezeRow(name, gap, version + (" " + rest));
    assert SqueezeSpaces(line) == name + (" " + (version + (" " + sq[1..])));
    WordThenSpace(version, sq[1..]);
    WordThenSpace(name, version + (" " + sq[1..]));
  }

  /** Squeezing a word and its padding leaves the word and one space. */
  lemma SqueezeRow(name: string, gap: string, rest: string)
    requires Lacks(name, ' ')
    requires |gap| > 0 && forall i :: 0 <= i < |gap| ==> gap[i] == ' '
    requires rest == [] || rest[0] != ' '
    ensures SqueezeSpaces(name + (gap + rest)) == name + (" " + SqueezeSpaces(rest))
  {
    SqueezeKeepsHead(name, gap + rest);
    SqueezeGap(gap, rest);
  }

  /** The first space after a word without spaces. */
  lemma FirstSpaceOf(w: string, rest: string)
    requires Lacks(w, ' ')
    ensures StrPos(w + " " + rest, " ") == Some(|w|)
  {
    assert (w + " " + rest)[|w|..][..1] == " ";
    StrPosAt(w + " " + rest, " ", |w|);
  }

  /** Warning lines are skipped, and a later row of the same name overwrites an earlier one. */
  lemma {:induction false} GetVersionsRows(lines: seq<string>, name: string)
    ensures name in Assoc(lines, VersionEntry) <==>
              exists i :: 0 <= i < |lines| && !StartsWith(lines[i], "<warning>") && Explode(SqueezeSpaces(lines[i]), " ")[0] == name
    ensures name in Assoc(lines, VersionEntry) ==>
              exists i :: 0 <= i < |lines| && VersionEntry(lines[i]) == Some((name, Assoc(lines, VersionEntry)[name])) &&
                forall j :: i < j < |lines| && !StartsWith(lines[j], "<warning>") ==> Explode(SqueezeSpaces(lines[j]), " ")[0] != name
  {
    AssocKeys(lines, VersionEntry, name);
    if name in Assoc(lines, VersionEntry) {
      AssocLastWins(lines, VersionEntry, name);
    }
  }

  // ---------------------------------------------------------------------------------
  // Options added before a run

  /** install: `--prefer-dist` is switched on unless it is set already; nothing else changes. */
  function InstallOptions(o: OptionList): (r: OptionList)
    ensures IsSet(r, "--prefer-dist")
    ensures IsSet(o, "--prefer-dist") ==> r == o
    ensures !IsSet(o, "--prefer-dist") ==> Lookup(r, "--prefer-dist") == Some(Bool(true))
    ensures forall k :: k != "--prefer-dist" ==> Lookup(r, k) == Lookup(o, k)
    ensures UniqueKeys(o) ==> UniqueKeys(r)
  {
    PutSpec(o, "--prefer-dist", Bool(true));
    if !IsSet(o, "--prefer-dist") then Put(o, "--prefer-dist", Bool(true)) else o
  }

  /** update: `--prefer-dist` is switched on unless `--prefer-dist` or `prefer-source` is set; nothing else changes. */
  function UpdateOptions(o: OptionList): (r: OptionList)
    ensures IsSet(o, "--prefer-dist") || IsSet(o, "prefer-source") ==> r == o
    ensures !IsSet(o, "--prefer-dist") && !IsSet(o, "prefer-source") ==> Lookup(r, "--prefer-dist") == Some(Bool(true))
    ensures forall k :: k != "--prefer-dist" ==> Lookup(r, k) == Lookup(o, k)
    ensures UniqueKeys(o) ==> UniqueKeys(r)
  {
    PutSpec(o, "--prefer-dist", Bool(true));
    if !IsSet(o, "--prefer-dist") && !IsSet(o, "prefer-source") then Put(o, "--prefer-dist", Bool(true)) else o
  }

  /** The package argument of requirePackage: one name or a list of names. */
  datatype PackageArg = Name(name: string) | Names(names: seq<string>)

  /** The packages handed to `require`: a single name gets `:version` when the version is not empty; a list is taken as it is. */
  function RequiredPackages(package: PackageArg, version: string): (r: seq<string>)
    ensures package.Names? ==> r == package.names
    ensures package.Name? && IsEmpty(version) ==> r == [package.name]
    ensures package.Name? && !IsEmpty(version) ==> |r| == 1 && StartsWith(r[0], package.name + ":") && r[0][|package.name| + 1..] == version
  {
    match package
    case Name(n) =>
      var r := if !IsEmpty(version) then n + ":" + version else n;
      assert !IsEmpty(version) ==> r[..|n| + 1] == n + ":";
      [r]
    case Names(ns) => ns
  }

  /**
   * requirePackage: `--prefer-dist` is switched on unless `prefer-dist` or `prefer-source` (without dashes) is set,
   * and `packages` holds the packages; nothing else changes.
   */
  function RequireOptions(o: OptionList, package: PackageArg, version: string): (r: OptionList)
    ensures Lookup(r, "packages") == Some(List(RequiredPackages(package, version)))
    ensures !IsSet(o, "prefer-dist") && !IsSet(o, "prefer-source") ==> Lookup(r, "--prefer-dist") == Some(Bool(true))
    ensures IsSet(o, "prefer-dist") || IsSet(o, "prefer-source") ==> Lookup(r, "--prefer-dist") == Lookup(o, "--prefer-dist")
    ensures forall k :: k != "--prefer-dist" && k != "packages" ==> Lookup(r, k) == Lookup(o, k)
    ensures UniqueKeys(o) ==> UniqueKeys(r)
  {
    var o1 := if !IsSet(o, "prefer-dist") && !IsSet(o, "prefer-source") then Put(o, "--prefer-dist", Bool(true)) else o;
    PutSpec(o, "--prefer-dist", Bool(true));
    PutSpec(o1, "packages", List(RequiredPackages(package, version)));
    Put(o1, "packages", List(RequiredPackages(package, version)))
  }

  // ---------------------------------------------------------------------------------
  // outdated and updatesAvailable

  /** One entry of the decoded `installed` list. */
  datatype Installed = Installed(name: string, version: string)

  /** The first line that is not Composer chatter is the one that holds the JSON document. */
  predicate IsPackageData(line: string) {
    !Parser.IsChatter(line)
  }

  /**
   * outdated: the first data line is decoded (the decoder is a parameter; a line that does not decode
   * to an `installed` list gives []), and each entry becomes a name/version record, in order.
   */
  method Outdated(lines: seq<string>, installedOf: string -> seq<Installed>) returns (packages: seq<Parser.PackageRecord>)
    ensures FirstIndex(lines, IsPackageData).None? ==> packages == []
    ensures FirstIndex(lines, IsPackageData).Some? ==>
              var entries := installedOf(lines[FirstIndex(lines, IsPackageData).value]);
              |packages| == |entries| &&
              forall i :: 0 <= i < |entries| ==> packages[i] == Parser.PackageRecord(entries[i].name, entries[i].version)
  {
    var outdated: seq<Installed> := [];
    var i := 0;
    while i < |lines|
      invariant 0 <= i <= |lines|
      invariant forall j :: 0 <= j < i ==> !IsPackageData(lines[j])
      invariant outdated == []
    {
      if !IsPackageData(lines[i]) {
        i := i + 1;
        continue;
      }
      outdated := installedOf(lines[i]);
      break;
    }
    assert i < |lines| ==> FirstIndex(lines, IsPackageData) == Some(i) && outdated == installedOf(lines[i]) by {
      if i < |lines| {
        FirstIndexIs(lines, IsPackageData, i);
      }
    }
    packages := [];
    if |outdated| == 0 {
      return;
    }
    var k := 0;
    while k < |outdated|
      invariant 0 <= k <= |outdated|
      invariant |packages| == k
      invariant forall j :: 0 <= j < k ==> packages[j] == Parser.PackageRecord(outdated[j].name, outdated[j].version)
    {
      packages := packages + [Parser.PackageRecord(outdated[k].name, outdated[k].version)];
      k := k + 1;
    }
  }

  /** updatesAvailable: whether outdated reports anything. */
  method UpdatesAvailable(lines: seq<string>, installedOf: string -> seq<Installed>) returns (available: bool)
    ensures available <==> FirstIndex(lines, IsPackageData).Some? && |installedOf(lines[FirstIndex(lines, IsPackageData).value])| > 0
  {
    var packages := Outdated(lines, installedOf);
    available := |packages| > 0;
  }

  // ---------------------------------------------------------------------------------
  // getOutdatedPackages

  /** One pending update from `update --dry-run`. */
  datatype Update = Update(package: string, version: string, oldVersion: string)

  /** The characters trimmed off the version columns. */
  const VersionTrim: set<char> := {'(', ')', ' '}

  predicate MentionsUpdate(line: string) {
    Contains(line, "- Updating") || Contains(line, "- Upgrading")
  }

  /** The current form `X (old => new)`. */
  function NewFormat(l: string): Update {
    var parts := Explode(l, " (");
    var versions := Replace(At(parts, 1), ")", "");
    var oldVersion := Trim(Substr(versions, 0, OrZero(StrPos(versions, " "))), VersionTrim);
    var newVersion := At(Explode(versions, " => "), 1);
    var firstSpace := if StrPos(newVersion, " ").Some? then StrPos(newVersion, " ").value else |newVersion|;
    Update(parts[0], Trim(Substr(newVersion, 0, firstSpace), VersionTrim), oldVersion)
  }

  /** The older form `X (old) to X (new)`, where `Reading ...` chatter may precede the old version. */
  function LegacyFormat(l: string): Update {
    var parts := Explode(l, " to ");
    var before := At(parts, 0);
    var after := At(parts, 1);
    var oldVersion := Trim(SubstrFrom(before, OrZero(StrPos(before, " "))), VersionTrim);
    var firstSpace := OrZero(StrPos(after, " "));
    var newVersion := Trim(SubstrFrom(after, firstSpace), VersionTrim);
    var package := Trim(Substr(after, 0, firstSpace), TrimDefault);
    if Contains(oldVersion, "Reading ") then
      var fromPackage := SubstrFrom(before, OrZero(StrPos(before, package)));
      Update(package, newVersion, Trim(SubstrFrom(fromPackage, OrZero(StrPos(fromPackage, " "))), VersionTrim))
    else
      Update(package, newVersion, oldVersion)
  }

  /** The update a line announces, None for every other line. */
  function UpdateEntry(line: string): Option<Update> {
    if !MentionsUpdate(line) then None
    else
      var l := Replace(Replace(Trim(line, TrimDefault), "- Updating ", ""), "- Upgrading ", "");
      Some(if Contains(l, " => ") then NewFormat(l) else LegacyFormat(l))
  }

  predicate HasPackage(us: seq<Update>, package: string) {
    exists i :: 0 <= i < |us| && us[i].package == package
  }

  /** `isset($result[$package])` before storing, then array_values: the first update per package, in first-seen order. */
  function FirstPerPackage(us: seq<Update>): seq<Update>
    decreases |us|
  {
    if us == [] then []
    else
      var kept := FirstPerPackage(us[..|us| - 1]);
      if HasPackage(kept, us[|us| - 1].package) then kept else kept + [us[|us| - 1]]
  }

  method GetOutdatedPackages(lines: seq<string>) returns (result: seq<Update>)
    ensures result == FirstPerPackage(Collect(lines, UpdateEntry))
  {
    result := [];
    var i := 0;
    while i < |lines|
      invariant 0 <= i <= |lines|
      invariant result == FirstPerPackage(Collect(lines[..i], UpdateEntry))
    {
      var line := lines[i];
      CollectAppend(lines[..i], line, UpdateEntry);
      assert lines[..i + 1] == lines[..i] + [line];
      var found := UpdateEntry(line);
      ghost var before := Collect(lines[..i], UpdateEntry);
      if found.Some? {
        assert Collect(lines[..i + 1], UpdateEntry) == before + [found.value];
        var seen := IsStored(result, found.value.package);
        FirstPerPackageStep(before, found.value);
        if !seen {
          result := result + [found.value];
        }
      } else {
        assert Collect(lines[..i + 1], UpdateEntry) == before;
      }
      i := i + 1;
    }
    assert lines[..i] == lines;
  }

  /** The isset test on the packages stored so far. */
  method IsStored(result: seq<Update>, package: string) returns (seen: bool)
    ensures seen <==> HasPackage(result, package)
  {
    seen := false;
    var k := 0;
    while k < |result|
      invariant 0 <= k <= |result|
      invariant seen <==> exists j :: 0 <= j < k && result[j].package == package
    {
      if result[k].package == package {
        seen := true;
      }
      k := k + 1;
    }
  }

  lemma FirstPerPackageStep(us: seq<Update>, u: Update)
    ensures FirstPerPackage(us + [u]) ==
            if HasPackage(FirstPerPackage(us), u.package) then FirstPerPackage(us) else FirstPerPackage(us) + [u]
  {
    assert (us + [u])[..|us|] == us;
  }

  /** Each package appears once. */
  lemma {:induction false} FirstPerPackageUnique(us: seq<Update>)
    ensures forall i, j :: 0 <= i < j < |FirstPerPackage(us)| ==> FirstPerPackage(us)[i].package != FirstPerPackage(us)[j].package
    decreases |us|
  {
    if us != [] {
      FirstPerPackageUnique(us[..|us| - 1]);
    }
  }

  /** Every package that has an update is reported, and only those. */
  lemma {:induction false} FirstPerPackageCovers(us: seq<Update>, package: string)
    ensures HasPackage(FirstPerPackage(us), package) <==> HasPackage(us, package)
    decreases |us|
  {
    if us != [] {
      var init := us[..|us| - 1];
      FirstPerPackageCovers(init, package);
      var kept := FirstPerPackage(init);
      if HasPackage(init, package) {
        var i :| 0 <= i < |init| && init[i].package == package;
        assert us[i] == init[i];
      }
      if HasPackage(us, package) && !HasPackage(init, package) {
        assert us[|us| - 1].package == package;
      }
      if HasPackage(kept, package) {
        var i :| 0 <= i < |kept| && kept[i].package == package;
        assert FirstPerPackage(us)[i] == kept[i];
      }
      if HasPackage(FirstPerPackage(us), package) && !HasPackage(kept, package) {
        assert FirstPerPackage(us)[|kept|].package == package;
        assert us[|us| - 1].package == package;
      }
    }
  }

  /** The entry reported for a package is its first update. */
  lemma {:induction false} FirstPerPackageKeepsFirst(us: seq<Update>, i: nat)
    requires i < |FirstPerPackage(us)|
    ensures exists j :: 0 <= j < |us| && us[j] == FirstPerPackage(us)[i] &&
              forall k :: 0 <= k < j ==> us[k].package != us[j].package
    decreases |us|
  {
    var init := us[..|us| - 1];
    var kept := FirstPerPackage(init);
    if i < |kept| {
      FirstPerPackageKeepsFirst(init, i);
      var j :| 0 <= j < |init| && init[j] == kept[i] && forall k :: 0 <= k < j ==> init[k].package != init[j].package;
      assert us[j] == init[j];
      assert FirstPerPackage(us)[i] == kept[i];
      assert forall k :: 0 <= k < j ==> us[k] == init[k];
    } else {
      var last := us[|us| - 1];
      assert FirstPerPackage(us) == kept + [last] && FirstPerPackage(us)[i] == last;
      FirstPerPackageCovers(init, last.package);
      assert !HasPackage(init, last.package);
      assert forall k :: 0 <= k < |us| - 1 ==> us[k] == init[k];
    }
  }

  /** Position a of us is the first announcement of its package. */
  predicate FirstAnnounced(us: seq<Update>, a: int) {
    0 <= a < |us| && forall k :: 0 <= k < a ==> us[k].package != us[a].package
  }

  /** A first announcement stays one when further rows follow. */
  lemma FirstAnnouncedPrefix(us: seq<Update>, a: int)
    requires |us| > 0 && FirstAnnounced(us[..|us| - 1], a)
    ensures FirstAnnounced(us, a) && us[a] == us[..|us| - 1][a]
  {
    assert forall k :: 0 <= k <= a ==> us[k] == us[..|us| - 1][k];
  }

  /** The reported updates are in the order in which their packages were first announced. */
  lemma {:induction false} FirstPerPackageOrder(us: seq<Update>, i: nat, j: nat)
    requires i < j < |FirstPerPackage(us)|
    ensures exists a, b :: a < b && FirstAnnounced(us, a) && FirstAnnounced(us, b) &&
              us[a] == FirstPerPackage(us)[i] && us[b] == FirstPerPackage(us)[j]
    decreases |us|
  {
    var init := us[..|us| - 1];
    var kept := FirstPerPackage(init);
    if j < |kept| {
      FirstPerPackageOrder(init, i, j);
      var a, b :| a < b && FirstAnnounced(init, a) && FirstAnnounced(init, b) &&
                  init[a] == kept[i] && init[b] == kept[j];
      FirstAnnouncedPrefix(us, a);
      FirstAnnouncedPrefix(us, b);
    } else {
      var last := us[|us| - 1];
      FirstPerPackageKeepsFirst(init, i);
      var a :| 0 <= a < |init| && init[a] == kept[i] && forall k :: 0 <= k < a ==> init[k].package != init[a].package;
      assert FirstAnnounced(init, a);
      FirstAnnouncedPrefix(us, a);
      FirstPerPackageCovers(init, last.package);
      assert forall k :: 0 <= k < |init| ==> init[k].package != last.package;
      assert FirstAnnounced(us, |us| - 1) by {
        assert forall k :: 0 <= k < |us| - 1 ==> us[k] == init[k];
      }
    }
  }

  /** A package name or version column: no white space, no parentheses. */
  predicate Token(t: string) {
    |t| > 0 && forall i :: 0 <= i < |t| ==> t[i] !in TrimDefault && t[i] != '(' && t[i] != ')'
  }

  /** The text of an update announcement after its verb: `X (old => new)`. */
  function UpdateRow(package: string, oldVersion: string, newVersion: string): string {
    package + (" (" + (oldVersion + (" => " + (newVersion + ")"))))
  }

  /** `old => new` splits into its two versions. */
  lemma VersionsSplit(o: string, n: string)
    requires Token(o) && Token(n)
    ensures Trim(Substr(o + (" => " + n), 0, OrZero(StrPos(o + (" => " + n), " "))), VersionTrim) == o
    ensures At(Explode(o + (" => " + n), " => "), 1) == n
  {
    assert ' ' in TrimDefault;
    FirstOfChar(o, ' ', " => " + n);
    TrimKeeps(o, VersionTrim);
    ExplodeAtFirst(o, " => ", n);
  }

  /** The package column is the text before the first ` (`. */
  lemma RowColumns(x: string, rest: string)
    requires Token(x) && Lacks(rest, '(')
    ensures Explode(x + (" (" + rest), " (") == [x, rest]
  {
    var r := x + (" (" + rest);
    assert r == x + " (" + rest;
    assert r[|x|..][..2] == " (";
    StrPosAt(r, " (", |x|);
    ExplodeSplits(x, " (", rest);
    ContainsPairIff(rest, " (");
    ExplodeWhole(rest, " (");
  }

  /** The closing parenthesis is the only one dropped. */
  lemma VersionsClosed(o: string, n: string)
    requires Token(o) && Token(n)
    ensures Replace(o + (" => " + n) + ")", ")", "") == o + (" => " + n)
  {
    var vs := o + (" => " + n);
    forall i | 0 <= i < |vs| ensures vs[i] != ')' {
      if i < |o| { assert vs[i] == o[i]; }
      else if i >= |o| + 4 { assert vs[i] == n[i - |o| - 4]; }
    }
    ReplaceLastChar(vs, ')');
  }

  /** A version without spaces is kept whole. */
  lemma VersionWhole(n: string)
    requires Token(n)
    ensures Trim(Substr(n, 0, if StrPos(n, " ").Some? then StrPos(n, " ").value else |n|), VersionTrim) == n
  {
    NotContainsFirstChar(n, " ");
    assert Substr(n, 0, |n|) == n;
    TrimKeeps(n, VersionTrim);
  }

  /** The current form yields the package, the new version and the old version. */
  lemma NewFormatRow(x: string, o: string, n: string)
    requires Token(x) && Token(o) && Token(n)
    ensures NewFormat(UpdateRow(x, o, n)) == Update(x, n, o)
  {
    var vs := o + (" => " + n);
    var rest := vs + ")";
    assert UpdateRow(x, o, n) == x + (" (" + rest);
    assert Lacks(rest, '(') by {
      forall i | 0 <= i < |rest| ensures rest[i] != '(' {
        if i < |o| { assert rest[i] == o[i]; }
        else if i >= |o| + 4 && i < |o| + 4 + |n| { assert rest[i] == n[i - |o| - 4]; }
      }
    }
    RowColumns(x, rest);
    VersionsClosed(o, n);
    VersionsSplit(o, n);
    VersionWhole(n);
  }

  /** In a row whose package and old version do not end in a dash, no dash is followed by a space. */
  lemma RowHasNoDashSpace(x: string, o: string, n: string)
    requires Token(x) && Token(o) && Token(n) && x[|x| - 1] != '-' && o[|o| - 1] != '-'
    ensures forall j :: 0 <= j < |UpdateRow(x, o, n)| - 1 ==> !(UpdateRow(x, o, n)[j] == '-' && UpdateRow(x, o, n)[j + 1] == ' ')
  {
    var r := UpdateRow(x, o, n);
    forall j | 0 <= j < |r| - 1
      ensures !(r[j] == '-' && r[j + 1] == ' ')
    {
      if j < |x| - 1 {
        assert r[j + 1] == x[j + 1];
      } else if j == |x| - 1 {
        assert r[j] == x[j];
      } else if j == |x| || j == |x| + 1 {
        assert r[j] == (if j == |x| then ' ' else '(');
      } else if j < |x| + 1 + |o| {
        assert r[j + 1] == o[j + 1 - |x| - 2];
      } else if j == |x| + 1 + |o| {
        assert r[j] == o[|o| - 1];
      } else if j < |x| + 2 + |o| + 4 {
        assert r[j] == " => "[j - |x| - 2 - |o|];
      } else {
        assert r[j + 1] == (n + ")")[j + 1 - |x| - 2 - |o| - 4];
      }
    }
  }

  /**
   * `- Updating X (old => new)` and `- Upgrading X (old => new)` yield X with both versions,
   * when X and the old version do not end in a dash.
   */
  lemma {:induction false} UpdateEntryOfRow(x: string, o: string, n: string)
    requires Token(x) && Token(o) && Token(n) && x[|x| - 1] != '-' && o[|o| - 1] != '-'
    ensures UpdateEntry("- Updating " + UpdateRow(x, o, n)) == Some(Update(x, n, o))
    ensures UpdateEntry("- Upgrading " + UpdateRow(x, o, n)) == Some(Update(x, n, o))
  {
    var r := UpdateRow(x, o, n);
    RowHoldsNoVerb(x, o, n);
    VerbMentionsUpdate(r);
    StripFirstVerb("- Updating ", "- Upgrading ", r);
    UpdatingNotInUpgrading(r);
    StripSecondVerb("- Updating ", "- Upgrading ", r);
    AnnouncedAs("- Updating " + r, r);
    AnnouncedAs("- Upgrading " + r, r);
    NewFormatRow(x, o, n);
  }

  /** The row of an announcement is neither verb and holds the arrow. */
  lemma RowHoldsNoVerb(x: string, o: string, n: string)
    requires Token(x) && Token(o) && Token(n) && x[|x| - 1] != '-' && o[|o| - 1] != '-'
    ensures Replace(UpdateRow(x, o, n), "- Updating ", "") == UpdateRow(x, o, n)
    ensures Replace(UpdateRow(x, o, n), "- Upgrading ", "") == UpdateRow(x, o, n)
    ensures Contains(UpdateRow(x, o, n), " => ")
    ensures UpdateRow(x, o, n)[|UpdateRow(x, o, n)| - 1] == ')'
  {
    var r := UpdateRow(x, o, n);
    RowHasNoDashSpace(x, o, n);
    NotContainsPair(r, "- Updating ");
    NotContainsPair(r, "- Upgrading ");
    ReplaceAbsent(r, "- Updating ", "");
    ReplaceAbsent(r, "- Upgrading ", "");
    assert r[|x| + 2 + |o|..][..4] == " => ";
    ContainsAt(r, " => ", |x| + 2 + |o|);
  }

  /** An announcement whose stripped row holds the arrow is read in the current form. */
  lemma AnnouncedAs(line: string, r: string)
    requires MentionsUpdate(line) && Contains(r, " => ")
    requires Replace(Replace(Trim(line, TrimDefault), "- Updating ", ""), "- Upgrading ", "") == r
    ensures UpdateEntry(line) == Some(NewFormat(r))
  {
  }

  /** Trimming, then removing the leading verb `v` and the other verb `w`, leaves the row. */
  lemma StripFirstVerb(v: string, w: string, r: string)
    requires |v| > 0 && |w| > 0 && v[0] !in TrimDefault && |r| > 0 && r[|r| - 1] !in TrimDefault
    requires Replace(r, v, "") == r && Replace(r, w, "") == r
    ensures Replace(Replace(Trim(v + r, TrimDefault), v, ""), w, "") == r
  {
    var line := v + r;
    assert line[0] == v[0] && line[|line| - 1] == r[|r| - 1];
    TrimKeeps(line, TrimDefault);
    ReplaceLeading(v, r, "");
    assert "" + r == r;
  }

  /** The same when the verb `v` is the second one removed and `w` cannot start inside `v`. */
  lemma StripSecondVerb(w: string, v: string, r: string)
    requires |v| > 0 && |w| > 0 && v[0] !in TrimDefault && |r| > 0 && r[|r| - 1] !in TrimDefault
    requires forall i :: 0 <= i < |v| ==> !StartsWith((v + r)[i..], w)
    requires Replace(r, v, "") == r && Replace(r, w, "") == r
    ensures Replace(Replace(Trim(v + r, TrimDefault), w, ""), v, "") == r
  {
    var line := v + r;
    assert line[0] == v[0] && line[|line| - 1] == r[|r| - 1];
    TrimKeeps(line, TrimDefault);
    ReplaceKeepsHead(v, r, w, "");
    ReplaceLeading(v, r, "");
    assert "" + r == r;
  }

  /** `- Updating ` cannot start inside `- Upgrading `. */
  lemma UpdatingNotInUpgrading(r: string)
    ensures forall i :: 0 <= i < |"- Upgrading "| ==> !StartsWith(("- Upgrading " + r)[i..], "- Updating ")
  {
    var g := "- Upgrading ";
    forall i | 0 <= i < |g|
      ensures !StartsWith((g + r)[i..], "- Updating ")
    {
      if i == 0 {
        NotStartsWithAt((g + r)[i..], "- Updating ", 4);
      } else {
        NotStartsWithAt((g + r)[i..], "- Updating ", 0);
      }
    }
  }

  /** A line that starts with a verb mentions an update. */
  lemma VerbMentionsUpdate(r: string)
    ensures MentionsUpdate("- Updating " + r) && MentionsUpdate("- Upgrading " + r)
  {
    assert ("- Updating " + r)[..10] == "- Updating";
    ContainsAt("- Updating " + r, "- Updating", 0);
    assert ("- Upgrading " + r)[..11] == "- Upgrading";
    ContainsAt("- Upgrading " + r, "- Upgrading", 0);
  }

  /**
   * An update and an upgrade of two different packages, followed by a line that announces nothing,
   * are both reported, in order.
   */
  lemma {:induction false} OutdatedPackagesOfTwoRows(x1: string, o1: string, n1: string, x2: string, o2: string, n2: string, other: string)
    requires Token(x1) && Token(o1) && Token(n1) && x1[|x1| - 1] != '-' && o1[|o1| - 1] != '-'
    requires Token(x2) && Token(o2) && Token(n2) && x2[|x2| - 1] != '-' && o2[|o2| - 1] != '-'
    requires x1 != x2 && !MentionsUpdate(other)
    ensures FirstPerPackage(Collect(["- Updating " + UpdateRow(x1, o1, n1), "- Upgrading " + UpdateRow(x2, o2, n2), other], UpdateEntry))
            == [Update(x1, n1, o1), Update(x2, n2, o2)]
  {
    UpdateEntryOfRow(x1, o1, n1);
    UpdateEntryOfRow(x2, o2, n2);
    OutdatedPackagesOfThree("- Updating " + UpdateRow(x1, o1, n1), "- Upgrading " + UpdateRow(x2, o2, n2), other,
                            Update(x1, n1, o1), Update(x2, n2, o2));
  }

  /** Two lines announcing updates of different packages and one announcing nothing. */
  lemma OutdatedPackagesOfThree(l1: string, l2: string, other: string, u1: Update, u2: Update)
    requires UpdateEntry(l1) == Some(u1) && UpdateEntry(l2) == Some(u2) && !MentionsUpdate(other)
    requires u1.package != u2.package
    ensures FirstPerPackage(Collect([l1, l2, other], UpdateEntry)) == [u1, u2]
  {
    assert UpdateEntry(other) == None;
    CollectTwoOfThree(l1, l2, other, UpdateEntry, u1, u2);
    FirstPerPackageOfTwo(u1, u2);
  }

  /** Updates of two different packages are both kept, in order. */
  lemma FirstPerPackageOfTwo(u1: Update, u2: Update)
    requires u1.package != u2.package
    ensures FirstPerPackage([u1, u2]) == [u1, u2]
  {
    FirstPerPackageStep([], u1);
    FirstPerPackageStep([u1], u2);
    assert [] + [u1] == [u1] && [u1] + [u2] == [u1, u2];
  }

  // ---------------------------------------------------------------------------------
  // search

  /** A search line with backspaces removed, trimmed, `- Updating ` dropped and every `Reading ` put on a line of its own. */
  function SearchLine(line: string): string {
    var l := Trim(Replace(line, [Backspace], ""), TrimDefault);
    Trim(Replace(Replace(l, "- Updating ", ""), "Reading ", "\n" + "Reading "), TrimDefault)
  }

  /** The starts of the progress lines a search prints. */
  const SearchNoise: seq<string> := [
    "Reading ", "Failed to", "Executing command ", "Executing branch ", "Importing branch ",
    "Loading config file ", "Changed CWD to ", "Checked CA file ", "Loading plugin ", "Running "
  ]

  predicate IsSearchNoise(l: string) {
    (exists i :: 0 <= i < |SearchNoise| && StartsWith(l, SearchNoise[i])) || (StartsWith(l, "Writing ") && Contains(l, "into cache"))
  }

  /** One search line: the name before the first space maps to the description after it; a line without a space gives nothing. */
  function SearchEntry(line: string): (r: Option<(string, string)>)
    ensures r.Some? <==> !IsSearchNoise(SearchLine(line)) && Contains(SearchLine(line), " ")
    ensures r.Some? ==> SearchLine(line) == r.value.0 + " " + r.value.1 && Lacks(r.value.0, ' ')
  {
    var l := SearchLine(line);
    if IsSearchNoise(l) then None
    else
      var split := ExplodeTwo(l, " ");
      ExplodeTwoSpace(l);
      if |split| == 2 then Some((split[0], split[1])) else None
  }

  /** The clean-up strips every backspace, so neither a search key nor its description holds one. */
  lemma SearchLineLacksBackspace(line: string)
    ensures Lacks(SearchLine(line), Backspace)
  {
    var l0 := Replace(line, [Backspace], "");
    ReplaceDropsChar(line, Backspace);
    LacksTrim(l0, TrimDefault, Backspace);
    var l := Trim(l0, TrimDefault);
    var l1 := Replace(l, "- Updating ", "");
    ReplaceKeepsLacks(l, "- Updating ", "", Backspace);
    assert Lacks("\n" + "Reading ", Backspace);
    ReplaceKeepsLacks(l1, "Reading ", "\n" + "Reading ", Backspace);
    LacksTrim(Replace(l1, "Reading ", "\n" + "Reading "), TrimDefault, Backspace);
  }

  method Search(lines: seq<string>) returns (packages: map<string, string>)
    ensures packages == Assoc(lines, SearchEntry)
  {
    packages := AssocEach(lines, SearchEntry);
  }

  /** A noise prefix whose first word is free of `/` cannot start a line whose first word holds a `/`. */
  lemma NotNoisePrefix(name: string, tail: string, prefix: string, k: nat)
    requires Lacks(name, ' ') && '/' in name && |tail| > 0 && tail[0] == ' '
    requires k < |prefix| && prefix[k] == ' ' && forall i :: 0 <= i < k ==> prefix[i] != '/'
    ensures !StartsWith(name + tail, prefix)
  {
    var j :| 0 <= j < |name| && name[j] == '/';
    if |name| <= k {
      assert (name + tail)[j] == '/' && prefix[j] != '/';
    } else {
      assert (name + tail)[k] != ' ';
    }
  }

  /** A line whose first word holds a `/` is not search noise. */
  lemma NotSearchNoise(name: string, tail: string)
    requires Lacks(name, ' ') && '/' in name && |tail| > 0 && tail[0] == ' '
    ensures !IsSearchNoise(name + tail)
  {
    forall i | 0 <= i < |SearchNoise|
      ensures !StartsWith(name + tail, SearchNoise[i])
    {
      var k := NoiseShape(i);
      NotNoisePrefix(name, tail, SearchNoise[i], k);
    }
    NotNoisePrefix(name, tail, "Writing ", 7);
  }

  /** Every progress prefix has a first word free of `/`, ended by a space at `k`. */
  lemma NoiseShape(i: nat) returns (k: nat)
    requires i < |SearchNoise|
    ensures k < |SearchNoise[i]| && SearchNoise[i][k] == ' '
    ensures forall j :: 0 <= j < k ==> SearchNoise[i][j] != '/'
  {
    var p := SearchNoise[i];
    if i == 0 {
      assert p == "Reading ";
      k := 7;
    } else if i == 1 {
      assert p == "Failed to";
      k := 6;
    } else if i == 2 {
      assert p == "Executing command ";
      k := 9;
    } else if i == 3 {
      assert p == "Executing branch ";
      k := 9;
    } else if i == 4 {
      assert p == "Importing branch ";
      k := 9;
    } else if i == 5 {
      assert p == "Loading config file ";
      k := 7;
    } else if i == 6 {
      assert p == "Changed CWD to ";
      k := 7;
    } else if i == 7 {
      assert p == "Checked CA file ";
      k := 7;
    } else if i == 8 {
      assert p == "Loading plugin ";
      k := 7;
    } else {
      assert p == "Running ";
      k := 7;
    }
  }

  /** A search line that passes every step of the clean-up unchanged. */
  lemma SearchLineKeeps(l: string)
    requires |l| > 0 && l[0] !in TrimDefault && l[|l| - 1] !in TrimDefault && Lacks(l, Backspace)
    requires !Contains(l, "- Updating ") && !Contains(l, "Reading ")
    ensures SearchLine(l) == l
  {
    NotContainsFirstChar(l, [Backspace]);
    ReplaceAbsent(l, [Backspace], "");
    TrimKeeps(l, TrimDefault);
    ReplaceAbsent(l, "- Updating ", "");
    ReplaceAbsent(l, "Reading ", "\n" + "Reading ");
  }

  /**
   * A result row `vendor/name description` maps the name to the whole description, provided nothing in it
   * looks like progress output.
   */
  lemma SearchEntryOfRow(name: string, desc: string)
    requires |name| > 0 && Lacks(name, ' ') && '/' in name && name[0] !in TrimDefault
    requires |desc| > 0 && desc[|desc| - 1] !in TrimDefault
    requires Lacks(name + (" " + desc), Backspace)
    requires !Contains(name + (" " + desc), "- Updating ") && !Contains(name + (" " + desc), "Reading ")
    ensures SearchEntry(name + (" " + desc)) == Some((name, desc))
  {
    var row := name + (" " + desc);
    assert row[0] == name[0] && row[|row| - 1] == desc[|desc| - 1];
    SearchLineKeeps(row);
    NotSearchNoise(name, " " + desc);
    assert row == name + " " + desc;
    FirstSpaceOf(name, desc);
    ExplodeSplits(name, " ", desc);
  }

  /** A `Reading ...` line is dropped, since the clean-up puts it on a line of its own that starts with `Reading `. */
  lemma SearchSkipsReading(rest: string)
    requires |rest| > 0 && rest[|rest| - 1] !in TrimDefault && Lacks(rest, Backspace)
    requires !Contains(rest, "- Updating ") && !Contains(rest, "Reading ")
    ensures SearchEntry("Reading " + rest) == None
  {
    var line := "Reading " + rest;
    assert line[0] == 'R' && line[|line| - 1] == rest[|rest| - 1];
    LacksConcat("Reading ", rest, Backspace);
    Parser.CleanKeeps(line);
    ReadingKeepsUpdating(rest);
    PadBeforeLeading("Reading ", rest, "\n", TrimDefault);
    assert SearchLine(line) == line;
    assert line[..8] == SearchNoise[0];
  }

  lemma ReadingKeepsUpdating(rest: string)
    requires !Contains(rest, "- Updating ")
    ensures Replace("Reading " + rest, "- Updating ", "") == "Reading " + rest
  {
    var r := "Reading ";
    forall i | 0 <= i < |r|
      ensures !StartsWith((r + rest)[i..], "- Updating ")
    {
      assert (r + rest)[i..][0] == r[i];
      NotStartsWithAt((r + rest)[i..], "- Updating ", 0);
    }
    ReplaceKeepsHead(r, rest, "- Updating ", "");
    ReplaceAbsent(rest, "- Updating ", "");
  }

  /** A progress line followed by one result row gives that row's name and description. */
  lemma {:induction false} SearchOfReadingAndRow(rest: string, name: string, desc: string)
    requires |rest| > 0 && rest[|rest| - 1] !in TrimDefault && Lacks(rest, Backspace)
    requires !Contains(rest, "- Updating ") && !Contains(rest, "Reading ")
    requires |name| > 0 && Lacks(name, ' ') && '/' in name && name[0] !in TrimDefault
    requires |desc| > 0 && desc[|desc| - 1] !in TrimDefault
    requires Lacks(name + (" " + desc), Backspace)
    requires !Contains(name + (" " + desc), "- Updating ") && !Contains(name + (" " + desc), "Reading ")
    ensures Assoc(["Reading " + rest, name + (" " + desc)], SearchEntry) == map[name := desc]
  {
    SearchSkipsReading(rest);
    SearchEntryOfRow(name, desc);
    AssocSkipThenStore("Reading " + rest, name + (" " + desc), SearchEntry);
  }

  // ---------------------------------------------------------------------------------
  // show

  /** show: a non-empty package name is passed on as the `package` argument; nothing else changes. */
  function ShowOptions(o: OptionList, package: string): (r: OptionList)
    ensures IsEmpty(package) ==> r == o
    ensures !IsEmpty(package) ==> Lookup(r, "package") == Some(Str(package))
    ensures forall k :: k != "package" ==> Lookup(r, k) == Lookup(o, k)
    ensures UniqueKeys(o) ==> UniqueKeys(r)
  {
    PutSpec(o, "package", Str(package));
    if !IsEmpty(package) then Put(o, "package", Str(package)) else o
  }

  /** One `show` line: its first word, unless that is empty, "0", a backspace or `Reading`. */
  function ShowEntry(line: string): Option<string> {
    ListedName(line, ["Reading"])
  }

  method Show(lines: seq<string>) returns (packages: seq<string>)
    ensures packages == Collect(lines, ShowEntry)
  {
    packages := CollectEach(lines, ShowEntry);
  }

  /** Every listed name is a real first word, and each comes from a line of the output. */
  lemma {:induction false} ShowNames(lines: seq<string>, name: string)
    ensures name in Collect(lines, ShowEntry) ==>
              name != "" && name != "0" && name[0] != Backspace && name != "Reading" &&
              exists i :: 0 <= i < |lines| && ListedName(lines[i], ["Reading"]) == Some(name)
  {
    CollectMembers(lines, ShowEntry, name);
  }

  /** A package row is listed by its name and a following `Reading ...` line is not. */
  lemma {:induction false} ShowOfRowAndReading(word: string, rest: string, more: string)
    requires Lacks(word, ' ') && !IsEmpty(word) && word[0] != Backspace && word != "Reading"
    ensures Collect([word + (" " + rest), "Reading" + (" " + more)], ShowEntry) == [word]
  {
    ListedNameOfRow(word, rest, ["Reading"]);
    ListedNameSkips(more, "Reading", ["Reading"]);
    CollectTwo(word + (" " + rest), "Reading" + (" " + more), ShowEntry);
  }

  // ---------------------------------------------------------------------------------
  // why

  /** One package that requires the package asked about. */
  datatype Dependent = Dependent(package: string, version: string, constraint: string)

  /**
   * One `why` line. `groups` is what preg_match leaves in `$matches` for the pattern
   * `(\S+)\s*(\S+)\s*(\S+)\s*(\S+)\s*\((\S+)\)`: [] when the line does not match, else the whole match and five groups.
   */
  function WhyEntry(line: string, groups: string -> seq<string>): Option<Dependent> {
    if Parser.IsChatter(line) then None
    else
      var m := groups(line);
      if |m| < 4 then None else Some(Dependent(m[1], m[2], At(m, 5)))
  }

  method Why(lines: seq<string>, groups: string -> seq<string>) returns (result: seq<Dependent>)
    ensures result == Collect(lines, line => WhyEntry(line, groups))
  {
    result := CollectEach(lines, line => WhyEntry(line, groups));
  }

  /** A line of the shape `name version word (constraint)`. */
  function WhyRow(name: string, version: string, word: string, constraint: string): string {
    name + (" " + (version + (" " + (word + (" (" + (constraint + ")"))))))
  }

  /** The characters PCRE's `\s` matches. */
  const PcreSpace: set<char> := {' ', '\t', '\n', 11 as char, 12 as char, '\r'}

  /** What `\S+` matches: one or more characters outside `\s`. */
  predicate NonSpace(t: string) {
    |t| > 0 && forall i :: 0 <= i < |t| ==> t[i] !in PcreSpace
  }

  /** A column of a `why` row: a `\S+` token without parentheses. */
  predicate WhyToken(t: string) {
    NonSpace(t) && forall i :: 0 <= i < |t| ==> t[i] != '(' && t[i] != ')'
  }

  /**
   * The shape of a `why` row for which the groups below are the ones the pattern yields: four tokens
   * and a parenthesised constraint, none of them holding white space or a parenthesis.
   */
  predicate WhyShape(name: string, version: string, word: string, constraint: string) {
    WhyToken(name) && WhyToken(version) && WhyToken(word) && |word| >= 2 && WhyToken(constraint)
  }

  /**
   * The groups the pattern yields on such a row: the third `\S+` gives its last character back to the fourth,
   * and `\((\S+)\)` takes the constraint. They form a match of the pattern: every group is a `\S+` token and the
   * whole match is the groups joined by the pattern's separators.
   */
  function WhyGroups(name: string, version: string, word: string, constraint: string): (m: seq<string>)
    requires WhyShape(name, version, word, constraint)
    ensures |m| == 6 && m[1] == name && m[2] == version && m[5] == constraint
    ensures forall k :: 1 <= k < 6 ==> NonSpace(m[k])
    ensures m[0] == m[1] + (" " + (m[2] + (" " + ((m[3] + m[4]) + (" (" + (m[5] + ")"))))))
  {
    var m := [WhyRow(name, version, word, constraint), name, version, word[..|word| - 1], word[|word| - 1..], constraint];
    assert m[3] + m[4] == word;
    assert NonSpace(m[3]) && NonSpace(m[4]) by {
      assert forall i :: 0 <= i < |m[3]| ==> m[3][i] == word[i];
      assert m[4][0] == word[|word| - 1];
    }
    m
  }

  /** A row of that shape that is not chatter yields its name, its version and the constraint. */
  lemma WhyOfRow(name: string, version: string, word: string, constraint: string, groups: string -> seq<string>)
    requires WhyShape(name, version, word, constraint) && Parser.NotChatterHead(name)
    requires Lacks(WhyRow(name, version, word, constraint), '<')
    requires groups(WhyRow(name, version, word, constraint)) == WhyGroups(name, version, word, constraint)
    ensures WhyEntry(WhyRow(name, version, word, constraint), groups) == Some(Dependent(name, version, constraint))
  {
    Parser.NotChatter(name, " " + (version + (" " + (word + (" (" + (constraint + ")"))))));
  }

  /** A dependent row followed by progress output gives that one dependent. */
  lemma {:induction false} WhyOfRowAndReading(name: string, version: string, word: string, constraint: string, more: string,
                                             groups: string -> seq<string>)
    requires WhyShape(name, version, word, constraint) && Parser.NotChatterHead(name)
    requires Lacks(WhyRow(name, version, word, constraint), '<')
    requires groups(WhyRow(name, version, word, constraint)) == WhyGroups(name, version, word, constraint)
    ensures Collect([WhyRow(name, version, word, constraint), "Reading" + more], line => WhyEntry(line, groups))
            == [Dependent(name, version, constraint)]
  {
    WhyOfRow(name, version, word, constraint, groups);
    assert ("Reading" + more)[..7] == "Reading";
    assert Parser.IsChatter("Reading" + more);
    CollectTwo(WhyRow(name, version, word, constraint), "Reading" + more, line => WhyEntry(line, groups));
  }

  // ---------------------------------------------------------------------------------
  // executeComposer: deciding that a run failed

  /** What a run gives back: its lines, or the exception raised with message, code and context lines. */
  datatype RunOutcome = Output(lines: seq<string>) | Failure(message: string, code: int, context: seq<string>)

  /** A line that names an exception, as a failed run prints it. */
  predicate IsExceptionLine(line: string) {
    Contains(line, "Exception") && Contains(line, "[") && Contains(line, "]")
  }

  const RuntimeMarker: string := "[RuntimeException]"
  const ArgumentMarker: string := "[Symfony\\Component" + "\\Console\\Exception" + "\\InvalidArgumentException]"
  const ErrorMarker: string := "[ErrorException]"

  predicate HasMarker(line: string, marker: string) {
    Contains(line, marker)
  }

  /**
   * The check for one marker after a successful run: when the joined output mentions it, the line after the
   * first line that holds it becomes the message (a missing line reads as "").
   */
  function MarkerFailure(lines: seq<string>, marker: string): Option<string> {
    if !Contains(Join(lines, "\n"), marker) then None
    else
      match FirstIndex(lines, line => HasMarker(line, marker))
      case None => None
      case Some(k) => Some(At(lines, k + 1))
  }

  /** The outcome of a run with status `code` that printed `lines`. */
  function Classify(code: int, lines: seq<string>): RunOutcome {
    if code != 0 then
      match FirstIndex(lines, IsExceptionLine)
      case Some(k) => Failure(Trim(At(lines, k + 1), TrimDefault) + Trim(At(lines, k + 2), TrimDefault), 0, [])
      case None => Failure("Something went wrong", code, lines)
    else SuccessOutcome(lines)
  }

  /** After a zero status the three markers are checked in turn. */
  function SuccessOutcome(lines: seq<string>): RunOutcome {
    if MarkerFailure(lines, RuntimeMarker).Some? then Failure(MarkerFailure(lines, RuntimeMarker).value, 0, [])
    else if MarkerFailure(lines, ArgumentMarker).Some? then Failure(MarkerFailure(lines, ArgumentMarker).value, 0, [])
    else if MarkerFailure(lines, ErrorMarker).Some? then Failure(MarkerFailure(lines, ErrorMarker).value, 0, [])
    else Output(lines)
  }

  method ExecuteComposer(code: int, lines: seq<string>) returns (outcome: RunOutcome)
    ensures outcome == Classify(code, lines)
  {
    if code != 0 {
      var k := FindFirst(lines, IsExceptionLine);
      if k.Some? {
        return Failure(Trim(At(lines, k.value + 1), TrimDefault) + Trim(At(lines, k.value + 2), TrimDefault), 0, []);
      }
      return Failure("Something went wrong", code, lines);
    }
    var completeOutput := Join(lines, "\n");
    var message := ThrowForMarker(lines, completeOutput, RuntimeMarker);
    if message.Some? {
      return Failure(message.value, 0, []);
    }
    message := ThrowForMarker(lines, completeOutput, ArgumentMarker);
    if message.Some? {
      return Failure(message.value, 0, []);
    }
    message := ThrowForMarker(lines, completeOutput, ErrorMarker);
    if message.Some? {
      return Failure(message.value, 0, []);
    }
    return Output(lines);
  }

  /** The check for one marker: the message of the exception it raises, None when it raises none. */
  method ThrowForMarker(lines: seq<string>, completeOutput: string, marker: string) returns (message: Option<string>)
    requires completeOutput == Join(lines, "\n")
    ensures message == MarkerFailure(lines, marker)
  {
    if !Contains(completeOutput, marker) {
      return None;
    }
    var k := FindFirst(lines, line => HasMarker(line, marker));
    if k.Some? {
      return Some(At(lines, k.value + 1));
    }
    return None;
  }

  /** A marker is seen in the joined output exactly when one line holds it, since no marker spans a line break. */
  lemma MarkerFailureIff(lines: seq<string>, marker: string)
    requires |marker| > 0 && Lacks(marker, '\n')
    ensures MarkerFailure(lines, marker).Some? <==> exists i :: 0 <= i < |lines| && Contains(lines[i], marker)
    ensures MarkerFailure(lines, marker).Some? ==>
              exists k :: 0 <= k < |lines| && Contains(lines[k], marker) && MarkerFailure(lines, marker).value == At(lines, k + 1) &&
                forall j :: 0 <= j < k ==> !Contains(lines[j], marker)
  {
    JoinContains(lines, '\n', marker);
    var first := FirstIndex(lines, line => HasMarker(line, marker));
    if exists i :: 0 <= i < |lines| && Contains(lines[i], marker) {
      var i :| 0 <= i < |lines| && Contains(lines[i], marker);
      assert HasMarker(lines[i], marker);
    }
  }

  lemma MarkersOnOneLine()
    ensures |RuntimeMarker| > 0 && Lacks(RuntimeMarker, '\n')
    ensures |ArgumentMarker| > 0 && Lacks(ArgumentMarker, '\n')
    ensures |ErrorMarker| > 0 && Lacks(ErrorMarker, '\n')
  {
    assert Lacks("[Symfony\\Component", '\n') && Lacks("\\Console\\Exception", '\n') && Lacks("\\InvalidArgumentException]", '\n');
    LacksConcat("[Symfony\\Component", "\\Console\\Exception", '\n');
    LacksConcat("[Symfony\\Component" + "\\Console\\Exception", "\\InvalidArgumentException]", '\n');
  }

  /** A run with a non-zero status always fails; the status is passed on exactly when no line names an exception. */
  lemma ClassifyNonZero(code: int, lines: seq<string>)
    requires code != 0
    ensures Classify(code, lines).Failure?
    ensures Classify(code, lines).code == code <==> forall i :: 0 <= i < |lines| ==> !IsExceptionLine(lines[i])
    ensures (forall i :: 0 <= i < |lines| ==> !IsExceptionLine(lines[i])) ==> Classify(code, lines) == Failure("Something went wrong", code, lines)
  {
  }

  /** A failed run that names an exception reports the two lines after the first such line, trimmed and joined. */
  lemma ClassifyExceptionLine(code: int, lines: seq<string>, k: nat)
    requires code != 0 && k < |lines| && IsExceptionLine(lines[k]) && forall j :: 0 <= j < k ==> !IsExceptionLine(lines[j])
    ensures Classify(code, lines) == Failure(Trim(At(lines, k + 1), TrimDefault) + Trim(At(lines, k + 2), TrimDefault), 0, [])
  {
    FirstIndexIs(lines, IsExceptionLine, k);
  }

  /** A successful run gives back its lines unchanged exactly when no line mentions one of the three markers. */
  lemma ClassifyZero(lines: seq<string>)
    ensures Classify(0, lines) == Output(lines) <==>
              forall i :: 0 <= i < |lines| ==>
                !Contains(lines[i], RuntimeMarker) && !Contains(lines[i], ArgumentMarker) && !Contains(lines[i], ErrorMarker)
    ensures Classify(0, lines).Output? ==> Classify(0, lines) == Output(lines)
  {
    MarkersOnOneLine();
    MarkerFailureIff(lines, RuntimeMarker);
    MarkerFailureIff(lines, ArgumentMarker);
    MarkerFailureIff(lines, ErrorMarker);
  }

  /** The runtime marker is checked first: its following line is the message whatever else the output holds. */
  lemma ClassifyRuntimeFirst(lines: seq<string>, k: nat)
    requires k < |lines| && Contains(lines[k], RuntimeMarker) && forall j :: 0 <= j < k ==> !Contains(lines[j], RuntimeMarker)
    ensures Classify(0, lines) == Failure(At(lines, k + 1), 0, [])
  {
    MarkersOnOneLine();
    JoinContains(lines, '\n', RuntimeMarker);
    assert HasMarker(lines[k], RuntimeMarker);
    FirstIndexIs(lines, line => HasMarker(line, RuntimeMarker), k);
  }
}
