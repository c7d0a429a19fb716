/**
 * The shell transport: the option string it appends to a command line, the quoted
 * package argument of `require`, and what it makes of the lines `exec` captured
 * from `outdated`, `show` and `search`.
 */
module Cli {
  import opened Wrappers
  import opened Php
  import opened Lines
  import opened Options
  import Web

  // ---------------------------------------------------------------------------------
  // getOptionString

  /** `"--" . ltrim($option, "--")`: every leading dash is dropped and exactly two are put back. */
  function OptionName(key: string): (r: string)
    ensures |r| >= 2 && r[..2] == "--"
    ensures |r| == 2 || r[2] != '-'
  {
    "--" + TrimLeft(key, {'-'})
  }

  /**
   * What follows the option name: nothing for true, `=` and the trimmed value otherwise (false and null
   * read as ""); None where trim() is handed a list, which PHP refuses with a TypeError.
   */
  function ValueText(v: Value): Option<string> {
    match v
    case Bool(b) => Some(if b then "" else "=")
    case Null => Some("=")
    case Str(s) => Some("=" + Trim(s, TrimDefault))
    case List(_) => None
  }

  /** One option on the command line: a space, the option name and the value text. */
  function OptionSegment(key: string, v: Value): Option<string> {
    match ValueText(v)
    case None => None
    case Some(t) => Some(" " + (OptionName(key) + t))
  }

  /** The option string of the whole array, in its order; None when one value is a list. */
  function OptionString(o: OptionList): Option<string>
    decreases |o|
  {
    if o == [] then Some("")
    else
      var init := OptionString(o[..|o| - 1]);
      var last := OptionSegment(o[|o| - 1].0, o[|o| - 1].1);
      if init.Some? && last.Some? then Some(init.value + last.value) else None
  }

  method GetOptionString(options: OptionList) returns (optionString: Option<string>)
    ensures optionString == OptionString(options)
  {
    var acc := "";
    var i := 0;
    while i < |options|
      invariant 0 <= i <= |options|
      invariant OptionString(options[..i]) == Some(acc)
    {
      OptionStringStep(options, i);
      var (option, value) := options[i];
      var name := "--" + TrimLeft(option, {'-'});
      assert name == OptionName(option);
      match value {
        case Bool(b) =>
          if b {
            assert OptionSegment(option, value) == Some(" " + name) by {
              assert name + "" == name;
            }
            acc := acc + (" " + name);
          } else {
            acc := acc + (" " + (name + "="));
          }
        case Null =>
          acc := acc + (" " + (name + "="));
        case Str(s) =>
          acc := acc + (" " + (name + ("=" + Trim(s, TrimDefault))));
        case List(_) =>
          OptionStringFails(options, i);
          return None;
      }
      i := i + 1;
    }
    assert options[..i] == options;
    optionString := Some(acc);
  }

  lemma OptionStringStep(o: OptionList, i: nat)
    requires i < |o|
    ensures OptionString(o[..i + 1]) ==
              if OptionString(o[..i]).Some? && OptionSegment(o[i].0, o[i].1).Some?
              then Some(OptionString(o[..i]).value + OptionSegment(o[i].0, o[i].1).value) else None
  {
    assert o[..i + 1][..i] == o[..i];
  }

  /** Once one value is a list the whole string fails. */
  lemma {:induction false} OptionStringFails(o: OptionList, i: nat)
    requires i < |o| && o[i].1.List?
    ensures OptionString(o) == None
    decreases |o|
  {
    if i < |o| - 1 {
      OptionStringFails(o[..|o| - 1], i);
    }
  }

  /** Each option contributes a segment that starts with ` --` and names it. */
  lemma SegmentShape(key: string, v: Value)
    ensures OptionSegment(key, v).Some? <==> !v.List?
    ensures OptionSegment(key, v).Some? ==>
              var seg := OptionSegment(key, v).value;
              |seg| >= 3 && seg[..3] == " --" && StartsWith(seg[1..], OptionName(key))
  {
    if !v.List? {
      SegmentOf(OptionName(key), ValueText(v).value);
    }
  }

  /** A space, a name that starts with two dashes, and any text. */
  lemma SegmentOf(n: string, t: string)
    requires |n| >= 2 && n[..2] == "--"
    ensures var seg := " " + (n + t);
            |seg| >= 3 && seg[..3] == " --" && StartsWith(seg[1..], n)
  {
    var seg := " " + (n + t);
    assert seg[1..] == n + t;
    assert (n + t)[..|n|] == n;
    assert seg[..3] == " " + n[..2];
  }

  /** No options give the empty string; otherwise the string fails exactly when some value is a list. */
  lemma {:induction false} OptionStringDefined(o: OptionList)
    ensures o == [] ==> OptionString(o) == Some("")
    ensures OptionString(o).Some? <==> forall i :: 0 <= i < |o| ==> !o[i].1.List?
    decreases |o|
  {
    if o != [] {
      var init := o[..|o| - 1];
      OptionStringDefined(init);
      SegmentShape(o[|o| - 1].0, o[|o| - 1].1);
      if exists i :: 0 <= i < |o| && o[i].1.List? {
        var i :| 0 <= i < |o| && o[i].1.List?;
        OptionStringFails(o, i);
      } else {
        assert forall i :: 0 <= i < |init| ==> init[i] == o[i];
      }
    }
  }

  /**
   * More options give a longer string: the string of a prefix of the array is a prefix of the string of the array,
   * and each option adds at least three characters.
   */
  lemma {:induction false} OptionStringGrows(o: OptionList, n: nat)
    requires n <= |o| && OptionString(o).Some?
    ensures OptionString(o[..n]).Some?
    ensures StartsWith(OptionString(o).value, OptionString(o[..n]).value)
    ensures |OptionString(o).value| >= |OptionString(o[..n]).value| + 3 * (|o| - n)
    decreases |o| - n
  {
    if n == |o| {
      assert o[..n] == o;
    } else {
      var init := o[..|o| - 1];
      assert OptionString(init).Some?;
      SegmentShape(o[|o| - 1].0, o[|o| - 1].1);
      assert init[..n] == o[..n];
      OptionStringGrows(init, n);
      var whole := OptionString(o).value;
      var part := OptionString(init).value;
      assert whole[..|part|] == part;
      assert whole[..|OptionString(o[..n]).value|] == part[..|OptionString(o[..n]).value|];
    }
  }

  /** Every option's name appears in the string, after a space. */
  lemma {:induction false} OptionStringNamesEach(o: OptionList, i: nat)
    requires i < |o| && OptionString(o).Some?
    ensures Contains(OptionString(o).value, " " + OptionName(o[i].0))
  {
    OptionStringGrows(o, i + 1);
    OptionStringStep(o, i);
    SegmentShape(o[i].0, o[i].1);
    var seg := OptionSegment(o[i].0, o[i].1).value;
    NameStartsSegment(seg, OptionName(o[i].0));
    ContainsAfterPrefix(OptionString(o).value, OptionString(o[..i]).value, seg, " " + OptionName(o[i].0));
  }

  lemma NameStartsSegment(seg: string, n: string)
    requires |seg| >= 1 && seg[0] == ' ' && StartsWith(seg[1..], n)
    ensures StartsWith(seg, " " + n)
  {
    assert seg == [seg[0]] + seg[1..];
  }

  /** A string that starts with `before + seg` contains whatever `seg` starts with. */
  lemma ContainsAfterPrefix(whole: string, before: string, seg: string, t: string)
    requires StartsWith(whole, before + seg) && StartsWith(seg, t)
    ensures Contains(whole, t)
  {
    assert whole[|before|..][..|t|] == (before + seg)[|before|..][..|t|];
    ContainsAt(whole, t, |before|);
  }

  /** Writing the dashes into the key changes nothing. */
  lemma OptionNameOfDashed(key: string)
    ensures OptionName("--" + key) == OptionName(key)
    ensures OptionName("-" + key) == OptionName(key)
  {
    assert "--"[0] == '-' && "--"[1] == '-';
    TrimLeftDropsPrefix("--", key, {'-'});
    TrimLeftDropsPrefix("-", key, {'-'});
  }

  // ---------------------------------------------------------------------------------
  // requirePackage

  /** `'pkg'`, followed by `:'ver'` when the version is not empty. */
  function RequireToken(package: string, version: string): string {
    "'" + package + "'" + (if !IsEmpty(version) then ":'" + version + "'" else "")
  }

  /** The command requirePackage runs. */
  function RequireCommand(package: string, version: string): string {
    "--prefer-dist  require " + RequireToken(package, version) + " 2>&1"
  }

  /** Reads a token back: the quoted package, then an optional `:`-joined quoted version. */
  function ReadRequireToken(t: string): Option<(string, string)> {
    if |t| < 2 || t[0] != '\'' then None
    else
      var close := StrPos(t[1..], "'");
      if close.None? then None
      else
        var package := t[1..][..close.value];
        var rest := t[1..][close.value + 1..];
        if rest == "" then Some((package, ""))
        else if |rest| >= 3 && rest[..2] == ":'" && rest[|rest| - 1] == '\'' then Some((package, rest[2..|rest| - 1]))
        else None
  }

  /** A package name without a quote is read back with its version; an empty version ("" or "0") is dropped. */
  lemma {:induction false} RequireTokenRoundTrip(package: string, version: string)
    requires Lacks(package, '\'')
    ensures ReadRequireToken(RequireToken(package, version)) == Some((package, if IsEmpty(version) then "" else version))
  {
    var tail := if !IsEmpty(version) then ":'" + (version + "'") else "";
    var body := package + ("'" + tail);
    var t := RequireToken(package, version);
    assert t == "'" + body;
    assert t[1..] == body;
    ReadQuoted(package, tail);
    ReadTokenOf(t, package, tail);
    if !IsEmpty(version) {
      assert tail[2..|tail| - 1] == version;
    }
  }

  lemma ReadTokenOf(t: string, package: string, tail: string)
    requires |t| >= 2 && t[0] == '\''
    requires StrPos(t[1..], "'") == Some(|package|) && t[1..][..|package|] == package && t[1..][|package| + 1..] == tail
    ensures ReadRequireToken(t) ==
              if tail == "" then Some((package, ""))
              else if |tail| >= 3 && tail[..2] == ":'" && tail[|tail| - 1] == '\'' then Some((package, tail[2..|tail| - 1]))
              else None
  {
  }

  /** Reading `'package'tail` finds the package up to its closing quote and leaves the tail. */
  lemma ReadQuoted(package: string, tail: string)
    requires Lacks(package, '\'')
    ensures var body := package + ("'" + tail);
            StrPos(body, "'") == Some(|package|) && body[..|package|] == package && body[|package| + 1..] == tail
  {
    var body := package + ("'" + tail);
    assert body[|package|..][..1] == "'";
    StrPosAt(body, "'", |package|);
    assert body[..|package|] == package;
    assert body[|package| + 1..] == tail;
  }

  /** The command quotes the token between the fixed words. */
  lemma RequireCommandShape(package: string, version: string)
    ensures StartsWith(RequireCommand(package, version), "--prefer-dist  require '" + package + "'")
    ensures IsEmpty(version) ==> RequireCommand(package, version) == "--prefer-dist  require '" + package + "' 2>&1"
  {
    var c := RequireCommand(package, version);
    var p := "--prefer-dist  require '" + package + "'";
    assert c == p + (if !IsEmpty(version) then ":'" + version + "'" else "") + " 2>&1";
    assert c[..|p|] == p;
  }

  // ---------------------------------------------------------------------------------
  // The line loops of outdated, show and search

  /** One `outdated` line: its first word, unless empty, "0", a backspace, `<warning>You` or `Reading`. */
  function OutdatedEntry(line: string): Option<string> {
    ListedName(line, ["<warning>You", "Reading"])
  }

  method Outdated(lines: seq<string>) returns (packages: seq<string>)
    ensures packages == Collect(lines, OutdatedEntry)
  {
    packages := CollectEach(lines, OutdatedEntry);
  }

  /** updatesAvailable: whether outdated lists a package. */
  method UpdatesAvailable(lines: seq<string>) returns (available: bool)
    ensures available <==> exists i :: 0 <= i < |lines| && OutdatedEntry(lines[i]).Some?
  {
    var packages := Outdated(lines);
    available := |packages| > 0;
    HasEntryIff(lines);
  }

  lemma {:induction false} HasEntryIff(lines: seq<string>)
    ensures |Collect(lines, OutdatedEntry)| > 0 <==> exists i :: 0 <= i < |lines| && OutdatedEntry(lines[i]).Some?
  {
    if |Collect(lines, OutdatedEntry)| > 0 {
      CollectMembers(lines, OutdatedEntry, Collect(lines, OutdatedEntry)[0]);
    }
    if exists i :: 0 <= i < |lines| && OutdatedEntry(lines[i]).Some? {
      var i :| 0 <= i < |lines| && OutdatedEntry(lines[i]).Some?;
      CollectMembers(lines, OutdatedEntry, OutdatedEntry(lines[i]).value);
    }
  }

  /** A package row is listed and a following progress line is skipped. */
  lemma {:induction false} OutdatedOfRowAndReading(word: string, rest: string, more: string)
    requires Lacks(word, ' ') && !IsEmpty(word) && word[0] != Backspace && word != "<warning>You" && word != "Reading"
    ensures Collect([word + (" " + rest), "Reading" + (" " + more)], OutdatedEntry) == [word]
  {
    var ignore := ["<warning>You", "Reading"];
    assert word !in ignore;
    ListedNameOfRow(word, rest, ignore);
    assert "Reading" in ignore;
    ListedNameSkips(more, "Reading", ignore);
    CollectTwo(word + (" " + rest), "Reading" + (" " + more), OutdatedEntry);
  }

  /** A line that starts with the warning word is skipped. */
  lemma OutdatedSkipsWarning(more: string)
    ensures OutdatedEntry("<warning>You" + (" " + more)) == None
  {
    var ignore := ["<warning>You", "Reading"];
    assert "<warning>You" in ignore;
    ListedNameSkips(more, "<warning>You", ignore);
  }

  /** show uses the same first-word filter as the in-process transport. */
  method Show(lines: seq<string>) returns (packages: seq<string>)
    ensures packages == Collect(lines, Web.ShowEntry)
  {
    packages := CollectEach(lines, Web.ShowEntry);
  }

  /** One `search` line: the text before the first space maps to the text after it; a line without a space gives nothing. */
  function SearchEntry(line: string): (r: Option<(string, string)>)
    ensures r.Some? <==> Contains(line, " ")
    ensures r.Some? ==> line == r.value.0 + " " + r.value.1 && Lacks(r.value.0, ' ')
  {
    var split := ExplodeTwo(line, " ");
    LacksBeforeFirst(line, ' ');
    if |split| == 2 then
      assert line == split[0] + " " + split[1] by {
        var k := StrPos(line, " ").value;
        assert line[..k] + " " + line[k + 1..] == line;
      }
      Some((split[0], split[1]))
    else None
  }

  method Search(lines: seq<string>) returns (packages: map<string, string>)
    ensures packages == Assoc(lines, SearchEntry)
  {
    packages := AssocEach(lines, SearchEntry);
  }

  /** A name is in the result exactly when a line starts with it and a space, and the last such line gives its description. */
  lemma {:induction false} SearchLastWins(lines: seq<string>, name: string)
    ensures name in Assoc(lines, SearchEntry) <==> exists i :: 0 <= i < |lines| && SearchEntry(lines[i]).Some? && SearchEntry(lines[i]).value.0 == name
    ensures name in Assoc(lines, SearchEntry) ==>
              exists i :: 0 <= i < |lines| && lines[i] == name + " " + Assoc(lines, SearchEntry)[name] &&
                forall j :: i < j < |lines| ==> SearchEntry(lines[j]).None? || SearchEntry(lines[j]).value.0 != name
  {
    AssocKeys(lines, SearchEntry, name);
    if name in Assoc(lines, SearchEntry) {
      AssocLastWins(lines, SearchEntry, name);
    }
  }
}
