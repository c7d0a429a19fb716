/**
 * Parsing of one line of `composer show`-style output into a package name and a
 * version: the first column is the name, the second the version without a leading `v`.
 */
module Parser {
  import opened Wrappers
  import opened Php

  datatype PackageRecord = PackageRecord(package: string, version: string)

  /** Lines Composer prints while it works, which carry no package. */
  predicate IsChatter(line: string) {
    Contains(line, "<warning>You") || StartsWith(line, "Reading") || StartsWith(line, "Failed") || StartsWith(line, "Importing")
  }

  /** Backspaces removed, surrounding white space trimmed. */
  function Clean(s: string): string {
    Trim(Replace(s, [Backspace], ""), TrimDefault)
  }

  /** The two columns of a cleaned line, as the source cuts them. */
  function Fields(line: string): PackageRecord {
    var spacePos := StrPos(line, " ");
    var versionTemp := Trim(SubstrFrom(line, OrZero(spacePos)), TrimDefault);
    var spaceNext := StrPos(versionTemp, " ");
    var package := Trim(Substr(line, 0, OrZero(spacePos)), TrimDefault);
    var version := Trim(Substr(versionTemp, 0, OrZero(spaceNext)), TrimDefault);
    PackageRecord(package, TrimLeft(version, {'v'}))
  }

  /** parsePackageLineToArray: None stands for the empty array the source returns. */
  function ParsePackageLine(s: string): (r: Option<PackageRecord>)
    ensures IsEmpty(s) ==> r.None?
    ensures !IsEmpty(s) ==> (r.None? <==> IsChatter(Clean(s)))
    ensures r.Some? ==> Lacks(r.value.package, ' ') && Lacks(r.value.version, ' ')
    ensures r.Some? ==> r.value.version == [] || r.value.version[0] != 'v'
  {
    if IsEmpty(s) then None
    else
      var line := Clean(s);
      if IsChatter(line) then None
      else
        FieldsHaveNoSpace(line);
        Some(Fields(line))
  }

  /** The columns the source cuts never hold a space. */
  lemma FieldsHaveNoSpace(line: string)
    ensures Lacks(Fields(line).package, ' ') && Lacks(Fields(line).version, ' ')
  {
    var spacePos := StrPos(line, " ");
    var versionTemp := Trim(SubstrFrom(line, OrZero(spacePos)), TrimDefault);
    LacksBeforeFirst(line, ' ');
    LacksTrim(Substr(line, 0, OrZero(spacePos)), TrimDefault, ' ');
    LacksBeforeFirst(versionTemp, ' ');
    var version := Trim(Substr(versionTemp, 0, OrZero(StrPos(versionTemp, " "))), TrimDefault);
    LacksTrim(Substr(versionTemp, 0, OrZero(StrPos(versionTemp, " "))), TrimDefault, ' ');
    LacksTrim(version, {'v'}, ' ');
  }

  /** A column as Composer prints it: no white space, no backspace, no markup. */
  predicate PlainToken(t: string) {
    |t| > 0 && forall i :: 0 <= i < |t| ==> t[i] !in TrimDefault && t[i] != Backspace && t[i] != '<'
  }

  /** The padding between two columns. */
  predicate Gap(g: string) {
    |g| > 0 && forall i :: 0 <= i < |g| ==> g[i] == ' '
  }

  /** Trailing columns: any text without backspace or markup that does not end in white space. */
  predicate TrailingText(t: string) {
    |t| > 0 && t[|t| - 1] !in TrimDefault && forall i :: 0 <= i < |t| ==> t[i] != Backspace && t[i] != '<'
  }

  /** A name that does not begin like one of the chatter lines. */
  predicate NotChatterHead(n: string) {
    !StartsWith(n, "Reading") && !StartsWith(n, "Failed") && !StartsWith(n, "Importing")
  }

  lemma CleanKeeps(s: string)
    requires Lacks(s, Backspace) && (s == [] || (s[0] !in TrimDefault && s[|s| - 1] !in TrimDefault))
    ensures Clean(s) == s
  {
    NotContainsFirstChar(s, [Backspace]);
    ReplaceAbsent(s, [Backspace], "");
    TrimKeeps(s, TrimDefault);
  }

  /** A line that starts with a plain name followed by a space is not chatter. */
  lemma NotChatter(n: string, sfx: string)
    requires NotChatterHead(n) && |sfx| > 0 && sfx[0] == ' ' && Lacks(n + sfx, '<')
    ensures !IsChatter(n + sfx)
  {
    NotStartsWithExtended(n, sfx, "Reading");
    NotStartsWithExtended(n, sfx, "Failed");
    NotStartsWithExtended(n, sfx, "Importing");
    NotContainsFirstChar(n + sfx, "<warning>You");
  }

  /** Trimming text that begins with padding and ends in a non-blank character leaves the text after the padding. */
  lemma TrimAfterGap(gap: string, y: string)
    requires Gap(gap) && |y| > 0 && y[0] !in TrimDefault && y[|y| - 1] !in TrimDefault
    ensures Trim(gap + y, TrimDefault) == y
  {
    TrimLeftSkips(gap, y, TrimDefault);
    TrimLeftSkips([], y, TrimDefault);
    assert [] + y == y;
    TrimKeeps(y, TrimDefault);
  }

  /** Before the first space: the prefix n, when n holds no space and a space follows it. */
  lemma FirstSpace(n: string, sfx: string)
    requires Lacks(n, ' ') && |sfx| > 0 && sfx[0] == ' '
    ensures StrPos(n + sfx, " ") == Some(|n|)
    ensures SubstrFrom(n + sfx, |n|) == sfx && Substr(n + sfx, 0, |n|) == n
  {
    assert (n + sfx)[|n|..] == sfx;
    assert sfx[..1] == " ";
    StrPosAt(n + sfx, " ", |n|);
    assert (n + sfx)[..|n|] == n;
  }

  /** A line of name, padding, version and further columns yields the name and the version without its `v`. */
  lemma {:induction false} FieldsOfRow(n: string, gap: string, v: string, rest: string)
    requires PlainToken(n) && Gap(gap) && PlainToken(v) && TrailingText(rest)
    ensures Fields(n + (gap + (v + (" " + rest)))) == PackageRecord(n, TrimLeft(v, {'v'}))
  {
    var after := " " + rest;
    var tail := v + after;
    var line := n + (gap + tail);
    FirstSpace(n, gap + tail);
    TrimAfterGap(gap, tail);
    FirstSpace(v, after);
    TrimKeeps(n, TrimDefault);
    TrimKeeps(v, TrimDefault);
    FieldsAt(line, |n|, |v|);
  }

  /** The parse of a line that is already clean and not chatter. */
  lemma ParseClean(line: string)
    requires !IsEmpty(line) && Clean(line) == line && !IsChatter(line)
    ensures ParsePackageLine(line) == Some(Fields(line))
    ensures ParsePackageLineIntended(line) == Some(FieldsIntended(line))
  {
  }

  /** Both readings of a line whose version column is followed by a space agree. */
  lemma FieldsIntendedAt(line: string, k: nat, m: nat)
    requires StrPos(line, " ") == Some(k)
    requires StrPos(Trim(SubstrFrom(line, k), TrimDefault), " ") == Some(m)
    ensures FieldsIntended(line) == Fields(line)
  {
  }

  /** Both readings of a line with no space after the version column. */
  lemma FieldsAtLast(line: string, k: nat)
    requires StrPos(line, " ") == Some(k)
    requires StrPos(Trim(SubstrFrom(line, k), TrimDefault), " ") == None
    ensures Fields(line) == PackageRecord(Trim(Substr(line, 0, k), TrimDefault), "")
    ensures FieldsIntended(line) == PackageRecord(Trim(Substr(line, 0, k), TrimDefault),
                                                  TrimLeft(Trim(Trim(SubstrFrom(line, k), TrimDefault), TrimDefault), {'v'}))
  {
    assert Substr(Trim(SubstrFrom(line, k), TrimDefault), 0, 0) == [];
  }

  /** Fields once both space positions are known. */
  lemma FieldsAt(line: string, k: nat, m: nat)
    requires StrPos(line, " ") == Some(k)
    requires StrPos(Trim(SubstrFrom(line, k), TrimDefault), " ") == Some(m)
    ensures Fields(line) == PackageRecord(Trim(Substr(line, 0, k), TrimDefault),
                                          TrimLeft(Trim(Substr(Trim(SubstrFrom(line, k), TrimDefault), 0, m), TrimDefault), {'v'}))
  {
  }

  /** The whole parse of a well-formed row: the round trip from columns to record. */
  lemma {:induction false} ParseRow(n: string, gap: string, v: string, rest: string)
    requires PlainToken(n) && Gap(gap) && PlainToken(v) && TrailingText(rest) && NotChatterHead(n)
    ensures ParsePackageLine(n + (gap + (v + (" " + rest)))) == Some(PackageRecord(n, TrimLeft(v, {'v'})))
  {
    RowLine(n, gap, v, rest);
    FieldsOfRow(n, gap, v, rest);
    ParseClean(n + (gap + (v + (" " + rest))));
  }

  /** A well-formed row is its own cleaned form and not chatter. */
  lemma RowLine(n: string, gap: string, v: string, rest: string)
    requires PlainToken(n) && Gap(gap) && PlainToken(v) && TrailingText(rest) && NotChatterHead(n)
    ensures var line := n + (gap + (v + (" " + rest)));
            Clean(line) == line && !IsChatter(line) && !IsEmpty(line)
  {
    var line := n + (gap + (v + (" " + rest)));
    assert line[0] == n[0] && line[|line| - 1] == rest[|rest| - 1];
    assert Lacks(line, Backspace) && Lacks(line, '<') by {
      forall i | 0 <= i < |line|
        ensures line[i] != Backspace && line[i] != '<'
      {
        if i < |n| {
          assert line[i] == n[i];
        } else if i < |n| + |gap| {
          assert line[i] == gap[i - |n|];
        } else if i < |n| + |gap| + |v| {
          assert line[i] == v[i - |n| - |gap|];
        } else if i > |n| + |gap| + |v| {
          assert line[i] == rest[i - |n| - |gap| - |v| - 1];
        }
      }
    }
    CleanKeeps(line);
    NotChatter(n, gap + (v + (" " + rest)));
  }

  /** A line holding a single word yields an empty name and an empty version, not the empty result. */
  lemma {:induction false} ParseSingleWord(w: string)
    requires PlainToken(w) && NotChatterHead(w) && !IsEmpty(w)
    ensures ParsePackageLine(w) == Some(PackageRecord("", ""))
  {
    assert Lacks(w, Backspace);
    CleanKeeps(w);
    NotContainsFirstChar(w, "<warning>You");
    NotContainsFirstChar(w, " ");
    assert Substr(w, 0, 0) == [];
    TrimKeeps(w, TrimDefault);
  }

  /** The chatter lines of the given prefixes yield the empty result. */
  lemma {:induction false} ParseChatter(p: string, rest: string)
    requires p == "Reading" || p == "Failed" || p == "Importing"
    requires TrailingText(rest)
    ensures ParsePackageLine(p + rest) == None
  {
    var line := p + rest;
    assert line[0] == p[0] && line[|line| - 1] == rest[|rest| - 1];
    assert Lacks(line, Backspace) by {
      forall i | 0 <= i < |line|
        ensures line[i] != Backspace
      {
        if i >= |p| {
          assert line[i] == rest[i - |p|];
        }
      }
    }
    CleanKeeps(line);
    assert line[..|p|] == p;
  }

  /** Composer's own warning lines yield the empty result wherever the marker stands. */
  lemma {:induction false} ParseWarning(before: string, after: string)
    requires before == [] || before[0] !in TrimDefault
    requires TrailingText(after) && Lacks(before, Backspace)
    ensures ParsePackageLine(before + ("<warning>You" + after)) == None
  {
    var m := "<warning>You";
    assert m[0] == '<' && Lacks(m, Backspace);
    MarkedLine(before, m, after);
    ChatterSkipped(before + (m + after));
  }

  /** A line with a marker somewhere in it, as far as cleaning and searching are concerned. */
  lemma MarkedLine(before: string, m: string, after: string)
    requires |m| > 0 && m[0] !in TrimDefault && Lacks(m, Backspace)
    requires before == [] || before[0] !in TrimDefault
    requires TrailingText(after) && Lacks(before, Backspace)
    ensures var line := before + (m + after);
            |line| > 1 && line[0] !in TrimDefault && line[|line| - 1] !in TrimDefault && Lacks(line, Backspace) && Contains(line, m)
  {
    var marked := m + after;
    var line := before + marked;
    LacksConcat(m, after, Backspace);
    LacksConcat(before, marked, Backspace);
    assert marked[0] == m[0] && marked[|marked| - 1] == after[|after| - 1];
    assert line[0] == (if before == [] then m[0] else before[0]) && line[|line| - 1] == marked[|marked| - 1];
    assert line[|before|..] == marked;
    assert marked[..|m|] == m;
    ContainsAt(line, m, |before|);
  }

  /** A chatter line that cleaning leaves alone yields the empty result. */
  lemma ChatterSkipped(line: string)
    requires |line| > 1 && line[0] !in TrimDefault && line[|line| - 1] !in TrimDefault && Lacks(line, Backspace)
    requires IsChatter(line)
    ensures ParsePackageLine(line) == None
  {
    CleanKeeps(line);
  }

  /** The columns as evidently intended: with no second space the version runs to the end of the line. */
  function FieldsIntended(line: string): PackageRecord {
    var spacePos := StrPos(line, " ");
    var versionTemp := Trim(SubstrFrom(line, OrZero(spacePos)), TrimDefault);
    var spaceNext := StrPos(versionTemp, " ");
    var package := Trim(Substr(line, 0, OrZero(spacePos)), TrimDefault);
    var version := Trim(if spaceNext.None? then versionTemp else Substr(versionTemp, 0, spaceNext.value), TrimDefault);
    PackageRecord(package, TrimLeft(version, {'v'}))
  }

  /** parsePackageLineToArray with the evidently intended version column. */
  function ParsePackageLineIntended(s: string): (r: Option<PackageRecord>)
    ensures IsEmpty(s) ==> r.None?
    ensures !IsEmpty(s) ==> (r.None? <==> IsChatter(Clean(s)))
  {
    if IsEmpty(s) then None
    else
      var line := Clean(s);
      if IsChatter(line) then None else Some(FieldsIntended(line))
  }

  /** As written: a row of exactly two columns loses its version, because substr is given a length of false. */
  lemma {:induction false} ParseTwoColumnsDropsVersion(n: string, gap: string, v: string)
    requires PlainToken(n) && Gap(gap) && PlainToken(v) && NotChatterHead(n)
    ensures ParsePackageLine(n + (gap + v)) == Some(PackageRecord(n, ""))
  {
    TwoColumns(n, gap, v);
  }

  /** Corrected: the same row keeps its version, and with further columns both readings agree. */
  lemma {:induction false} ParseIntendedRow(n: string, gap: string, v: string, rest: string)
    requires PlainToken(n) && Gap(gap) && PlainToken(v) && NotChatterHead(n) && TrailingText(rest)
    ensures ParsePackageLineIntended(n + (gap + v)) == Some(PackageRecord(n, TrimLeft(v, {'v'})))
    ensures ParsePackageLineIntended(n + (gap + (v + (" " + rest)))) == Some(PackageRecord(n, TrimLeft(v, {'v'})))
  {
    TwoColumns(n, gap, v);
    var after := " " + rest;
    var tail := v + after;
    var line := n + (gap + tail);
    RowLine(n, gap, v, rest);
    FirstSpace(n, gap + tail);
    TrimAfterGap(gap, tail);
    FirstSpace(v, after);
    FieldsIntendedAt(line, |n|, |v|);
    FieldsOfRow(n, gap, v, rest);
    ParseClean(line);
  }

  /** Both readings of a two-column row. */
  lemma TwoColumns(n: string, gap: string, v: string)
    requires PlainToken(n) && Gap(gap) && PlainToken(v) && NotChatterHead(n)
    ensures ParsePackageLine(n + (gap + v)) == Some(PackageRecord(n, ""))
    ensures ParsePackageLineIntended(n + (gap + v)) == Some(PackageRecord(n, TrimLeft(v, {'v'})))
  {
    var line := n + (gap + v);
    TwoColumnLine(n, gap, v);
    FirstSpace(n, gap + v);
    TrimAfterGap(gap, v);
    NotContainsFirstChar(v, " ");
    TrimKeeps(n, TrimDefault);
    TrimKeeps(v, TrimDefault);
    FieldsAtLast(line, |n|);
    ParseClean(line);
  }

  /** The two-column line is its own cleaned form and not chatter. */
  lemma TwoColumnLine(n: string, gap: string, v: string)
    requires PlainToken(n) && Gap(gap) && PlainToken(v) && NotChatterHead(n)
    ensures Clean(n + (gap + v)) == n + (gap + v) && !IsChatter(n + (gap + v)) && !IsEmpty(n + (gap + v))
  {
    var line := n + (gap + v);
    assert line[0] == n[0] && line[|line| - 1] == v[|v| - 1];
    assert Lacks(line, Backspace) && Lacks(line, '<') by {
      forall i | 0 <= i < |line|
        ensures line[i] != Backspace && line[i] != '<'
      {
        if i < |n| {
          assert line[i] == n[i];
        } else if i < |n| + |gap| {
          assert line[i] == gap[i - |n|];
        } else {
          assert line[i] == v[i - |n| - |gap|];
        }
      }
    }
    CleanKeeps(line);
    NotChatter(n, gap + v);
  }
}
