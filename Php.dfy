/**
 * The PHP string built-ins the package-manager facade relies on, modelled over
 * strings as sequences of characters.  Every delimiter the source searches for
 * is ASCII, so character offsets and PHP's byte offsets pick out the same pieces
 * of a valid UTF-8 string.
 */
module Php {
  import opened Wrappers

  /** chr(8): the backspace the package manager writes to redraw progress output. */
  const Backspace: char := 8 as char

  /** The characters trim() strips when it is given no character list: " \t\n\r\0\x0B". */
  const TrimDefault: set<char> := {' ', '\t', '\n', '\r', 0 as char, 11 as char}

  /** str_starts_with($s, $p) */
  predicate StartsWith(s: string, p: string) {
    |p| <= |s| && s[..|p|] == p
  }

  /** str_contains($s, $t); an empty needle is contained in every string. */
  predicate Contains(s: string, t: string) {
    exists k :: 0 <= k <= |s| && StartsWith(s[k..], t)
  }

  /** strpos($h, $n): the offset of the first occurrence, None where PHP returns false. */
  function StrPos(h: string, n: string): (r: Option<nat>)
    ensures r.Some? ==> r.value + |n| <= |h| && StartsWith(h[r.value..], n)
    ensures r.Some? ==> forall j :: 0 <= j < r.value ==> !StartsWith(h[j..], n)
    ensures r.None? <==> !Contains(h, n)
  {
    StrPosFrom(h, n, 0)
  }

  /** The first occurrence of `n` in `h` at offset `k` or later. */
  function StrPosFrom(h: string, n: string, k: nat): (r: Option<nat>)
    requires k <= |h|
    ensures r.Some? ==> k <= r.value && r.value + |n| <= |h| && StartsWith(h[r.value..], n)
    ensures r.Some? ==> forall j :: k <= j < r.value ==> !StartsWith(h[j..], n)
    ensures r.None? ==> forall j :: k <= j <= |h| ==> !StartsWith(h[j..], n)
    decreases |h| - k
  {
    if StartsWith(h[k..], n) then Some(k)
    else if k == |h| then None
    else StrPosFrom(h, n, k + 1)
  }

  /** PHP turns a `false` offset or length into 0. */
  function OrZero(pos: Option<nat>): nat {
    if pos.Some? then pos.value else 0
  }

  /** substr($s, $start) for a non-negative start; "" once the start is past the end. */
  function SubstrFrom(s: string, start: nat): string {
    if start <= |s| then s[start..] else ""
  }

  /** substr($s, $start, $len) for a non-negative start and length. */
  function Substr(s: string, start: nat, len: nat): string {
    if start >= |s| then ""
    else if start + len <= |s| then s[start..start + len]
    else s[start..]
  }

  /** ltrim($s, $cs) */
  function TrimLeft(s: string, cs: set<char>): (r: string)
    ensures |r| <= |s| && r == s[|s| - |r|..]
    ensures r == [] || r[0] !in cs
    ensures forall i :: 0 <= i < |s| - |r| ==> s[i] in cs
  {
    if |s| > 0 && s[0] in cs then TrimLeft(s[1..], cs) else s
  }

  /** rtrim($s, $cs) */
  function TrimRight(s: string, cs: set<char>): (r: string)
    ensures |r| <= |s| && r == s[..|r|]
    ensures r == [] || r[|r| - 1] !in cs
    ensures forall i :: |r| <= i < |s| ==> s[i] in cs
  {
    if |s| > 0 && s[|s| - 1] in cs then TrimRight(s[..|s| - 1], cs) else s
  }

  /** trim($s, $cs) */
  function Trim(s: string, cs: set<char>): string {
    TrimRight(TrimLeft(s, cs), cs)
  }

  /** str_replace($t, $r, $s) for a non-empty search string: every occurrence, scanned left to right, none overlapping. */
  function Replace(s: string, t: string, r: string): string
    requires |t| > 0
    decreases |s|
  {
    if |s| < |t| then s
    else if StartsWith(s, t) then r + Replace(s[|t|..], t, r)
    else [s[0]] + Replace(s[1..], t, r)
  }

  /** explode($sep, $s) for a non-empty separator. */
  function Explode(s: string, sep: string): (parts: seq<string>)
    requires |sep| > 0
    ensures |parts| >= 1
    decreases |s|
  {
    match StrPos(s, sep)
    case None => [s]
    case Some(k) => [s[..k]] + Explode(s[k + |sep|..], sep)
  }

  /** explode($sep, $s, 2): the text before the first separator and everything after it. */
  function ExplodeTwo(s: string, sep: string): (parts: seq<string>)
    requires |sep| > 0
  {
    match StrPos(s, sep)
    case None => [s]
    case Some(k) => [s[..k], s[k + |sep|..]]
  }

  /** `$parts[$i]` used as a string: a missing entry reads as null, which string functions treat as "". */
  function At(parts: seq<string>, i: nat): string {
    if i < |parts| then parts[i] else ""
  }

  /** empty($s) on a string: true exactly for "" and "0". */
  predicate IsEmpty(s: string) {
    s == "" || s == "0"
  }

  /** preg_replace('~ +~', ' ', $s), which is also what preg_replace('#([ ]){2,}#', '$1', $s) computes: every run of spaces becomes one space. */
  function SqueezeSpaces(s: string): (r: string)
    ensures |r| <= |s|
    ensures |s| > 0 ==> |r| > 0 && r[0] == s[0]
    ensures forall i :: 0 <= i < |r| - 1 ==> !(r[i] == ' ' && r[i + 1] == ' ')
  {
    if |s| <= 1 then s
    else if s[0] == ' ' && s[1] == ' ' then SqueezeSpaces(s[1..])
    else [s[0]] + SqueezeSpaces(s[1..])
  }

  /** ucfirst($s): an ASCII lower-case first letter becomes upper case. */
  function UcFirst(s: string): string {
    if |s| > 0 && 'a' <= s[0] <= 'z' then [(s[0] as int - 32) as char] + s[1..] else s
  }

  /** implode($sep, $parts) */
  function Join(parts: seq<string>, sep: string): string
    decreases |parts|
  {
    if |parts| == 0 then ""
    else if |parts| == 1 then parts[0]
    else parts[0] + sep + Join(parts[1..], sep)
  }

  // ---------------------------------------------------------------------------------
  // Facts about the built-ins, stated over characters so that callers can discharge them
  // on concrete lines.

  lemma NotStartsWithAt(s: string, p: string, i: nat)
    requires i < |p| && i < |s| && s[i] != p[i]
    ensures !StartsWith(s, p)
  {
    if |p| <= |s| {
      assert s[..|p|][i] == s[i];
    }
  }

  /** A needle whose first character never occurs is not contained. */
  lemma NotContainsFirstChar(s: string, t: string)
    requires |t| > 0 && forall i :: 0 <= i < |s| ==> s[i] != t[0]
    ensures !Contains(s, t)
  {
    forall k | 0 <= k <= |s|
      ensures !StartsWith(s[k..], t)
    {
      if k < |s| {
        NotStartsWithAt(s[k..], t, 0);
      }
    }
  }

  /** A needle whose first two characters never occur side by side is not contained. */
  lemma NotContainsPair(s: string, t: string)
    requires |t| >= 2 && forall j :: 0 <= j < |s| - 1 ==> !(s[j] == t[0] && s[j + 1] == t[1])
    ensures !Contains(s, t)
  {
    forall k | 0 <= k <= |s|
      ensures !StartsWith(s[k..], t)
    {
      if k + 1 < |s| {
        if s[k] != t[0] {
          NotStartsWithAt(s[k..], t, 0);
        } else {
          NotStartsWithAt(s[k..], t, 1);
        }
      }
    }
  }

  lemma StartsWithChar(s: string, t: string, k: nat, i: nat)
    requires k <= |s| && StartsWith(s[k..], t) && i < |t|
    ensures k + i < |s| && s[k + i] == t[i]
  {
    assert s[k..][..|t|][i] == s[k + i];
  }

  lemma ContainsAt(s: string, t: string, k: nat)
    requires k <= |s| && StartsWith(s[k..], t)
    ensures Contains(s, t)
  {
  }

  /** Whatever contains a needle contains every prefix of it. */
  lemma ContainsNeedlePrefix(s: string, t: string, u: string)
    requires Contains(s, t + u)
    ensures Contains(s, t)
  {
    var k :| 0 <= k <= |s| && StartsWith(s[k..], t + u);
    assert s[k..][..|t|] == (t + u)[..|t|] == t;
  }

  lemma ContainsLeft(a: string, b: string, t: string)
    requires Contains(a, t)
    ensures Contains(a + b, t)
  {
    var k :| 0 <= k <= |a| && StartsWith(a[k..], t);
    assert (a + b)[k..][..|t|] == a[k..][..|t|];
    ContainsAt(a + b, t, k);
  }

  lemma ContainsRight(a: string, b: string, t: string)
    requires Contains(b, t)
    ensures Contains(a + b, t)
  {
    var k :| 0 <= k <= |b| && StartsWith(b[k..], t);
    assert (a + b)[|a| + k..] == b[k..];
    ContainsAt(a + b, t, |a| + k);
  }

  /** A needle free of the character `c` occurs in `a + [c] + b` exactly when it occurs in `a` or in `b`. */
  lemma ContainsAroundChar(a: string, c: char, b: string, t: string)
    requires |t| > 0 && forall i :: 0 <= i < |t| ==> t[i] != c
    ensures Contains(a + [c] + b, t) <==> Contains(a, t) || Contains(b, t)
  {
    var s := a + [c] + b;
    if Contains(a, t) {
      ContainsLeft(a, [c] + b, t);
      assert a + ([c] + b) == s;
    }
    if Contains(b, t) {
      ContainsRight(a + [c], b, t);
    }
    if Contains(s, t) {
      var k :| 0 <= k <= |s| && StartsWith(s[k..], t);
      if k + |t| <= |a| {
        assert a[k..][..|t|] == s[k..][..|t|];
        ContainsAt(a, t, k);
      } else if k > |a| {
        assert b[k - |a| - 1..][..|t|] == s[k..][..|t|];
        ContainsAt(b, t, k - |a| - 1);
      } else {
        StartsWithChar(s, t, k, |a| - k);
        assert false;
      }
    }
  }

  /** The first occurrence is at k when the needle starts there and its first character occurs nowhere before. */
  lemma StrPosAt(h: string, n: string, k: nat)
    requires |n| > 0 && k <= |h| && StartsWith(h[k..], n)
    requires forall j :: 0 <= j < k ==> h[j] != n[0]
    ensures StrPos(h, n) == Some(k)
  {
    ContainsAt(h, n, k);
    var r := StrPos(h, n).value;
    assert h[r..][..|n|][0] == h[r];
  }

  lemma NotContainsTail(s: string, t: string)
    requires |s| > 0 && !Contains(s, t)
    ensures !Contains(s[1..], t)
  {
    forall k | 0 <= k <= |s| - 1
      ensures !StartsWith(s[1..][k..], t)
    {
      assert s[1..][k..] == s[k + 1..];
    }
  }

  /** str_replace changes nothing when the search string does not occur. */
  lemma {:induction false} ReplaceAbsent(s: string, t: string, r: string)
    requires |t| > 0 && !Contains(s, t)
    ensures Replace(s, t, r) == s
    decreases |s|
  {
    if |s| >= |t| {
      assert s[0..] == s;
      NotContainsTail(s, t);
      ReplaceAbsent(s[1..], t, r);
    }
  }

  /** An occurrence at the very start is replaced and the scan goes on after it. */
  lemma ReplaceLeading(t: string, s: string, r: string)
    requires |t| > 0
    ensures Replace(t + s, t, r) == r + Replace(s, t, r)
  {
    assert (t + s)[..|t|] == t;
    assert (t + s)[|t|..] == s;
  }

  /** A search string that occurs only at the very start is replaced there alone. */
  lemma ReplaceOnlyLeading(t: string, s: string, r: string)
    requires |t| > 0 && !Contains(s, t)
    ensures Replace(t + s, t, r) == r + s
  {
    ReplaceLeading(t, s, r);
    ReplaceAbsent(s, t, r);
  }

  /** str_replace of one character by "" leaves no occurrence of it. */
  lemma {:induction false} ReplaceDropsChar(s: string, c: char)
    ensures Lacks(Replace(s, [c], ""), c)
    decreases |s|
  {
    if |s| >= 1 {
      ReplaceDropsChar(s[1..], c);
      if StartsWith(s, [c]) {
        assert Replace(s, [c], "") == "" + Replace(s[1..], [c], "");
      } else {
        assert s[0] != c by {
          assert s[..1] == [s[0]];
        }
        LacksConcat([s[0]], Replace(s[1..], [c], ""), c);
      }
    }
  }

  /** str_replace introduces a character only through the replacement text. */
  lemma {:induction false} ReplaceKeepsLacks(s: string, t: string, r: string, c: char)
    requires |t| > 0 && Lacks(s, c) && Lacks(r, c)
    ensures Lacks(Replace(s, t, r), c)
    decreases |s|
  {
    if |s| >= |t| {
      if StartsWith(s, t) {
        LacksSlice(s, c, |t|, |s|);
        assert s[|t|..|s|] == s[|t|..];
        ReplaceKeepsLacks(s[|t|..], t, r, c);
        LacksConcat(r, Replace(s[|t|..], t, r), c);
      } else {
        LacksSlice(s, c, 1, |s|);
        assert s[1..|s|] == s[1..] && s[0] != c;
        ReplaceKeepsLacks(s[1..], t, r, c);
        LacksConcat([s[0]], Replace(s[1..], t, r), c);
      }
    }
  }

  /** Dropping a single character that occurs only at the end. */
  lemma {:induction false} ReplaceLastChar(s: string, c: char)
    requires forall i :: 0 <= i < |s| ==> s[i] != c
    ensures Replace(s + [c], [c], "") == s
    decreases |s|
  {
    if |s| == 0 {
      assert [c] + [] == [c];
      ReplaceLeading([c], [], "");
    } else {
      assert (s + [c])[1..] == s[1..] + [c];
      ReplaceLastChar(s[1..], c);
      assert !StartsWith(s + [c], [c]) by { NotStartsWithAt(s + [c], [c], 0); }
      assert s == [s[0]] + s[1..];
    }
  }

  /** Removing a character from a string that starts with a piece free of it keeps that piece in front. */
  lemma {:induction false} ReplaceCharKeepsHead(p: string, s: string, c: char)
    requires forall i :: 0 <= i < |p| ==> p[i] != c
    ensures Replace(p + s, [c], "") == p + Replace(s, [c], "")
    decreases |p|
  {
    if |p| > 0 {
      assert (p + s)[1..] == p[1..] + s;
      NotStartsWithAt(p + s, [c], 0);
      ReplaceCharKeepsHead(p[1..], s, c);
      assert p == [p[0]] + p[1..];
    } else {
      assert p + s == s;
    }
  }

  lemma {:induction false} TrimLeftSkips(p: string, s: string, cs: set<char>)
    requires forall i :: 0 <= i < |p| ==> p[i] in cs
    requires |s| == 0 || s[0] !in cs
    ensures TrimLeft(p + s, cs) == s
    decreases |p|
  {
    if |p| > 0 {
      assert (p + s)[1..] == p[1..] + s;
      TrimLeftSkips(p[1..], s, cs);
    } else {
      assert p + s == s;
    }
  }

  /** trim drops leading padding in front of text whose two ends are kept. */
  lemma TrimAfterPad(pad: string, s: string, cs: set<char>)
    requires forall i :: 0 <= i < |pad| ==> pad[i] in cs
    requires |s| > 0 && s[0] !in cs && s[|s| - 1] !in cs
    ensures Trim(pad + s, cs) == s
  {
    TrimLeftSkips(pad, s, cs);
    TrimKeeps(s, cs);
  }

  /** Replacing the one leading occurrence of `t` by `pad + t` puts `pad` in front. */
  lemma ReplacePadsLeading(t: string, s: string, pad: string)
    requires |t| > 0 && !Contains(s, t)
    ensures Replace(t + s, t, pad + t) == pad + (t + s)
  {
    ReplaceOnlyLeading(t, s, pad + t);
    assert (pad + t) + s == pad + (t + s);
  }

  /** trim removes padding in front of `t + s` and keeps `t + s` itself. */
  lemma TrimPadded(pad: string, t: string, s: string, cs: set<char>)
    requires |t| > 0 && t[0] !in cs && |s| > 0 && s[|s| - 1] !in cs
    requires forall i :: 0 <= i < |pad| ==> pad[i] in cs
    ensures Trim(pad + (t + s), cs) == t + s
  {
    var line := t + s;
    assert line[0] == t[0] && line[|line| - 1] == s[|s| - 1];
    TrimAfterPad(pad, line, cs);
  }

  /** Padding put in front of the one leading occurrence of `t` is trimmed away again. */
  lemma PadBeforeLeading(t: string, s: string, pad: string, cs: set<char>)
    requires |t| > 0 && t[0] !in cs && |s| > 0 && s[|s| - 1] !in cs && !Contains(s, t)
    requires forall i :: 0 <= i < |pad| ==> pad[i] in cs
    ensures Trim(Replace(t + s, t, pad + t), cs) == t + s
  {
    ReplacePadsLeading(t, s, pad);
    TrimPadded(pad, t, s, cs);
  }

  /** ltrim skips a prefix made of trimmed characters. */
  lemma {:induction false} TrimLeftDropsPrefix(p: string, s: string, cs: set<char>)
    requires forall i :: 0 <= i < |p| ==> p[i] in cs
    ensures TrimLeft(p + s, cs) == TrimLeft(s, cs)
    decreases |p|
  {
    if |p| > 0 {
      assert (p + s)[0] == p[0];
      assert (p + s)[1..] == p[1..] + s;
      TrimLeftDropsPrefix(p[1..], s, cs);
    } else {
      assert p + s == s;
    }
  }

  /** The first occurrence of a character that the text before it lacks. */
  lemma FirstOfChar(a: string, c: char, b: string)
    requires forall i :: 0 <= i < |a| ==> a[i] != c
    requires |b| > 0 && b[0] == c
    ensures StrPos(a + b, [c]) == Some(|a|)
    ensures Substr(a + b, 0, |a|) == a
  {
    assert (a + b)[|a|..][..1] == [c];
    assert forall j :: 0 <= j < |a| ==> (a + b)[j] == a[j];
    StrPosAt(a + b, [c], |a|);
    assert (a + b)[..|a|] == a;
  }

  /** A separator whose first character neither side holds splits the text into exactly those two sides. */
  lemma ExplodeAtFirst(a: string, sep: string, b: string)
    requires |sep| > 0 && forall i :: 0 <= i < |a| ==> a[i] != sep[0]
    requires forall i :: 0 <= i < |b| ==> b[i] != sep[0]
    ensures Explode(a + (sep + b), sep) == [a, b]
  {
    var s := a + (sep + b);
    assert s == a + sep + b;
    assert s[|a|..][..|sep|] == sep;
    assert forall j :: 0 <= j < |a| ==> s[j] == a[j];
    StrPosAt(s, sep, |a|);
    ExplodeSplits(a, sep, b);
    NotContainsFirstChar(b, sep);
    ExplodeWhole(b, sep);
  }

  /** trim leaves a string whose two ends are already outside the character list. */
  lemma TrimKeeps(s: string, cs: set<char>)
    requires |s| == 0 || (s[0] !in cs && s[|s| - 1] !in cs)
    ensures Trim(s, cs) == s
  {
  }

  /** The text before the first occurrence of the separator becomes the first piece. */
  lemma ExplodeSplits(a: string, sep: string, b: string)
    requires |sep| > 0 && StrPos(a + sep + b, sep) == Some(|a|)
    ensures Explode(a + sep + b, sep) == [a] + Explode(b, sep)
    ensures ExplodeTwo(a + sep + b, sep) == [a, b]
  {
    var s := a + sep + b;
    assert s[..|a|] == a;
    assert s[|a| + |sep|..] == b;
  }

  lemma ExplodeWhole(s: string, sep: string)
    requires |sep| > 0 && !Contains(s, sep)
    ensures Explode(s, sep) == [s] && ExplodeTwo(s, sep) == [s]
  {
  }

  /** Squeezing spaces leaves the text before the first space alone. */
  lemma {:induction false} SqueezeKeepsHead(p: string, s: string)
    requires forall i :: 0 <= i < |p| ==> p[i] != ' '
    ensures SqueezeSpaces(p + s) == p + SqueezeSpaces(s)
    decreases |p|
  {
    if |p| == 0 {
      assert p + s == s;
    } else if |p + s| == 1 {
      assert s == [] && p + s == p;
    } else {
      assert (p + s)[1..] == p[1..] + s;
      SqueezeKeepsHead(p[1..], s);
      assert p == [p[0]] + p[1..];
    }
  }

  /** A needle free of the separator occurs in the joined lines exactly when it occurs in one of them. */
  lemma {:induction false} JoinContains(parts: seq<string>, c: char, t: string)
    requires |t| > 0 && forall i :: 0 <= i < |t| ==> t[i] != c
    ensures Contains(Join(parts, [c]), t) <==> exists i :: 0 <= i < |parts| && Contains(parts[i], t)
    decreases |parts|
  {
    if |parts| == 0 {
      assert !StartsWith(""[0..], t);
    } else if |parts| > 1 {
      var rest := Join(parts[1..], [c]);
      JoinContains(parts[1..], c, t);
      ContainsAroundChar(parts[0], c, rest, t);
      assert parts[0] + [c] + rest == Join(parts, [c]);
      if exists i :: 0 <= i < |parts| && Contains(parts[i], t) {
        var i :| 0 <= i < |parts| && Contains(parts[i], t);
        if i > 0 {
          assert parts[1..][i - 1] == parts[i];
        }
      }
      if exists i :: 0 <= i < |parts[1..]| && Contains(parts[1..][i], t) {
        var i :| 0 <= i < |parts[1..]| && Contains(parts[1..][i], t);
        assert parts[i + 1] == parts[1..][i];
      }
    }
  }

  /** A two-character needle occurs exactly where its two characters stand side by side. */
  lemma ContainsPairIff(s: string, t: string)
    requires |t| == 2
    ensures Contains(s, t) <==> exists i :: 0 <= i < |s| - 1 && s[i] == t[0] && s[i + 1] == t[1]
  {
    if Contains(s, t) {
      var k :| 0 <= k <= |s| && StartsWith(s[k..], t);
      StartsWithChar(s, t, k, 0);
      StartsWithChar(s, t, k, 1);
    }
    if exists i :: 0 <= i < |s| - 1 && s[i] == t[0] && s[i + 1] == t[1] {
      var i :| 0 <= i < |s| - 1 && s[i] == t[0] && s[i + 1] == t[1];
      assert s[i..][..2] == [s[i], s[i + 1]] == t;
      ContainsAt(s, t, i);
    }
  }

  /** A prefix test still fails once the string is extended by text whose first character the prefix lacks. */
  lemma NotStartsWithExtended(n: string, sfx: string, p: string)
    requires !StartsWith(n, p) && |sfx| > 0 && forall i :: 0 <= i < |p| ==> p[i] != sfx[0]
    ensures !StartsWith(n + sfx, p)
  {
    if |p| <= |n| {
      assert (n + sfx)[..|p|] == n[..|p|];
    } else if |p| <= |n| + |sfx| {
      assert (n + sfx)[|n|] == sfx[0];
      NotStartsWithAt(n + sfx, p, |n|);
    }
  }

  /** No occurrence of the character c in s. */
  predicate Lacks(s: string, c: char) {
    forall i :: 0 <= i < |s| ==> s[i] != c
  }

  lemma LacksConcat(a: string, b: string, c: char)
    requires Lacks(a, c) && Lacks(b, c)
    ensures Lacks(a + b, c)
  {
    forall i | 0 <= i < |a + b| ensures (a + b)[i] != c {
      if i >= |a| { assert (a + b)[i] == b[i - |a|]; }
    }
  }

  lemma LacksSlice(s: string, c: char, i: nat, j: nat)
    requires Lacks(s, c) && i <= j <= |s|
    ensures Lacks(s[i..j], c)
  {
    assert forall k :: 0 <= k < j - i ==> s[i..j][k] == s[i + k];
  }

  /** Trimming keeps only characters that were there. */
  lemma LacksTrim(s: string, cs: set<char>, c: char)
    requires Lacks(s, c)
    ensures Lacks(TrimLeft(s, cs), c) && Lacks(TrimRight(s, cs), c) && Lacks(Trim(s, cs), c)
  {
    LacksSlice(s, c, |s| - |TrimLeft(s, cs)|, |s|);
    LacksSlice(s, c, 0, |TrimRight(s, cs)|);
    var l := TrimLeft(s, cs);
    LacksSlice(l, c, 0, |TrimRight(l, cs)|);
  }

  /** The text before the first occurrence of c, cut with strpos and substr, holds no c. */
  lemma LacksBeforeFirst(s: string, c: char)
    ensures Lacks(Substr(s, 0, OrZero(StrPos(s, [c]))), c)
  {
    var pos := StrPos(s, [c]);
    if pos.Some? {
      var k := pos.value;
      forall i | 0 <= i < k
        ensures s[i] != c
      {
        assert s[i..][..1] == [s[i]];
        assert !StartsWith(s[i..], [c]);
      }
      assert Substr(s, 0, k) == s[..k];
    }
  }

  /** explode(" ", $s, 2) has two parts exactly when $s holds a space; then $s is the first part, a space and the second, and the first part has no space. */
  lemma ExplodeTwoSpace(s: string)
    ensures |ExplodeTwo(s, " ")| == 2 <==> Contains(s, " ")
    ensures |ExplodeTwo(s, " ")| == 2 ==>
              s == ExplodeTwo(s, " ")[0] + " " + ExplodeTwo(s, " ")[1] && Lacks(ExplodeTwo(s, " ")[0], ' ')
  {
    LacksBeforeFirst(s, ' ');
    if StrPos(s, " ").Some? {
      var k := StrPos(s, " ").value;
      assert s[k] == ' ' by {
        assert s[k..][..1] == " ";
      }
      assert s[..k] + " " + s[k + 1..] == s;
    }
  }

  /** Exploding on a space after a word without spaces splits off that word. */
  lemma WordThenSpace(w: string, rest: string)
    requires Lacks(w, ' ')
    ensures Explode(w + (" " + rest), " ") == [w] + Explode(rest, " ")
  {
    FirstOfChar(w, ' ', " " + rest);
    assert w + (" " + rest) == w + " " + rest;
    ExplodeSplits(w, " ", rest);
  }

  /** The first word of a squeezed line is the text before its first space, which may be empty. */
  lemma SqueezedFirstWord(w: string, rest: string)
    requires Lacks(w, ' ')
    ensures Explode(SqueezeSpaces(w + (" " + rest)), " ")[0] == w
  {
    SqueezeKeepsHead(w, " " + rest);
    var tail := SqueezeSpaces(" " + rest);
    assert tail == " " + tail[1..];
    WordThenSpace(w, tail[1..]);
  }

  /** A run of padding squeezes to one space in front of text that does not start with a space. */
  lemma {:induction false} SqueezeGap(gap: string, s: string)
    requires |gap| > 0 && (forall i :: 0 <= i < |gap| ==> gap[i] == ' ') && (s == [] || s[0] != ' ')
    ensures SqueezeSpaces(gap + s) == " " + SqueezeSpaces(s)
    decreases |gap|
  {
    var t := gap + s;
    if |gap| == 1 {
      if s == [] {
        assert t == " ";
      } else {
        assert t[0] == ' ' && t[1] == s[0] && t[1..] == s;
        assert SqueezeSpaces(t) == [t[0]] + SqueezeSpaces(t[1..]);
      }
    } else {
      assert t[0] == ' ' && t[1] == gap[1] && t[1..] == gap[1..] + s;
      assert SqueezeSpaces(t) == SqueezeSpaces(t[1..]);
      SqueezeGap(gap[1..], s);
    }
  }

  /** A replacement that cannot start inside the head leaves the head alone. */
  lemma {:induction false} ReplaceKeepsHead(p: string, s: string, t: string, r: string)
    requires |t| > 0 && forall i :: 0 <= i < |p| ==> !StartsWith((p + s)[i..], t)
    ensures Replace(p + s, t, r) == p + Replace(s, t, r)
    decreases |p|
  {
    var q := p + s;
    if p == [] {
      assert q == s;
    } else {
      var q' := p[1..] + s;
      assert q[1..] == q';
      assert forall i :: 0 <= i < |p[1..]| ==> q'[i..] == q[i + 1..];
      ReplaceKeepsHead(p[1..], s, t, r);
      assert !StartsWith(q[0..], t);
      assert q[0..] == q;
      if |q| >= |t| {
        assert Replace(q, t, r) == [q[0]] + Replace(q', t, r);
      }
      assert p == [p[0]] + p[1..];
    }
  }
}
