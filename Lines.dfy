/**
 * The shapes shared by the loops over a run's captured lines: collecting one
 * value per line into a list, storing key/value pairs into an array where a later
 * line overwrites an earlier one, and finding the first line that satisfies a test.
 * Also the first-word filter that several listing commands share.
 */
module Lines {
  import opened Wrappers
  import opened Php

  /** A foreach that appends f's value for each line that yields one, in line order. */
  function Collect<T>(lines: seq<string>, f: string -> Option<T>): (r: seq<T>)
    ensures |r| <= |lines|
    decreases |lines|
  {
    if lines == [] then []
    else
      var last := lines[|lines| - 1];
      Collect(lines[..|lines| - 1], f) + (if f(last).Some? then [f(last).value] else [])
  }

  lemma CollectAppend<T>(lines: seq<string>, line: string, f: string -> Option<T>)
    ensures Collect(lines + [line], f) == Collect(lines, f) + (if f(line).Some? then [f(line).value] else [])
  {
    assert (lines + [line])[..|lines|] == lines;
  }

  /** Collecting over two lines. */
  lemma CollectTwo<T>(a: string, b: string, f: string -> Option<T>)
    ensures Collect([a, b], f) == (if f(a).Some? then [f(a).value] else []) + (if f(b).Some? then [f(b).value] else [])
  {
    CollectAppend([], a, f);
    CollectAppend([a], b, f);
    assert [] + [a] == [a] && [a] + [b] == [a, b];
  }

  /** Of three lines, the first two yield values and the third yields none. */
  lemma CollectTwoOfThree<T>(a: string, b: string, c: string, f: string -> Option<T>, x: T, y: T)
    requires f(a) == Some(x) && f(b) == Some(y) && f(c) == None
    ensures Collect([a, b, c], f) == [x, y]
  {
    CollectTwo(a, b, f);
    CollectAppend([a, b], c, f);
    assert [a, b] + [c] == [a, b, c];
    assert [x] + [y] + [] == [x, y];
  }

  /** A value is collected exactly when some line yields it. */
  lemma {:induction false} CollectMembers<T>(lines: seq<string>, f: string -> Option<T>, x: T)
    ensures x in Collect(lines, f) <==> exists i :: 0 <= i < |lines| && f(lines[i]) == Some(x)
    decreases |lines|
  {
    if lines != [] {
      var init := lines[..|lines| - 1];
      CollectMembers(init, f, x);
      if exists i :: 0 <= i < |init| && f(init[i]) == Some(x) {
        var i :| 0 <= i < |init| && f(init[i]) == Some(x);
        assert lines[i] == init[i];
      }
      if exists i :: 0 <= i < |lines| && f(lines[i]) == Some(x) {
        var i :| 0 <= i < |lines| && f(lines[i]) == Some(x);
        if i < |init| {
          assert init[i] == lines[i];
        }
      }
    }
  }

  /** When every line yields a value, the collected list is the line-by-line image. */
  lemma {:induction false} CollectTotal<T>(lines: seq<string>, f: string -> Option<T>)
    requires forall i :: 0 <= i < |lines| ==> f(lines[i]).Some?
    ensures |Collect(lines, f)| == |lines|
    ensures forall i :: 0 <= i < |lines| ==> Collect(lines, f)[i] == f(lines[i]).value
    decreases |lines|
  {
    if lines != [] {
      var init := lines[..|lines| - 1];
      assert forall i :: 0 <= i < |init| ==> init[i] == lines[i];
      CollectTotal(init, f);
    }
  }

  /** A foreach that stores f's key/value pair for each line that yields one: a later line overwrites an earlier one. */
  function Assoc<V>(lines: seq<string>, f: string -> Option<(string, V)>): map<string, V>
    decreases |lines|
  {
    if lines == [] then map[]
    else
      var last := lines[|lines| - 1];
      var m := Assoc(lines[..|lines| - 1], f);
      if f(last).Some? then m[f(last).value.0 := f(last).value.1] else m
  }

  lemma AssocAppend<V>(lines: seq<string>, line: string, f: string -> Option<(string, V)>)
    ensures Assoc(lines + [line], f) == if f(line).Some? then Assoc(lines, f)[f(line).value.0 := f(line).value.1] else Assoc(lines, f)
  {
    assert (lines + [line])[..|lines|] == lines;
  }

  /** Storing over two lines, where the first yields nothing. */
  lemma AssocSkipThenStore<V>(a: string, b: string, f: string -> Option<(string, V)>)
    requires f(a).None? && f(b).Some?
    ensures Assoc([a, b], f) == map[f(b).value.0 := f(b).value.1]
  {
    AssocAppend([], a, f);
    AssocAppend([a], b, f);
    assert [] + [a] == [a] && [a] + [b] == [a, b];
  }

  /** A key is stored exactly when some line yields it. */
  lemma {:induction false} AssocKeys<V>(lines: seq<string>, f: string -> Option<(string, V)>, k: string)
    ensures k in Assoc(lines, f) <==> exists i :: 0 <= i < |lines| && f(lines[i]).Some? && f(lines[i]).value.0 == k
    decreases |lines|
  {
    if lines != [] {
      var init := lines[..|lines| - 1];
      AssocKeys(init, f, k);
      if exists i :: 0 <= i < |init| && f(init[i]).Some? && f(init[i]).value.0 == k {
        var i :| 0 <= i < |init| && f(init[i]).Some? && f(init[i]).value.0 == k;
        assert lines[i] == init[i];
      }
      if exists i :: 0 <= i < |lines| && f(lines[i]).Some? && f(lines[i]).value.0 == k {
        var i :| 0 <= i < |lines| && f(lines[i]).Some? && f(lines[i]).value.0 == k;
        if i < |init| {
          assert init[i] == lines[i];
        }
      }
    }
  }

  /** The stored value of a key comes from the last line that yields that key. */
  lemma {:induction false} AssocLastWins<V>(lines: seq<string>, f: string -> Option<(string, V)>, k: string)
    requires k in Assoc(lines, f)
    ensures exists i :: 0 <= i < |lines| && f(lines[i]) == Some((k, Assoc(lines, f)[k])) &&
              forall j :: i < j < |lines| && f(lines[j]).Some? ==> f(lines[j]).value.0 != k
    decreases |lines|
  {
    var init := lines[..|lines| - 1];
    var last := lines[|lines| - 1];
    if f(last).Some? && f(last).value.0 == k {
      assert f(lines[|lines| - 1]) == Some((k, Assoc(lines, f)[k]));
    } else {
      AssocLastWins(init, f, k);
      var i :| 0 <= i < |init| && f(init[i]) == Some((k, Assoc(init, f)[k])) &&
               forall j :: i < j < |init| && f(init[j]).Some? ==> f(init[j]).value.0 != k;
      assert lines[i] == init[i];
      assert forall j :: i < j < |init| ==> lines[j] == init[j];
    }
  }

  /** The index of the first line that passes the test, None when there is none. */
  function FirstIndex(lines: seq<string>, p: string -> bool): (r: Option<nat>)
    ensures r.Some? ==> r.value < |lines| && p(lines[r.value]) && forall j :: 0 <= j < r.value ==> !p(lines[j])
    ensures r.None? <==> forall j :: 0 <= j < |lines| ==> !p(lines[j])
  {
    FirstIndexFrom(lines, p, 0)
  }

  function FirstIndexFrom(lines: seq<string>, p: string -> bool, k: nat): (r: Option<nat>)
    requires k <= |lines|
    ensures r.Some? ==> k <= r.value < |lines| && p(lines[r.value]) && forall j :: k <= j < r.value ==> !p(lines[j])
    ensures r.None? <==> forall j :: k <= j < |lines| ==> !p(lines[j])
    decreases |lines| - k
  {
    if k == |lines| then None
    else if p(lines[k]) then Some(k)
    else FirstIndexFrom(lines, p, k + 1)
  }

  /** The first index is the one where the test first passes. */
  lemma FirstIndexIs(lines: seq<string>, p: string -> bool, k: nat)
    requires k < |lines| && p(lines[k]) && forall j :: 0 <= j < k ==> !p(lines[j])
    ensures FirstIndex(lines, p) == Some(k)
  {
  }

  /** A loop that stops at the first line that passes the test. */
  method FindFirst(lines: seq<string>, p: string -> bool) returns (r: Option<nat>)
    ensures r == FirstIndex(lines, p)
  {
    var i := 0;
    while i < |lines|
      invariant 0 <= i <= |lines|
      invariant forall j :: 0 <= j < i ==> !p(lines[j])
    {
      if p(lines[i]) {
        FirstIndexIs(lines, p, i);
        return Some(i);
      }
      i := i + 1;
    }
    r := None;
  }

  /** A foreach that appends the value each line yields. */
  method CollectEach<T>(lines: seq<string>, f: string -> Option<T>) returns (r: seq<T>)
    ensures r == Collect(lines, f)
  {
    r := [];
    var i := 0;
    while i < |lines|
      invariant 0 <= i <= |lines|
      invariant r == Collect(lines[..i], f)
    {
      CollectAppend(lines[..i], lines[i], f);
      assert lines[..i + 1] == lines[..i] + [lines[i]];
      var found := f(lines[i]);
      if found.Some? {
        r := r + [found.value];
      }
      i := i + 1;
    }
    assert lines[..i] == lines;
  }

  /** A foreach that stores the pair each line yields, overwriting an earlier value under the same key. */
  method AssocEach<V>(lines: seq<string>, f: string -> Option<(string, V)>) returns (m: map<string, V>)
    ensures m == Assoc(lines, f)
  {
    m := map[];
    var i := 0;
    while i < |lines|
      invariant 0 <= i <= |lines|
      invariant m == Assoc(lines[..i], f)
    {
      AssocAppend(lines[..i], lines[i], f);
      assert lines[..i + 1] == lines[..i] + [lines[i]];
      var found := f(lines[i]);
      if found.Some? {
        m := m[found.value.0 := found.value.1];
      }
      i := i + 1;
    }
    assert lines[..i] == lines;
  }

  /**
   * The first word of a line once runs of spaces are squeezed, kept unless it is
   * empty or "0", starts with a backspace or is on the ignore list.
   */
  function ListedName(line: string, ignore: seq<string>): (r: Option<string>)
    ensures r.Some? ==> r.value != "" && r.value != "0" && r.value[0] != Backspace && r.value !in ignore
  {
    var word := Explode(SqueezeSpaces(line), " ")[0];
    if word != "" && !IsEmpty(word) && Substr(word, 0, 1) != [Backspace] && word !in ignore then Some(word) else None
  }

  /** The word before the first space, when it is a plain word, is what the filter lists. */
  lemma ListedNameOfRow(word: string, rest: string, ignore: seq<string>)
    requires Lacks(word, ' ') && !IsEmpty(word) && word[0] != Backspace && word !in ignore
    ensures ListedName(word + (" " + rest), ignore) == Some(word)
    ensures ListedName(word, ignore) == Some(word)
  {
    SqueezedFirstWord(word, rest);
    assert Substr(word, 0, 1) == [word[0]];
    SqueezeKeepsHead(word, []);
    assert word + [] == word;
    NotContainsFirstChar(word, " ");
    ExplodeWhole(word, " ");
  }

  /** An indented line, an empty line and a line whose first word is ignored are never listed. */
  lemma ListedNameSkips(rest: string, word: string, ignore: seq<string>)
    ensures ListedName(" " + rest, ignore) == None
    ensures ListedName("", ignore) == None
    ensures Lacks(word, ' ') && word in ignore ==> ListedName(word + (" " + rest), ignore) == None
  {
    SqueezedFirstWord("", rest);
    assert "" + (" " + rest) == " " + rest;
    assert Explode(SqueezeSpaces(""), " ") == [""];
    if Lacks(word, ' ') && word in ignore {
      SqueezedFirstWord(word, rest);
    }
  }
}
