/**
 * The option arrays handed to a Composer run: string keys in insertion order, each
 * with a flag, a text, a list of texts or null.
 */
module Options {
  import opened Wrappers

  datatype Value = Null | Bool(b: bool) | Str(s: string) | List(items: seq<string>)

  /** An associative array in insertion order. */
  type OptionList = seq<(string, Value)>

  predicate UniqueKeys(o: OptionList) {
    forall i, j :: 0 <= i < j < |o| ==> o[i].0 != o[j].0
  }

  function Keys(o: OptionList): (r: seq<string>)
    ensures |r| == |o| && forall i :: 0 <= i < |o| ==> r[i] == o[i].0
  {
    if o == [] then [] else [o[0].0] + Keys(o[1..])
  }

  /** Where the key stands in the array. */
  function IndexOf(o: OptionList, key: string): (r: Option<nat>)
    ensures r.Some? ==> r.value < |o| && o[r.value].0 == key && forall j :: 0 <= j < r.value ==> o[j].0 != key
    ensures r.None? <==> forall j :: 0 <= j < |o| ==> o[j].0 != key
  {
    if o == [] then None
    else if o[0].0 == key then Some(0)
    else match IndexOf(o[1..], key)
      case None => None
      case Some(i) => Some(i + 1)
  }

  /** `$o[$key]`, None when the key is absent. */
  function Lookup(o: OptionList, key: string): Option<Value> {
    match IndexOf(o, key)
    case None => None
    case Some(i) => Some(o[i].1)
  }

  /** isset($o[$key]): present and not null. */
  predicate IsSet(o: OptionList, key: string) {
    Lookup(o, key).Some? && Lookup(o, key).value != Null
  }

  /** `$o[$key] = $v`: an existing entry is overwritten where it stands, a new one is appended. */
  function Put(o: OptionList, key: string, v: Value): OptionList {
    match IndexOf(o, key)
    case Some(i) => o[i := (key, v)]
    case None => o + [(key, v)]
  }

  /** Assignment stores the value under its key, changes no other key and keeps the keys unique and in order. */
  lemma PutSpec(o: OptionList, key: string, v: Value)
    ensures Lookup(Put(o, key, v), key) == Some(v)
    ensures forall other :: other != key ==> Lookup(Put(o, key, v), other) == Lookup(o, other)
    ensures Keys(Put(o, key, v)) == if IndexOf(o, key).Some? then Keys(o) else Keys(o) + [key]
    ensures UniqueKeys(o) ==> UniqueKeys(Put(o, key, v))
  {
    if IndexOf(o, key).Some? {
      PutOverwrites(o, key, v, IndexOf(o, key).value);
    } else {
      PutAppends(o, key, v);
    }
  }

  lemma PutOverwrites(o: OptionList, key: string, v: Value, i: nat)
    requires IndexOf(o, key) == Some(i)
    ensures Put(o, key, v) == o[i := (key, v)]
    ensures Lookup(o[i := (key, v)], key) == Some(v)
    ensures forall other :: other != key ==> Lookup(o[i := (key, v)], other) == Lookup(o, other)
    ensures Keys(o[i := (key, v)]) == Keys(o)
  {
    var r := o[i := (key, v)];
    assert IndexOf(r, key) == Some(i) by {
      assert r[i].0 == key && forall j :: 0 <= j < i ==> r[j].0 != key;
    }
    forall other | other != key
      ensures Lookup(r, other) == Lookup(o, other)
    {
      LookupSameKeys(o, r, other);
    }
  }

  lemma PutAppends(o: OptionList, key: string, v: Value)
    requires IndexOf(o, key).None?
    ensures Put(o, key, v) == o + [(key, v)]
    ensures Lookup(o + [(key, v)], key) == Some(v)
    ensures forall other :: other != key ==> Lookup(o + [(key, v)], other) == Lookup(o, other)
    ensures Keys(o + [(key, v)]) == Keys(o) + [key]
  {
    var r := o + [(key, v)];
    assert IndexOf(r, key) == Some(|o|) by {
      assert r[|o|].0 == key && forall j :: 0 <= j < |o| ==> r[j].0 != key;
    }
    forall other | other != key
      ensures Lookup(r, other) == Lookup(o, other)
    {
      LookupPrefix(o, (key, v), other);
    }
  }

  /** Appending an entry of another key does not change a lookup. */
  lemma LookupPrefix(o: OptionList, e: (string, Value), other: string)
    requires e.0 != other
    ensures Lookup(o + [e], other) == Lookup(o, other)
  {
    var r := o + [e];
    if IndexOf(o, other).Some? {
      var k := IndexOf(o, other).value;
      assert IndexOf(r, other) == Some(k) by {
        assert r[k] == o[k] && forall j :: 0 <= j < k ==> r[j] == o[j];
      }
    } else {
      assert forall j :: 0 <= j < |r| ==> r[j].0 != other by {
        forall j | 0 <= j < |r| ensures r[j].0 != other {
          if j < |o| { assert r[j] == o[j]; }
        }
      }
    }
  }

  /** Two arrays with the same keys that agree on every entry of some other key look that key up alike. */
  lemma LookupSameKeys(o: OptionList, r: OptionList, other: string)
    requires |o| == |r| && forall j :: 0 <= j < |o| ==> r[j].0 == o[j].0
    requires forall j :: 0 <= j < |o| && o[j].0 == other ==> r[j] == o[j]
    ensures Lookup(r, other) == Lookup(o, other)
  {
    match IndexOf(o, other)
    case None =>
      assert forall j :: 0 <= j < |r| ==> r[j].0 != other;
    case Some(k) =>
      assert IndexOf(r, other) == Some(k) by {
        assert r[k].0 == other && forall j :: 0 <= j < k ==> r[j].0 != other;
      }
  }
}
