/**
 * The event registry: every event name maps to an ordered list of (callback, priority)
 * entries. Firing an event runs a sorted copy of its list in ascending priority under a
 * per-event recursion guard, keeps the results of string callables by name, and gathers
 * the exceptions of failing callbacks into one failure raised after the loop.
 */
module EventRegistry {
  import opened Wrappers
  import opened Php

  /**
   * A registered callback. Closures are told apart by an identity: two closures are `==`
   * in PHP exactly when they have the same identity here. A string callable is its name.
   */
  datatype Callback = Closure(id: nat) | Named(name: string)

  /** One entry of an event's list: `['callable' => $fn, 'priority' => $priority]`. */
  datatype Listener = Listener(callable: Callback, priority: int)

  type Registry = map<string, seq<Listener>>

  /** Some entry of the list holds the callback. */
  predicate Registered(ls: seq<Listener>, fn: Callback) {
    exists i :: 0 <= i < |ls| && ls[i].callable == fn
  }

  /** No callback appears twice in one list. */
  predicate Distinct(ls: seq<Listener>) {
    forall i, j :: 0 <= i < j < |ls| ==> ls[i].callable != ls[j].callable
  }

  /** The invariant addEvent keeps: no event lists a callback twice. */
  predicate DistinctAll(r: Registry) {
    forall e :: e in r ==> Distinct(r[e])
  }

  /** The list of an event; a missing event has none. */
  function Entries(r: Registry, event: string): seq<Listener> {
    if event in r then r[event] else []
  }

  // ---------------------------------------------------------------------------------
  // addEvent / addEvents

  /** addEvent: the event gets a list if it had none; a callback it does not list yet is appended. */
  function Added(r: Registry, event: string, fn: Callback, priority: int): Registry {
    var ls := Entries(r, event);
    if Registered(ls, fn) then r else r[event := ls + [Listener(fn, priority)]]
  }

  /**
   * After addEvent the event is known and lists the callback; a new callback is appended at the
   * end with its priority, a registered one changes nothing, and no other event is touched.
   */
  lemma AddedSpec(r: Registry, event: string, fn: Callback, priority: int)
    ensures var a := Added(r, event, fn, priority);
            event in a && Registered(a[event], fn) &&
            (Registered(Entries(r, event), fn) ==> a == r) &&
            (!Registered(Entries(r, event), fn) ==>
               |a[event]| == |Entries(r, event)| + 1 &&
               a[event][..|Entries(r, event)|] == Entries(r, event) &&
               a[event][|Entries(r, event)|] == Listener(fn, priority)) &&
            (forall e :: e != event ==> (e in a <==> e in r) && Entries(a, e) == Entries(r, e))
  {
    var ls := Entries(r, event);
    if !Registered(ls, fn) {
      var a: Registry := Added(r, event, fn, priority);
      assert a[event][|ls|].callable == fn;
      assert (ls + [Listener(fn, priority)])[..|ls|] == ls;
    }
  }

  /** Adding a callback twice is adding it once, whatever the second priority. */
  lemma AddedTwice(r: Registry, event: string, fn: Callback, p: int, q: int)
    ensures Added(Added(r, event, fn, p), event, fn, q) == Added(r, event, fn, p)
  {
    AddedSpec(r, event, fn, p);
  }

  /** addEvent never lists a callback twice. */
  lemma AddedKeepsDistinct(r: Registry, event: string, fn: Callback, priority: int)
    requires DistinctAll(r)
    ensures DistinctAll(Added(r, event, fn, priority))
  {
    var ls := Entries(r, event);
    if !Registered(ls, fn) {
      var n := ls + [Listener(fn, priority)];
      forall i, j | 0 <= i < j < |n|
        ensures n[i].callable != n[j].callable
      {
        if j == |ls| {
          assert n[i] == ls[i];
        }
      }
    }
  }

  /** addEvent drops nothing that was registered. */
  lemma AddedKeeps(r: Registry, event: string, fn: Callback, priority: int, e: string, g: Callback)
    requires Registered(Entries(r, e), g)
    ensures Registered(Entries(Added(r, event, fn, priority), e), g)
  {
    var ls := Entries(r, e);
    var i :| 0 <= i < |ls| && ls[i].callable == g;
    if e == event && !Registered(ls, fn) {
      assert (ls + [Listener(fn, priority)])[i] == ls[i];
    }
  }

  /** addEvents: every pair in order, each with priority 0. */
  function AddedAll(r: Registry, pairs: seq<(string, Callback)>): Registry
    decreases |pairs|
  {
    if pairs == [] then r
    else
      var last := pairs[|pairs| - 1];
      Added(AddedAll(r, pairs[..|pairs| - 1]), last.0, last.1, 0)
  }

  /** After addEvents every given callback is registered under its event, and every earlier registration stays. */
  lemma {:induction false} AddedAllRegisters(r: Registry, pairs: seq<(string, Callback)>, k: nat)
    requires k < |pairs|
    ensures Registered(Entries(AddedAll(r, pairs), pairs[k].0), pairs[k].1)
    decreases |pairs|
  {
    var init := pairs[..|pairs| - 1];
    var last := pairs[|pairs| - 1];
    if k == |pairs| - 1 {
      AddedSpec(AddedAll(r, init), last.0, last.1, 0);
    } else {
      AddedAllRegisters(r, init, k);
      assert init[k] == pairs[k];
      AddedKeeps(AddedAll(r, init), last.0, last.1, 0, pairs[k].0, pairs[k].1);
    }
  }

  lemma {:induction false} AddedAllKeeps(r: Registry, pairs: seq<(string, Callback)>, e: string, g: Callback)
    requires Registered(Entries(r, e), g)
    ensures Registered(Entries(AddedAll(r, pairs), e), g)
    decreases |pairs|
  {
    if pairs != [] {
      var last := pairs[|pairs| - 1];
      AddedAllKeeps(r, pairs[..|pairs| - 1], e, g);
      AddedKeeps(AddedAll(r, pairs[..|pairs| - 1]), last.0, last.1, 0, e, g);
    }
  }

  // ---------------------------------------------------------------------------------
  // removeEvent / removeEvents

  /** The second argument of removeEvent: a boolean, or the callback to remove. */
  datatype Selector = Flag(b: bool) | Fn(callable: Callback)

  /**
   * The parameter type `callable|bool` without strict types: a closure or a callable name is taken as
   * it is, and a name that is not callable is turned into a boolean, false for "" and "0" and true
   * for every other string.
   */
  function Coerce(sel: Selector, isCallable: string -> bool): (c: Selector)
    ensures c.Fn? <==> sel.Fn? && (sel.callable.Closure? || isCallable(sel.callable.name))
    ensures c.Fn? || sel.Flag? ==> c == sel
    ensures c.Flag? && sel.Fn? ==> (c.b <==> sel.callable.name != "" && sel.callable.name != "0")
  {
    match sel
    case Fn(Named(n)) => if isCallable(n) then sel else Flag(n != "" && n != "0")
    case _ => sel
  }

  /** `!$fn`: false, and the string callables "" and "0", are falsy; every closure is truthy. */
  predicate Falsy(sel: Selector) {
    sel == Flag(false) || sel == Fn(Named("")) || sel == Fn(Named("0"))
  }

  /**
   * `$_fn['callable'] == $fn`. Compared with `true` every closure and every non-falsy name is
   * equal; two callbacks are equal when they are the same callback.
   */
  predicate Selects(sel: Selector, c: Callback) {
    match sel
    case Flag(b) => b && (c.Closure? || (c.name != "" && c.name != "0"))
    case Fn(f) => c == f
  }

  /** The entries the selector does not select, in their order. */
  function Without(ls: seq<Listener>, sel: Selector): seq<Listener>
    decreases |ls|
  {
    if ls == [] then []
    else
      var init := Without(ls[..|ls| - 1], sel);
      if Selects(sel, ls[|ls| - 1].callable) then init else init + [ls[|ls| - 1]]
  }

  /**
   * removeEvent: a missing event is left alone; after the coercion of the argument, a falsy selector
   * drops the event, and otherwise the selected entries go.
   */
  function Removed(r: Registry, event: string, sel: Selector, isCallable: string -> bool): Registry {
    var s := Coerce(sel, isCallable);
    if event !in r then r
    else if Falsy(s) then r - {event}
    else r[event := Without(r[event], s)]
  }

  /** An entry survives the filter exactly when it is not selected, and the filter never grows the list. */
  lemma {:induction false} WithoutMembers(ls: seq<Listener>, sel: Selector, x: Listener)
    ensures x in Without(ls, sel) <==> x in ls && !Selects(sel, x.callable)
    ensures |Without(ls, sel)| <= |ls|
    decreases |ls|
  {
    if ls != [] {
      var init := ls[..|ls| - 1];
      WithoutMembers(init, sel, x);
      assert ls == init + [ls[|ls| - 1]];
    }
  }

  /** Filtering keeps the entries in their order: the result is the list when nothing is selected. */
  lemma {:induction false} WithoutNothing(ls: seq<Listener>, sel: Selector)
    requires forall i :: 0 <= i < |ls| ==> !Selects(sel, ls[i].callable)
    ensures Without(ls, sel) == ls
    decreases |ls|
  {
    if ls != [] {
      WithoutNothing(ls[..|ls| - 1], sel);
      assert ls == ls[..|ls| - 1] + [ls[|ls| - 1]];
    }
  }

  /** Filtering a list without repeats gives a list without repeats. */
  lemma {:induction false} WithoutKeepsDistinct(ls: seq<Listener>, sel: Selector)
    requires Distinct(ls)
    ensures Distinct(Without(ls, sel))
    decreases |ls|
  {
    if ls != [] {
      var init := ls[..|ls| - 1];
      var last := ls[|ls| - 1];
      WithoutKeepsDistinct(init, sel);
      if !Selects(sel, last.callable) {
        var w := Without(init, sel);
        forall i | 0 <= i < |w|
          ensures w[i].callable != last.callable
        {
          WithoutMembers(init, sel, w[i]);
          var k :| 0 <= k < |init| && init[k] == w[i];
          assert ls[k] == init[k];
        }
      }
    }
  }

  /**
   * removeEvent on a missing event changes nothing; a selector that is falsy after the coercion drops
   * the event and keeps all others; any other selector keeps the event, even with an empty list, and
   * keeps exactly the entries the coerced selector does not select.
   */
  lemma RemovedSpec(r: Registry, event: string, sel: Selector, isCallable: string -> bool)
    ensures event !in r ==> Removed(r, event, sel, isCallable) == r
    ensures var s, d := Coerce(sel, isCallable), Removed(r, event, sel, isCallable);
            event in r && Falsy(s) ==>
              event !in d &&
              forall e :: e != event ==> (e in d <==> e in r) && Entries(d, e) == Entries(r, e)
    ensures var s, d := Coerce(sel, isCallable), Removed(r, event, sel, isCallable);
            event in r && !Falsy(s) ==>
              event in d &&
              (forall x :: x in d[event] <==> x in r[event] && !Selects(s, x.callable)) &&
              forall e :: e != event ==> (e in d <==> e in r) && Entries(d, e) == Entries(r, e)
  {
    var s := Coerce(sel, isCallable);
    if event in r && !Falsy(s) {
      forall x {
        WithoutMembers(r[event], s, x);
      }
    }
  }

  /**
   * A name that is not callable, and is neither "" nor "0", is read as `true`: every closure and
   * every name other than "" and "0" is dropped from the event, whatever the name was.
   */
  lemma RemovedUncallableName(r: Registry, event: string, n: string, isCallable: string -> bool)
    requires event in r && !isCallable(n) && n != "" && n != "0"
    ensures Removed(r, event, Fn(Named(n)), isCallable) == Removed(r, event, Flag(true), isCallable)
    ensures forall x :: x in Removed(r, event, Fn(Named(n)), isCallable)[event] <==>
              x in r[event] && x.callable.Named? && (x.callable.name == "" || x.callable.name == "0")
  {
    forall x {
      WithoutMembers(r[event], Flag(true), x);
    }
  }

  /** removeEvent keeps the invariant of addEvent. */
  lemma RemovedKeepsDistinct(r: Registry, event: string, sel: Selector, isCallable: string -> bool)
    requires DistinctAll(r)
    ensures DistinctAll(Removed(r, event, sel, isCallable))
  {
    var s := Coerce(sel, isCallable);
    if event in r && !Falsy(s) {
      WithoutKeepsDistinct(r[event], s);
    }
  }

  /** Removing a closure or a callable name that is not registered only makes sure nothing else changes. */
  lemma RemovedAbsent(r: Registry, event: string, fn: Callback, isCallable: string -> bool)
    requires event in r && !Registered(r[event], fn) && !Falsy(Fn(fn))
    requires fn.Closure? || isCallable(fn.name)
    ensures Removed(r, event, Fn(fn), isCallable) == r
  {
    WithoutNothing(r[event], Fn(fn));
  }

  /**
   * Removing what was just added, from an event that did not list it, leaves the other entries as
   * they were. addEvent takes only callables, so the callback is a closure or a callable name.
   */
  lemma RemoveUndoesAdd(r: Registry, event: string, fn: Callback, priority: int, isCallable: string -> bool)
    requires event in r && !Registered(r[event], fn) && !Falsy(Fn(fn))
    requires fn.Closure? || isCallable(fn.name)
    ensures Removed(Added(r, event, fn, priority), event, Fn(fn), isCallable) == r
  {
    var ls := r[event];
    WithoutNothing(ls, Fn(fn));
    assert (ls + [Listener(fn, priority)])[..|ls|] == ls;
  }

  /** removeEvents: every pair in order. */
  function RemovedAll(r: Registry, pairs: seq<(string, Selector)>, isCallable: string -> bool): Registry
    decreases |pairs|
  {
    if pairs == [] then r
    else
      var last := pairs[|pairs| - 1];
      Removed(RemovedAll(r, pairs[..|pairs| - 1], isCallable), last.0, last.1, isCallable)
  }

  /** removeEvents keeps the invariant, and never adds an event. */
  lemma {:induction false} RemovedAllShrinks(r: Registry, pairs: seq<(string, Selector)>, isCallable: string -> bool)
    requires DistinctAll(r)
    ensures DistinctAll(RemovedAll(r, pairs, isCallable))
    ensures RemovedAll(r, pairs, isCallable).Keys <= r.Keys
    decreases |pairs|
  {
    if pairs != [] {
      var last := pairs[|pairs| - 1];
      RemovedAllShrinks(r, pairs[..|pairs| - 1], isCallable);
      RemovedKeepsDistinct(RemovedAll(r, pairs[..|pairs| - 1], isCallable), last.0, last.1, isCallable);
    }
  }

  // ---------------------------------------------------------------------------------
  // fireEvent: the name, the sort, the loop

  /** `'on' . ucfirst($event)` unless the name already starts with `on`. */
  function EventName(event: string): (r: string)
    ensures StartsWith(r, "on")
    ensures StartsWith(event, "on") ==> r == event
  {
    if StartsWith(event, "on") then event else "on" + UcFirst(event)
  }

  /** Normalising a normalised name changes nothing. */
  lemma EventNameIdempotent(event: string)
    ensures EventName(EventName(event)) == EventName(event)
  {
  }

  /** A name with a lower-case first letter that is not `on…` fires `on` and the name with that letter upper-cased. */
  lemma EventNameOfLower(c: char, rest: string)
    requires 'a' <= c <= 'z' && !StartsWith([c] + rest, "on")
    ensures EventName([c] + rest) == "on" + ([(c as int - 32) as char] + rest)
    ensures 'A' <= EventName([c] + rest)[2] <= 'Z'
  {
    assert ([c] + rest)[1..] == rest;
  }

  /** The list runs in ascending priority. */
  predicate SortedByPriority(ls: seq<Listener>) {
    forall i, j :: 0 <= i < j < |ls| ==> ls[i].priority <= ls[j].priority
  }

  /** The entries of one priority, in their order. */
  function WithPriority(ls: seq<Listener>, p: int): seq<Listener>
    decreases |ls|
  {
    if ls == [] then []
    else if ls[0].priority == p then [ls[0]] + WithPriority(ls[1..], p)
    else WithPriority(ls[1..], p)
  }

  /** Puts an entry in front of the first one whose priority is not lower. */
  function InsertByPriority(x: Listener, s: seq<Listener>): seq<Listener>
    decreases |s|
  {
    if s == [] then [x]
    else if x.priority <= s[0].priority then [x] + s
    else [s[0]] + InsertByPriority(x, s[1..])
  }

  /**
   * usort with the priority comparator. PHP's sort is stable, so entries of equal priority keep the
   * order of the list.
   */
  function SortByPriority(ls: seq<Listener>): seq<Listener>
    decreases |ls|
  {
    if ls == [] then [] else InsertByPriority(ls[0], SortByPriority(ls[1..]))
  }

  lemma {:induction false} InsertSame(x: Listener, s: seq<Listener>)
    ensures multiset(InsertByPriority(x, s)) == multiset(s) + multiset{x}
    ensures |InsertByPriority(x, s)| == |s| + 1
    decreases |s|
  {
    if s != [] && x.priority > s[0].priority {
      InsertSame(x, s[1..]);
      assert s == [s[0]] + s[1..];
    }
  }

  lemma {:induction false} InsertSorted(x: Listener, s: seq<Listener>)
    requires SortedByPriority(s)
    ensures SortedByPriority(InsertByPriority(x, s))
    decreases |s|
  {
    if s == [] {
    } else if x.priority <= s[0].priority {
      SortedCons(x, s);
    } else {
      var t := s[1..];
      InsertSorted(x, t);
      InsertBound(x, t, s[0].priority);
      SortedCons(s[0], InsertByPriority(x, t));
    }
  }

  /** No entry of the list has a priority below p. */
  predicate AtLeast(s: seq<Listener>, p: int) {
    forall j :: 0 <= j < |s| ==> p <= s[j].priority
  }

  /** Inserting an entry of priority at least p into a list of such entries keeps them all at least p. */
  lemma {:induction false} InsertBound(x: Listener, s: seq<Listener>, p: int)
    requires p <= x.priority && AtLeast(s, p)
    ensures AtLeast(InsertByPriority(x, s), p)
    decreases |s|
  {
    if s != [] && x.priority > s[0].priority {
      InsertBound(x, s[1..], p);
    }
  }

  lemma SortedCons(a: Listener, t: seq<Listener>)
    requires SortedByPriority(t) && (t == [] || a.priority <= t[0].priority)
    ensures SortedByPriority([a] + t)
  {
    var r := [a] + t;
    forall i, j | 0 <= i < j < |r|
      ensures r[i].priority <= r[j].priority
    {
      if i == 0 && j > 1 {
        assert t[0].priority <= t[j - 1].priority;
      }
    }
  }

  lemma {:induction false} WithPriorityAbove(s: seq<Listener>, p: int)
    requires SortedByPriority(s) && s != [] && s[0].priority > p
    ensures WithPriority(s, p) == []
    decreases |s|
  {
    if |s| > 1 {
      WithPriorityAbove(s[1..], p);
    }
  }

  lemma {:induction false} InsertStable(x: Listener, s: seq<Listener>, p: int)
    requires SortedByPriority(s)
    ensures WithPriority(InsertByPriority(x, s), p) == (if x.priority == p then [x] else []) + WithPriority(s, p)
    decreases |s|
  {
    if s == [] {
    } else if x.priority <= s[0].priority {
      assert ([x] + s)[1..] == s;
      if x.priority == p && s[0].priority > p {
        WithPriorityAbove(s, p);
      }
    } else {
      InsertStable(x, s[1..], p);
      assert ([s[0]] + InsertByPriority(x, s[1..]))[1..] == InsertByPriority(x, s[1..]);
    }
  }

  /** The sorted copy is in ascending priority and holds the same entries as the list. */
  lemma {:induction false} SortSpec(ls: seq<Listener>)
    ensures SortedByPriority(SortByPriority(ls))
    ensures multiset(SortByPriority(ls)) == multiset(ls)
    decreases |ls|
  {
    if ls != [] {
      SortSpec(ls[1..]);
      InsertSorted(ls[0], SortByPriority(ls[1..]));
      InsertSame(ls[0], SortByPriority(ls[1..]));
      assert ls == [ls[0]] + ls[1..];
    }
  }

  /** The sort is stable: the entries of each priority keep their order. */
  lemma {:induction false} SortStable(ls: seq<Listener>, p: int)
    ensures WithPriority(SortByPriority(ls), p) == WithPriority(ls, p)
    decreases |ls|
  {
    if ls != [] {
      SortSpec(ls[1..]);
      SortStable(ls[1..], p);
      InsertStable(ls[0], SortByPriority(ls[1..]), p);
    }
  }

  /** A list in ascending priority is left as it is. */
  lemma {:induction false} SortKeepsSorted(ls: seq<Listener>)
    requires SortedByPriority(ls)
    ensures SortByPriority(ls) == ls
    decreases |ls|
  {
    if ls != [] {
      SortKeepsSorted(ls[1..]);
      if |ls| > 1 {
        assert ls[0].priority <= ls[1].priority;
      }
      assert ls == [ls[0]] + ls[1..];
    }
  }

  /** `preg_replace('/\\{2,}/', '\\', $fn)` as PHP reads it: the pattern is the literal text `{2,}`. */
  function BracesReplaced(s: string): string {
    Replace(s, "{2,}", "\\")
  }

  /** Every run of two or more backslashes becomes one backslash, as the pattern was meant to do. */
  function CollapseBackslashes(s: string): string
    decreases |s|
  {
    if |s| < 2 then s
    else if s[0] == '\\' && s[1] == '\\' then CollapseBackslashes(s[1..])
    else [s[0]] + CollapseBackslashes(s[1..])
  }

  predicate NoDoubleBackslash(s: string) {
    forall i :: 0 <= i < |s| - 1 ==> !(s[i] == '\\' && s[i + 1] == '\\')
  }

  /** The text without its backslashes. */
  function Unslashed(s: string): string
    decreases |s|
  {
    if s == [] then [] else (if s[0] == '\\' then [] else [s[0]]) + Unslashed(s[1..])
  }

  /**
   * Collapsing leaves no doubled backslash, keeps every other character and the first one, and
   * changes nothing where no backslash is doubled.
   */
  lemma {:induction false} CollapseSpec(s: string)
    ensures NoDoubleBackslash(CollapseBackslashes(s))
    ensures Unslashed(CollapseBackslashes(s)) == Unslashed(s)
    ensures |s| > 0 ==> |CollapseBackslashes(s)| > 0 && CollapseBackslashes(s)[0] == s[0]
    ensures NoDoubleBackslash(s) ==> CollapseBackslashes(s) == s
    decreases |s|
  {
    if |s| >= 2 {
      CollapseSpec(s[1..]);
      var c := CollapseBackslashes(s[1..]);
      if !(s[0] == '\\' && s[1] == '\\') {
        var r := [s[0]] + c;
        forall i | 0 <= i < |r| - 1
          ensures !(r[i] == '\\' && r[i + 1] == '\\')
        {
          if i > 0 {
            assert r[i] == c[i - 1] && r[i + 1] == c[i];
          }
        }
        assert r[1..] == c;
      }
    }
  }

  /**
   * On a name with no doubled backslash and no text `{2,}` the call as written and the collapse
   * agree: both leave the name unchanged.
   */
  lemma BracesAgreeOnPlainNames(s: string)
    requires NoDoubleBackslash(s) && !Contains(s, "{2,}")
    ensures BracesReplaced(s) == s && CollapseBackslashes(s) == s
  {
    ReplaceAbsent(s, "{2,}", "\\");
    CollapseSpec(s);
  }

  /** As written, the call keeps a doubled backslash that the collapse removes. */
  lemma BracesKeepDoubleBackslash()
    ensures BracesReplaced("a\\\\b") == "a\\\\b"
    ensures CollapseBackslashes("a\\\\b") == "a\\b"
  {
    var s := "a\\\\b";
    NotContainsFirstChar(s, "{2,}");
    ReplaceAbsent(s, "{2,}", "\\");
    assert s[1..] == "\\\\b" && s[1..][1..] == "\\b" && s[1..][1..][1..] == "b";
  }

  /** As written, the call rewrites the text `{2,}` that the collapse leaves alone. */
  lemma BracesRewriteQuantifierText()
    ensures BracesReplaced("{2,}") == "\\"
    ensures CollapseBackslashes("{2,}") == "{2,}"
  {
    assert StartsWith("{2,}", "{2,}");
    CollapseSpec("{2,}");
  }

  /** `$args`: false or true (no arguments are passed), or the array of arguments. */
  datatype Args<A> = Bare(b: bool) | Arguments(items: seq<A>)

  /** `$fn()` or `call_user_func($fn)` for a boolean, `call_user_func_array($fn, $args)` for an array. */
  function Passed<A>(args: Args<A>): seq<A> {
    if args.Arguments? then args.items else []
  }

  /**
   * What a call does: return a value, throw an Exception (caught and collected), or raise a PHP
   * Error, which `catch (Exception)` does not catch, so it leaves fireEvent at once.
   */
  datatype Outcome<R> = Returned(value: R) | Threw(message: string, code: int) | Fatal(message: string)

  /** One collected exception: its message and code (the trace is not modelled). */
  datatype Failure = Failure(message: string, code: int)

  /** The state of the loop: results by name, collected failures, the calls made in order, and an escaped Error. */
  datatype Run<R> = Run(results: map<string, R>, failures: seq<Failure>, calls: seq<Callback>, fatal: Option<string>)

  function NoRun<R>(): Run<R> {
    Run(map[], [], [], None)
  }

  /**
   * One entry of the loop. A closure is called and its value dropped. A name has its runs of
   * backslashes collapsed (the corrected reading of the normalisation, see BracesReplaced) and is
   * called only when callable, its value stored under the normalised name. A thrown exception is
   * collected, a name appended to its message; after an Error nothing more runs.
   */
  function Step<A, R>(st: Run<R>, l: Listener, args: Args<A>, isCallable: string -> bool, outcome: (Callback, seq<A>) -> Outcome<R>): Run<R> {
    if st.fatal.Some? then st
    else
      match l.callable
      case Closure(_) =>
        (match outcome(l.callable, Passed(args))
         case Returned(_) => st.(calls := st.calls + [l.callable])
         case Threw(m, code) => st.(calls := st.calls + [l.callable], failures := st.failures + [Failure(m, code)])
         case Fatal(m) => st.(calls := st.calls + [l.callable], fatal := Some(m)))
      case Named(s) =>
        var fn := CollapseBackslashes(s);
        if !isCallable(fn) then st
        else
          match outcome(Named(fn), Passed(args))
          case Returned(v) => st.(calls := st.calls + [Named(fn)], results := st.results[fn := v])
          case Threw(m, code) => st.(calls := st.calls + [Named(fn)], failures := st.failures + [Failure(m + " :: " + fn, code)])
          case Fatal(m) => st.(calls := st.calls + [Named(fn)], fatal := Some(m))
  }

  /** The loop over the sorted entries. */
  function RunAll<A, R>(ls: seq<Listener>, args: Args<A>, isCallable: string -> bool, outcome: (Callback, seq<A>) -> Outcome<R>): Run<R>
    decreases |ls|
  {
    if ls == [] then NoRun()
    else Step(RunAll(ls[..|ls| - 1], args, isCallable, outcome), ls[|ls| - 1], args, isCallable, outcome)
  }

  /** The callbacks the loop calls when no Error escapes: every closure, and every name that is callable, normalised. */
  function Invoked(ls: seq<Listener>, isCallable: string -> bool): seq<Callback>
    decreases |ls|
  {
    if ls == [] then []
    else
      var init := Invoked(ls[..|ls| - 1], isCallable);
      match ls[|ls| - 1].callable
      case Closure(_) => init + [ls[|ls| - 1].callable]
      case Named(s) => if isCallable(CollapseBackslashes(s)) then init + [Named(CollapseBackslashes(s))] else init
  }

  /** No call raises an Error. */
  ghost predicate NoFatal<A, R>(args: Args<A>, outcome: (Callback, seq<A>) -> Outcome<R>) {
    forall c :: !outcome(c, Passed(args)).Fatal?
  }

  /**
   * A failing callback does not stop the others: without an Error every closure and every callable
   * name is called, in the order of the list, and an exception is collected exactly when one of
   * those calls threw.
   */
  lemma {:induction false} RunCallsAll<A, R>(ls: seq<Listener>, args: Args<A>, isCallable: string -> bool, outcome: (Callback, seq<A>) -> Outcome<R>)
    requires NoFatal(args, outcome)
    ensures RunAll(ls, args, isCallable, outcome).fatal.None?
    ensures RunAll(ls, args, isCallable, outcome).calls == Invoked(ls, isCallable)
    ensures RunAll(ls, args, isCallable, outcome).failures == [] <==> !AnyThrew(Invoked(ls, isCallable), args, outcome)
    decreases |ls|
  {
    if ls != [] {
      var init := ls[..|ls| - 1];
      RunCallsAll(init, args, isCallable, outcome);
      var before := Invoked(init, isCallable);
      var calls := Invoked(ls, isCallable);
      if calls != before {
        var c := calls[|calls| - 1];
        assert calls == before + [c];
        AnyThrewAppend(before, c, args, outcome);
        assert !outcome(c, Passed(args)).Fatal?;
      }
    }
  }

  /** Some call made threw an exception. */
  predicate AnyThrew<A, R>(calls: seq<Callback>, args: Args<A>, outcome: (Callback, seq<A>) -> Outcome<R>) {
    exists i :: 0 <= i < |calls| && outcome(calls[i], Passed(args)).Threw?
  }

  lemma AnyThrewAppend<A, R>(calls: seq<Callback>, c: Callback, args: Args<A>, outcome: (Callback, seq<A>) -> Outcome<R>)
    ensures AnyThrew(calls + [c], args, outcome) <==> AnyThrew(calls, args, outcome) || outcome(c, Passed(args)).Threw?
  {
    if AnyThrew(calls, args, outcome) {
      var i :| 0 <= i < |calls| && outcome(calls[i], Passed(args)).Threw?;
      assert (calls + [c])[i] == calls[i];
    }
    if AnyThrew(calls + [c], args, outcome) {
      var i :| 0 <= i < |calls| + 1 && outcome((calls + [c])[i], Passed(args)).Threw?;
      if i < |calls| {
        assert (calls + [c])[i] == calls[i];
      }
    }
    if outcome(c, Passed(args)).Threw? {
      assert (calls + [c])[|calls|] == c;
    }
  }

  /** Results are stored only for callable names, under the normalised name. */
  lemma {:induction false} RunResultKeys<A, R>(ls: seq<Listener>, args: Args<A>, isCallable: string -> bool, outcome: (Callback, seq<A>) -> Outcome<R>, k: string)
    requires k in RunAll(ls, args, isCallable, outcome).results
    ensures isCallable(k)
    ensures exists i :: 0 <= i < |ls| && ls[i].callable.Named? && CollapseBackslashes(ls[i].callable.name) == k
    decreases |ls|
  {
    var init := ls[..|ls| - 1];
    var st := RunAll(init, args, isCallable, outcome);
    var l := ls[|ls| - 1];
    if k in st.results {
      RunResultKeys(init, args, isCallable, outcome, k);
      var i :| 0 <= i < |init| && init[i].callable.Named? && CollapseBackslashes(init[i].callable.name) == k;
      assert ls[i] == init[i];
    } else {
      assert l.callable.Named? && CollapseBackslashes(l.callable.name) == k;
    }
  }

  /** The value stored under a name is what the call of that name returned. */
  lemma {:induction false} RunResultValues<A, R>(ls: seq<Listener>, args: Args<A>, isCallable: string -> bool, outcome: (Callback, seq<A>) -> Outcome<R>, k: string)
    requires k in RunAll(ls, args, isCallable, outcome).results
    ensures outcome(Named(k), Passed(args)) == Returned(RunAll(ls, args, isCallable, outcome).results[k])
    decreases |ls|
  {
    var init := ls[..|ls| - 1];
    var st := RunAll(init, args, isCallable, outcome);
    if k in st.results && RunAll(ls, args, isCallable, outcome).results[k] == st.results[k] {
      RunResultValues(init, args, isCallable, outcome, k);
    }
  }

  /**
   * Without an Error, every callable name whose call returns has its value stored, under its
   * normalised name.
   */
  lemma {:induction false} RunStoresReturned<A, R>(ls: seq<Listener>, args: Args<A>, isCallable: string -> bool, outcome: (Callback, seq<A>) -> Outcome<R>, i: nat)
    requires NoFatal(args, outcome)
    requires i < |ls| && ls[i].callable.Named? && isCallable(CollapseBackslashes(ls[i].callable.name))
    requires outcome(Named(CollapseBackslashes(ls[i].callable.name)), Passed(args)).Returned?
    ensures CollapseBackslashes(ls[i].callable.name) in RunAll(ls, args, isCallable, outcome).results
    decreases |ls|
  {
    var init := ls[..|ls| - 1];
    var k := CollapseBackslashes(ls[i].callable.name);
    if i == |ls| - 1 {
      RunCallsAll(init, args, isCallable, outcome);
    } else {
      assert init[i] == ls[i];
      RunStoresReturned(init, args, isCallable, outcome, i);
      assert k in RunAll(init, args, isCallable, outcome).results;
    }
  }

  /** Calling with `true` and with `false` is the same: neither passes any argument. */
  lemma {:induction false} RunSameArgs<A, R>(ls: seq<Listener>, a: Args<A>, b: Args<A>, isCallable: string -> bool, outcome: (Callback, seq<A>) -> Outcome<R>)
    requires Passed(a) == Passed(b)
    ensures RunAll(ls, a, isCallable, outcome) == RunAll(ls, b, isCallable, outcome)
    decreases |ls|
  {
    if ls != [] {
      RunSameArgs(ls[..|ls| - 1], a, b, isCallable, outcome);
    }
  }

  /** What fireEvent returns: an Error escapes; collected failures are raised together; otherwise the results. */
  datatype Fired<R> = Results(results: map<string, R>) | Raised(failures: seq<Failure>) | Escaped(message: string)

  function Conclude<R>(run: Run<R>): Fired<R> {
    if run.fatal.Some? then Escaped(run.fatal.value)
    else if run.failures != [] then Raised(run.failures)
    else Results(run.results)
  }

  /** The recursion check: the event is running and the call is not forced. */
  predicate Blocked(running: map<string, bool>, name: string, force: bool) {
    name in running && running[name] && !force
  }

  /**
   * fireEvent with no nested fire in between: the result, the new running flags, and the calls
   * made. A blocked or unknown event runs nothing; otherwise the flag is set for the loop and
   * cleared after it unless an Error escaped.
   */
  function Fire<A, R>(r: Registry, running: map<string, bool>, event: string, args: Args<A>, force: bool,
                      isCallable: string -> bool, outcome: (Callback, seq<A>) -> Outcome<R>): (Fired<R>, map<string, bool>, seq<Callback>)
  {
    var name := EventName(event);
    if Blocked(running, name, force) || name !in r then (Results(map[]), running, [])
    else
      var run := RunAll(SortByPriority(r[name]), args, isCallable, outcome);
      (Conclude(run), if run.fatal.Some? then running[name := true] else running[name := false], run.calls)
  }

  /** A running event fired again without force returns no results, runs nothing and changes no flag. */
  lemma FireBlocked<A, R>(r: Registry, running: map<string, bool>, event: string, args: Args<A>,
                          isCallable: string -> bool, outcome: (Callback, seq<A>) -> Outcome<R>)
    requires EventName(event) in running && running[EventName(event)]
    ensures Fire(r, running, event, args, false, isCallable, outcome) == (Results(map[]), running, [])
  {
  }

  /** Without an Error the flag is cleared afterwards, whether or not the call was forced, and no other flag changes. */
  lemma FireClearsFlag<A, R>(r: Registry, running: map<string, bool>, event: string, args: Args<A>, force: bool,
                             isCallable: string -> bool, outcome: (Callback, seq<A>) -> Outcome<R>)
    requires EventName(event) in r && !Blocked(running, EventName(event), force) && NoFatal(args, outcome)
    ensures var f := Fire(r, running, event, args, force, isCallable, outcome);
            EventName(event) in f.1 && !f.1[EventName(event)] &&
            (forall e :: e != EventName(event) ==> (e in f.1 <==> e in running) && (e in running ==> f.1[e] == running[e])) &&
            !f.0.Escaped?
  {
    RunCallsAll(SortByPriority(r[EventName(event)]), args, isCallable, outcome);
  }

  /** After an Error escaped, the flag stays set: every later unforced fire of the event runs nothing. */
  lemma FatalBlocksLater<A, R>(r: Registry, running: map<string, bool>, event: string, args: Args<A>, force: bool,
                               isCallable: string -> bool, outcome: (Callback, seq<A>) -> Outcome<R>, later: Args<A>)
    requires Fire(r, running, event, args, force, isCallable, outcome).0.Escaped?
    ensures var f := Fire(r, running, event, args, force, isCallable, outcome);
            Fire(r, f.1, event, later, false, isCallable, outcome) == (Results(map[]), f.1, [])
  {
  }

  /** A fired event calls its callbacks in the order of the sorted copy, and collects the failures of all of them. */
  lemma FireRunsSorted<A, R>(r: Registry, running: map<string, bool>, event: string, args: Args<A>, force: bool,
                             isCallable: string -> bool, outcome: (Callback, seq<A>) -> Outcome<R>)
    requires EventName(event) in r && !Blocked(running, EventName(event), force) && NoFatal(args, outcome)
    ensures var f := Fire(r, running, event, args, force, isCallable, outcome);
            var calls := Invoked(SortByPriority(r[EventName(event)]), isCallable);
            f.2 == calls && (f.0.Raised? <==> AnyThrew(calls, args, outcome))
  {
    RunCallsAll(SortByPriority(r[EventName(event)]), args, isCallable, outcome);
  }

  /** Two entries in descending priority are swapped by the sort. */
  lemma SortSwapsPair(a: Listener, b: Listener)
    requires a.priority > b.priority
    ensures SortByPriority([a, b]) == [b, a]
  {
    assert [a, b][1..] == [b];
    SortSingle(b);
    assert InsertByPriority(a, [b]) == [b] + InsertByPriority(a, []);
  }

  lemma SortSingle(a: Listener)
    ensures SortByPriority([a]) == [a]
  {
    assert [a][1..] == [];
  }

  /** The loop over one or two entries is one or two steps. */
  lemma RunShort<A, R>(a: Listener, b: Listener, args: Args<A>, isCallable: string -> bool, outcome: (Callback, seq<A>) -> Outcome<R>)
    ensures RunAll([a], args, isCallable, outcome) == Step(NoRun(), a, args, isCallable, outcome)
    ensures RunAll([a, b], args, isCallable, outcome) == Step(Step(NoRun(), a, args, isCallable, outcome), b, args, isCallable, outcome)
  {
    assert [a][..0] == [];
    assert [a, b][..1] == [a];
  }

  /** Firing an event that is not blocked runs its sorted list and records whether an Error left the flag set. */
  lemma FireRuns<A, R>(r: Registry, running: map<string, bool>, event: string, args: Args<A>, force: bool,
                       isCallable: string -> bool, outcome: (Callback, seq<A>) -> Outcome<R>)
    requires EventName(event) in r && !Blocked(running, EventName(event), force)
    ensures var run := RunAll(SortByPriority(r[EventName(event)]), args, isCallable, outcome);
            Fire(r, running, event, args, force, isCallable, outcome) == (Conclude(run), running[EventName(event) := run.fatal.Some?], run.calls)
  {
  }

  /** Firing an event with a single entry is one step of the loop. */
  lemma FireSingle<A, R>(r: Registry, running: map<string, bool>, event: string, l: Listener, args: Args<A>, force: bool,
                         isCallable: string -> bool, outcome: (Callback, seq<A>) -> Outcome<R>)
    requires EventName(event) in r && r[EventName(event)] == [l] && !Blocked(running, EventName(event), force)
    ensures var st := Step(NoRun(), l, args, isCallable, outcome);
            Fire(r, running, event, args, force, isCallable, outcome) == (Conclude(st), running[EventName(event) := st.fatal.Some?], st.calls)
  {
    SortSingle(l);
    RunShort(l, l, args, isCallable, outcome);
    FireRuns(r, running, event, args, force, isCallable, outcome);
  }

  /** Once an Error has escaped, the rest of the list changes nothing. */
  lemma {:induction false} RunStaysFatal<A, R>(ls: seq<Listener>, k: nat, args: Args<A>, isCallable: string -> bool, outcome: (Callback, seq<A>) -> Outcome<R>)
    requires k <= |ls| && RunAll(ls[..k], args, isCallable, outcome).fatal.Some?
    ensures RunAll(ls, args, isCallable, outcome) == RunAll(ls[..k], args, isCallable, outcome)
    decreases |ls| - k
  {
    if k == |ls| {
      assert ls[..k] == ls;
    } else {
      assert ls[..|ls| - 1][..k] == ls[..k];
      RunStaysFatal(ls[..|ls| - 1], k, args, isCallable, outcome);
    }
  }

  /** The loop of fireEvent over the sorted copy. */
  method RunListeners<A, R>(listeners: seq<Listener>, args: Args<A>, isCallable: string -> bool, outcome: (Callback, seq<A>) -> Outcome<R>)
    returns (run: Run<R>)
    ensures run == RunAll(listeners, args, isCallable, outcome)
  {
    var results: map<string, R> := map[];
    var failures: seq<Failure> := [];
    var calls: seq<Callback> := [];
    var i := 0;
    while i < |listeners|
      invariant 0 <= i <= |listeners|
      invariant RunAll(listeners[..i], args, isCallable, outcome) == Run(results, failures, calls, None)
    {
      assert listeners[..i + 1][..i] == listeners[..i];
      var fn := listeners[i].callable;
      match fn {
        case Closure(_) =>
          match outcome(fn, Passed(args)) {
            case Returned(_) =>
              calls := calls + [fn];
            case Threw(m, code) =>
              calls := calls + [fn];
              failures := failures + [Failure(m, code)];
            case Fatal(m) =>
              calls := calls + [fn];
              RunStaysFatal(listeners, i + 1, args, isCallable, outcome);
              return Run(results, failures, calls, Some(m));
          }
        case Named(s) =>
          var name := CollapseBackslashes(s);
          if isCallable(name) {
            match outcome(Named(name), Passed(args)) {
              case Returned(v) =>
                calls := calls + [Named(name)];
                results := results[name := v];
              case Threw(m, code) =>
                calls := calls + [Named(name)];
                failures := failures + [Failure(m + " :: " + name, code)];
              case Fatal(m) =>
                calls := calls + [Named(name)];
                RunStaysFatal(listeners, i + 1, args, isCallable, outcome);
                return Run(results, failures, calls, Some(m));
            }
          }
      }
      i := i + 1;
    }
    assert listeners[..i] == listeners;
    run := Run(results, failures, calls, None);
  }

  // ---------------------------------------------------------------------------------
  // The registry object

  class Events {
    /** The registered events: event name to its entries. */
    var events: Registry
    /** The recursion flags of fireEvent, by event name. */
    var currentRunning: map<string, bool>

    constructor ()
      ensures events == map[] && currentRunning == map[]
    {
      events := map[];
      currentRunning := map[];
    }

    method GetList() returns (list: Registry)
      ensures list == events
    {
      list := events;
    }

    method AddEvent(event: string, fn: Callback, priority: int)
      modifies this
      ensures events == Added(old(events), event, fn, priority)
      ensures currentRunning == old(currentRunning)
    {
      if event !in events {
        events := events[event := []];
      }
      var ls := events[event];
      var i := 0;
      while i < |ls|
        invariant 0 <= i <= |ls|
        invariant forall j :: 0 <= j < i ==> ls[j].callable != fn
      {
        if ls[i].callable == fn {
          assert Registered(ls, fn);
          return;
        }
        i := i + 1;
      }
      events := events[event := ls + [Listener(fn, priority)]];
    }

    method AddEvents(pairs: seq<(string, Callback)>)
      modifies this
      ensures events == AddedAll(old(events), pairs)
      ensures currentRunning == old(currentRunning)
    {
      var i := 0;
      while i < |pairs|
        invariant 0 <= i <= |pairs|
        invariant events == AddedAll(old(events), pairs[..i])
        invariant currentRunning == old(currentRunning)
      {
        assert pairs[..i + 1][..i] == pairs[..i];
        AddEvent(pairs[i].0, pairs[i].1, 0);
        i := i + 1;
      }
      assert pairs[..i] == pairs;
    }

    method RemoveEvent(event: string, sel: Selector, isCallable: string -> bool)
      modifies this
      ensures events == Removed(old(events), event, sel, isCallable)
      ensures currentRunning == old(currentRunning)
    {
      if event !in events {
        return;
      }
      var s := Coerce(sel, isCallable);
      if Falsy(s) {
        events := events - {event};
        return;
      }
      var ls := events[event];
      var kept: seq<Listener> := [];
      var i := 0;
      while i < |ls|
        invariant 0 <= i <= |ls|
        invariant kept == Without(ls[..i], s)
      {
        assert ls[..i + 1][..i] == ls[..i];
        if !Selects(s, ls[i].callable) {
          kept := kept + [ls[i]];
        }
        i := i + 1;
      }
      assert ls[..i] == ls;
      events := events[event := kept];
    }

    method RemoveEvents(pairs: seq<(string, Selector)>, isCallable: string -> bool)
      modifies this
      ensures events == RemovedAll(old(events), pairs, isCallable)
      ensures currentRunning == old(currentRunning)
    {
      var i := 0;
      while i < |pairs|
        invariant 0 <= i <= |pairs|
        invariant events == RemovedAll(old(events), pairs[..i], isCallable)
        invariant currentRunning == old(currentRunning)
      {
        assert pairs[..i + 1][..i] == pairs[..i];
        RemoveEvent(pairs[i].0, pairs[i].1, isCallable);
        i := i + 1;
      }
      assert pairs[..i] == pairs;
    }

    /**
     * The part of fireEvent before its loop: the name, the recursion check, the check for
     * entries, setting the flag and the sorted copy. A callback that fires events again does so
     * between this and FinishFire.
     */
    method StartFire(event: string, force: bool) returns (name: string, go: bool, listeners: seq<Listener>)
      modifies this
      ensures events == old(events)
      ensures name == EventName(event)
      ensures go <==> !Blocked(old(currentRunning), name, force) && name in events
      ensures go ==> listeners == SortByPriority(events[name]) && currentRunning == old(currentRunning)[name := true]
      ensures !go ==> listeners == [] && currentRunning == old(currentRunning)
    {
      name := event;
      if !StartsWith(name, "on") {
        name := "on" + UcFirst(name);
      }
      if name in currentRunning && currentRunning[name] && !force {
        return name, false, [];
      }
      if name !in events {
        return name, false, [];
      }
      currentRunning := currentRunning[name := true];
      listeners := SortByPriority(events[name]);
      go := true;
    }

    /** The part after the loop: the flag is cleared, then the failures are raised or the results returned. */
    method FinishFire<R>(name: string, run: Run<R>) returns (fired: Fired<R>)
      modifies this
      ensures events == old(events)
      ensures fired == Conclude(run)
      ensures currentRunning == if run.fatal.Some? then old(currentRunning) else old(currentRunning)[name := false]
    {
      if run.fatal.Some? {
        return Escaped(run.fatal.value);
      }
      currentRunning := currentRunning[name := false];
      if run.failures != [] {
        fired := Raised(run.failures);
      } else {
        fired := Results(run.results);
      }
    }

    /** fireEvent, with the calls it makes. */
    method FireEvent<A, R>(event: string, args: Args<A>, force: bool, isCallable: string -> bool, outcome: (Callback, seq<A>) -> Outcome<R>)
      returns (fired: Fired<R>, calls: seq<Callback>)
      modifies this
      ensures events == old(events)
      ensures (fired, currentRunning, calls) == Fire(old(events), old(currentRunning), event, args, force, isCallable, outcome)
    {
      var name, go, listeners := StartFire(event, force);
      if !go {
        return Results(map[]), [];
      }
      ghost var started := currentRunning;
      var run := RunListeners(listeners, args, isCallable, outcome);
      fired := FinishFire(name, run);
      calls := run.calls;
      assert started[name := false] == old(currentRunning)[name := false];
    }
  }
}
