/**
 * The registry's unit-test scenarios, each run on a fresh registry. An event is registered
 * under its normalised name and fired by the name given (`run` fires `onRun`). Callbacks that change
 * outside state (a counter, a list of calls) are read off the calls the model records. A
 * callback that fires events again is written out between StartFire and FinishFire of the
 * outer fire.
 */
module EventScenarios {
  import opened Wrappers
  import opened EventRegistry

  /** Every call returns 0. */
  function Quiet(c: Callback, a: seq<int>): Outcome<int> {
    Returned(0)
  }

  function NoneCallable(n: string): bool {
    false
  }

  /** Adding the same closure twice leaves one entry. */
  method DuplicateAddedOnce() returns (count: nat)
    ensures count == 1
  {
    var e := new Events();
    e.AddEvent("onTest", Closure(0), 0);
    e.AddEvent("onTest", Closure(0), 0);
    AddedTwice(map[], "onTest", Closure(0), 0, 0);
    var list := e.GetList();
    count := |list["onTest"]|;
  }

  /** The closure added second, with the lower priority, runs first. */
  method PriorityOrder(event: string) returns (calls: seq<Callback>)
    ensures calls == [Closure(1), Closure(0)]
  {
    var a, b := Listener(Closure(0), 10), Listener(Closure(1), 0);
    assert !Registered([a], Closure(1)) by {
      assert [a][0].callable != Closure(1);
    }
    SortSwapsPair(a, b);
    RunShort(b, a, Bare(false), NoneCallable, Quiet);
    ghost var run := Step(Step(NoRun(), b, Bare(false), NoneCallable, Quiet), a, Bare(false), NoneCallable, Quiet);
    assert run.calls == [Closure(1), Closure(0)];
    var e := new Events();
    e.AddEvent(EventName(event), Closure(0), 10);
    assert e.events == map[EventName(event) := [a]] by {
      assert [] + [a] == [a];
    }
    e.AddEvent(EventName(event), Closure(1), 0);
    assert e.events == map[EventName(event) := [a, b]] by {
      assert [a] + [b] == [a, b];
    }
    FireRuns(e.events, e.currentRunning, event, Bare(false), false, NoneCallable, Quiet);
    var fired;
    fired, calls := e.FireEvent(event, Bare(false), false, NoneCallable, Quiet);
  }

  /** A string callable's value is returned under its name. */
  method NamedResult(event: string, name: string) returns (fired: Fired<int>)
    requires NoDoubleBackslash(name)
    ensures fired == Results(map[name := 7])
  {
    var l := Listener(Named(name), 0);
    var e := new Events();
    e.AddEvent(EventName(event), Named(name), 0);
    assert e.events == map[EventName(event) := [l]] by {
      assert [] + [l] == [l];
    }
    CollapseSpec(name);
    var isCallable := (n: string) => n == name;
    var add := (c: Callback, a: seq<int>) => if |a| == 2 then Returned(a[0] + a[1]) else Returned(0);
    ghost var step := Step(NoRun(), l, Arguments([2, 5]), isCallable, add);
    assert Conclude(step) == Results(map[name := 7]) by {
      assert add(Named(name), [2, 5]) == Returned(7);
    }
    FireSingle(e.events, e.currentRunning, event, l, Arguments([2, 5]), false, isCallable, add);
    var calls;
    fired, calls := e.FireEvent(event, Arguments([2, 5]), false, isCallable, add);
  }

  /** The registries the removal scenario passes through. */
  lemma RemoveSteps(event: string)
    ensures var a, b := Listener(Closure(1), 0), Listener(Closure(2), 0);
            Added(map[], event, Closure(1), 0) == map[event := [a]] &&
            Added(map[event := [a]], event, Closure(2), 0) == map[event := [a, b]] &&
            Removed(map[event := [a, b]], event, Fn(Closure(1)), NoneCallable) == map[event := [b]] &&
            RemovedAll(map[event := [b]], [(event, Fn(Closure(2)))], NoneCallable) == map[event := []]
  {
    var a, b := Listener(Closure(1), 0), Listener(Closure(2), 0);
    assert Added(map[], event, Closure(1), 0) == map[event := [a]] by {
      assert [] + [a] == [a];
    }
    assert Added(map[event := [a]], event, Closure(2), 0) == map[event := [a, b]] by {
      assert !Registered([a], Closure(2)) by {
        assert [a][0].callable != Closure(2);
      }
      assert [a] + [b] == [a, b];
    }
    assert Removed(map[event := [a, b]], event, Fn(Closure(1)), NoneCallable) == map[event := [b]] by {
      assert Coerce(Fn(Closure(1)), NoneCallable) == Fn(Closure(1));
      assert Without([a], Fn(Closure(1))) == [] by {
        assert [a][..0] == [];
      }
      assert Without([a, b], Fn(Closure(1))) == [b] by {
        assert [a, b][..1] == [a];
      }
    }
    assert RemovedAll(map[event := [b]], [(event, Fn(Closure(2)))], NoneCallable) == map[event := []] by {
      assert [(event, Fn(Closure(2)))][..0] == [];
      assert Coerce(Fn(Closure(2)), NoneCallable) == Fn(Closure(2));
      assert Without([b], Fn(Closure(2))) == [] by {
        assert [b][..0] == [];
      }
    }
  }

  /** Removing one closure leaves the other; removing that too leaves the event with no entries. */
  method RemoveOneThenOther(event: string) returns (afterOne: nat, afterBoth: nat, present: bool)
    ensures afterOne == 1 && afterBoth == 0 && present
  {
    var a, b := Listener(Closure(1), 0), Listener(Closure(2), 0);
    RemoveSteps(event);
    var e := new Events();
    e.AddEvent(event, Closure(1), 0);
    assert e.events == map[event := [a]];
    e.AddEvent(event, Closure(2), 0);
    assert e.events == map[event := [a, b]];
    e.RemoveEvent(event, Fn(Closure(1)), NoneCallable);
    assert e.events == map[event := [b]];
    var list := e.GetList();
    afterOne := |list[event]|;
    e.RemoveEvents([(event, Fn(Closure(2)))], NoneCallable);
    assert e.events == map[event := []];
    list := e.GetList();
    present := event in list;
    afterBoth := |list[event]|;
  }

  /** addEvents registers a closure that then runs once; removing with false drops the event. */
  method AddManyThenDropEvent(event: string) returns (calls: seq<Callback>, present: bool)
    ensures calls == [Closure(0)] && !present
  {
    var l := Listener(Closure(0), 0);
    var e := new Events();
    e.AddEvents([(EventName(event), Closure(0))]);
    assert e.events == map[EventName(event) := [l]] by {
      assert [(EventName(event), Closure(0))][..0] == [];
      assert [] + [l] == [l];
    }
    ghost var step := Step(NoRun(), l, Bare(false), NoneCallable, Quiet);
    assert step.calls == [Closure(0)];
    FireSingle(e.events, e.currentRunning, event, l, Bare(false), false, NoneCallable, Quiet);
    var fired;
    fired, calls := e.FireEvent(event, Bare(false), false, NoneCallable, Quiet);
    e.RemoveEvent(EventName(event), Flag(false), NoneCallable);
    var list := e.GetList();
    present := EventName(event) in list;
  }

  /**
   * Removing a missing event changes nothing and firing it returns nothing. A closure that fires its
   * own event again with force runs twice; the nested fire clears the flag while the outer one is
   * still running.
   */
  method MissingAndForced(missingEvent: string, event: string) returns (missing: Fired<int>, counter: nat, flagAfterNested: bool)
    ensures missing == Results(map[]) && counter == 2 && !flagAfterNested
  {
    var l := Listener(Closure(0), 0);
    var e := new Events();
    e.RemoveEvent(EventName(missingEvent), Flag(false), NoneCallable);
    e.RemoveEvents([(EventName(missingEvent), Flag(false))], NoneCallable);
    assert e.events == map[] by {
      assert [(EventName(missingEvent), Flag(false))][..0] == [];
    }
    var calls;
    missing, calls := e.FireEvent(missingEvent, Bare(false), false, NoneCallable, Quiet);
    e.AddEvent(EventName(event), Closure(0), 0);
    assert e.events == map[EventName(event) := [l]] by {
      assert [] + [l] == [l];
    }
    SortSingle(l);
    RunShort(l, l, Bare(false), NoneCallable, Quiet);
    var name, go, listeners := e.StartFire(event, false);
    // the closure's first run fires the event again with force; its second run does not
    FireRuns(e.events, e.currentRunning, event, Bare(false), true, NoneCallable, Quiet);
    var inner, innerCalls := e.FireEvent(event, Bare(false), true, NoneCallable, Quiet);
    flagAfterNested := e.currentRunning[name];
    var run := RunListeners(listeners, Bare(false), NoneCallable, Quiet);
    var fired := e.FinishFire(name, run);
    counter := |run.calls| + |innerCalls|;
  }

  /** A closure that fires its own event again without force runs once. */
  method GuardedLoop(event: string) returns (sum: nat)
    ensures sum == 1
  {
    var l := Listener(Closure(0), 0);
    var e := new Events();
    e.AddEvent(EventName(event), Closure(0), 0);
    assert e.events == map[EventName(event) := [l]] by {
      assert [] + [l] == [l];
    }
    ghost var step := Step(NoRun(), l, Bare(false), NoneCallable, Quiet);
    assert |step.calls| == 1;
    SortSingle(l);
    RunShort(l, l, Bare(false), NoneCallable, Quiet);
    var name, go, listeners := e.StartFire(event, false);
    assert listeners == [l] && e.currentRunning[name];
    FireBlocked(e.events, e.currentRunning, event, Bare(false), NoneCallable, Quiet);
    var nested, nestedCalls := e.FireEvent(event, Bare(false), false, NoneCallable, Quiet);
    assert nestedCalls == [];
    var run := RunListeners(listeners, Bare(false), NoneCallable, Quiet);
    assert run == step;
    var fired := e.FinishFire(name, run);
    sum := |run.calls| + |nestedCalls|;
  }

  /** A throwing closure makes the fire raise the collected failure. */
  method ThrowingClosure(event: string) returns (fired: Fired<int>)
    ensures fired == Raised([Failure("boom", 0)])
  {
    var l := Listener(Closure(0), 0);
    var e := new Events();
    e.AddEvent(EventName(event), Closure(0), 0);
    assert e.events == map[EventName(event) := [l]] by {
      assert [] + [l] == [l];
    }
    var boom := (c: Callback, a: seq<int>) => Threw("boom", 0);
    ghost var step := Step(NoRun(), l, Bare(false), NoneCallable, boom);
    assert Conclude(step) == Raised([Failure("boom", 0)]) by {
      assert boom(Closure(0), []) == Threw("boom", 0);
    }
    FireSingle(e.events, e.currentRunning, event, l, Bare(false), false, NoneCallable, boom);
    var calls;
    fired, calls := e.FireEvent(event, Bare(false), false, NoneCallable, boom);
  }

  /** Every call without arguments returns 42. */
  function NoArgValue(c: Callback, a: seq<int>): Outcome<int> {
    if a == [] then Returned(42) else Returned(0)
  }

  /** `true` as the arguments calls a closure once, without arguments. */
  method ClosureWithTrue(event: string) returns (calls: seq<Callback>)
    ensures calls == [Closure(0)]
  {
    var l := Listener(Closure(0), 0);
    var e := new Events();
    e.AddEvent(EventName(event), Closure(0), 0);
    assert e.events == map[EventName(event) := [l]] by {
      assert [] + [l] == [l];
    }
    ghost var step := Step(NoRun(), l, Bare(true), NoneCallable, NoArgValue);
    assert step.calls == [Closure(0)] by {
      assert NoArgValue(Closure(0), Passed(Bare(true))) == Returned(42);
    }
    FireSingle(e.events, e.currentRunning, event, l, Bare(true), false, NoneCallable, NoArgValue);
    var fired;
    fired, calls := e.FireEvent(event, Bare(true), false, NoneCallable, NoArgValue);
  }

  /** A string callable returns its value with false and with true as the arguments, and runs each time. */
  method NamedWithoutArguments(event: string, name: string) returns (withFalse: Fired<int>, withTrue: Fired<int>, runs: nat)
    requires NoDoubleBackslash(name)
    ensures withFalse == Results(map[name := 42]) && withTrue == withFalse && runs == 2
  {
    var l := Listener(Named(name), 0);
    var e := new Events();
    e.AddEvent(EventName(event), Named(name), 0);
    assert e.events == map[EventName(event) := [l]] by {
      assert [] + [l] == [l];
    }
    CollapseSpec(name);
    var isCallable := (n: string) => n == name;
    ghost var stepFalse := Step(NoRun(), l, Bare(false), isCallable, NoArgValue);
    ghost var stepTrue := Step(NoRun(), l, Bare(true), isCallable, NoArgValue);
    assert Conclude(stepFalse) == Results(map[name := 42]) && |stepFalse.calls| == 1 && stepFalse.fatal.None? by {
      assert NoArgValue(Named(name), []) == Returned(42);
    }
    assert stepTrue == stepFalse;
    FireSingle(e.events, e.currentRunning, event, l, Bare(false), false, isCallable, NoArgValue);
    var calls, more;
    withFalse, calls := e.FireEvent(event, Bare(false), false, isCallable, NoArgValue);
    FireSingle(e.events, e.currentRunning, event, l, Bare(true), false, isCallable, NoArgValue);
    withTrue, more := e.FireEvent(event, Bare(true), false, isCallable, NoArgValue);
    runs := |calls| + |more|;
  }

  /** A name that is not callable is skipped: nothing runs and nothing is returned. */
  method NotCallableSkipped(event: string, name: string) returns (fired: Fired<int>, calls: seq<Callback>)
    ensures fired == Results(map[]) && calls == []
  {
    var l := Listener(Named(name), 0);
    var e := new Events();
    e.AddEvent(EventName(event), Named(name), 0);
    assert e.events == map[EventName(event) := [l]] by {
      assert [] + [l] == [l];
    }
    ghost var step := Step(NoRun(), l, Bare(false), NoneCallable, NoArgValue);
    assert step == NoRun();
    FireSingle(e.events, e.currentRunning, event, l, Bare(false), false, NoneCallable, NoArgValue);
    fired, calls := e.FireEvent(event, Bare(false), false, NoneCallable, NoArgValue);
  }
}
