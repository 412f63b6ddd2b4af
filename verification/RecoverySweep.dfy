/** The sweeps as startup runs them, step by step, any of whose calls may fail. */
module RecoverySweep {
  import opened Recovery
  import opened RecoveryRuns
  import opened Wrappers

  /** Startup stops because a call failed, or because what it found is not safe to go on from. */
  datatype Stop = CallFailed | Refusal

  /** From `s`, exactly the first of `steps` have happened, and the log says so. */
  ghost predicate Went(s: Store, was: seq<Store>, t: Store, log: seq<Store>, steps: seq<Store>) {
    && |was| <= |log| <= |was| + |steps|
    && log == was + steps[..|log| - |was|]
    && t == LastStore(s, steps[..|log| - |was|])
  }

  lemma WentNowhere(s: Store, log: seq<Store>, steps: seq<Store>)
    ensures Went(s, log, s, log, steps)
  {
  }

  lemma WentPart(s: Store, was: seq<Store>, t: Store, log: seq<Store>, steps: seq<Store>, more: seq<Store>)
    requires Went(s, was, t, log, steps)
    ensures Went(s, was, t, log, steps + more)
  {
    var n := |log| - |was|;
    assert (steps + more)[..n] == steps[..n];
  }

  lemma WentOn(s: Store, was: seq<Store>, m: Store, mid: seq<Store>, steps: seq<Store>,
               t: Store, log: seq<Store>, more: seq<Store>)
    requires Went(s, was, m, mid, steps) && |mid| == |was| + |steps|
    requires Went(m, mid, t, log, more)
    ensures Went(s, was, t, log, steps + more)
  {
    var n := |log| - |mid|;
    assert steps[..|steps|] == steps;
    assert (steps + more)[..|steps| + n] == steps + more[..n];
    assert log == was + (steps + more[..n]);
  }

  lemma WentAll(s: Store, was: seq<Store>, t: Store, log: seq<Store>, steps: seq<Store>)
    requires Went(s, was, t, log, steps) && |log| == |was| + |steps|
    ensures t == LastStore(s, steps) && log == was + steps
  {
    assert steps[..|steps|] == steps;
  }

  lemma LiftTwice(s: Store, id: Id, slot: Slot, trace: seq<Slot>, more: seq<Slot>)
    ensures Lift(s, id, trace + more) == Lift(s, id, trace) + Lift(s[id := slot], id, more)
    ensures Lift(s, id, trace + []) == Lift(s, id, trace)
  {
    assert trace + [] == trace;
    forall k | 0 <= k < |more| ensures s[id := slot][id := more[k]] == s[id := more[k]] {
    }
  }

  /** What a sweep still has to do from the `i`-th entry of its listing on. */
  function Rest(pass: Pass, s: Store, order: seq<Id>, i: nat): Sweep
    requires i <= |order|
  {
    SweepEach(pass, s, order[i..])
  }

  predicate ListedFrom(pass: Pass, s: Store, order: seq<Id>, i: nat) {
    forall j | i <= j < |order| :: order[j] in s && Listed(pass, s[order[j]])
  }

  lemma RestSplits(pass: Pass, s: Store, order: seq<Id>, i: nat)
    requires i < |order| && Distinct(order) && ListedFrom(pass, s, order, i)
    ensures order[i] in s && Listed(pass, s[order[i]])
    ensures var one := SweepOne(pass, s, order[i]);
            var now := LastStore(s, one.trace);
            && (one.refused ==> Rest(pass, s, order, i) == one)
            && (!one.refused ==>
                  && Rest(pass, s, order, i).trace == one.trace + Rest(pass, now, order, i + 1).trace
                  && Rest(pass, s, order, i).refused == Rest(pass, now, order, i + 1).refused
                  && ListedFrom(pass, now, order, i + 1))
  {
    hide SweepOne, Listed, Reached;
    assert order[i..][1..] == order[i + 1..];
    OneStep(pass, s, order[i]);
  }

  lemma SweepStarts(pass: Pass, s: Store, order: seq<Id>)
    requires Order(pass, s, order)
    ensures SweepEach(pass, s, order) == Rest(pass, s, order, 0)
    ensures ListedFrom(pass, s, order, 0)
  {
    assert order[0..] == order;
  }

  lemma SweptAll(pass: Pass, s: Store, order: seq<Id>)
    ensures Rest(pass, s, order, |order|) == Sweep([], false)
  {
  }

  lemma StopKinds(stop: Stop)
    ensures stop == CallFailed || stop == Refusal
  {
  }

  lemma UnreadableIsRefused(pass: Pass, s: Slot)
    requires Listed(pass, s)
    ensures VerdictOn(pass, s, Refused).Refuse?
  {
  }

  class LocalState {
    /** Which calls to the file system fail, by the order in which they are made. */
    const fails: nat -> bool
    var calls: nat
    var store: Store
    ghost var log: seq<Store>

    constructor (store: Store, fails: nat -> bool)
      ensures this.store == store && this.fails == fails && calls == 0 && log == []
    {
      this.store := store;
      this.fails := fails;
      this.calls := 0;
      this.log := [];
    }

    ghost predicate AnyFailed(from: nat, to: nat) {
      exists k: nat :: from <= k < to && fails(k)
    }

    method Call() returns (ok: bool)
      modifies this`calls
      ensures calls == old(calls) + 1 && ok == !fails(old(calls))
    {
      ok := !fails(calls);
      calls := calls + 1;
    }

    method Put(id: Id, slot: Slot)
      modifies this`store, this`log
      ensures store == old(store)[id := slot] && log == old(log) + [store]
    {
      store := store[id := slot];
      log := log + [store];
    }

    /** Reads the terminal of one session, and finishes its publication when that was interrupted. */
    method CommittedTerminalForSweep(id: Id) returns (r: Result<Option<Ending>, Stop>)
      requires id in store
      modifies this
      ensures var reading := CommittedTerminal(old(store)[id]);
              && Went(old(store), old(log), store, log, Lift(old(store), id, reading.trace))
              && (r.Ok? ==> |log| == |old(log)| + |reading.trace|
                            && reading.commit == (if r.value.Some? then Committed(r.value.value) else NoTerminal))
              && (r == Err(Refusal) ==> reading.commit.Refused?)
      ensures calls >= old(calls) && (r == Err(CallFailed) <==> AnyFailed(old(calls), calls))
    {
      var slot := store[id];
      var ok := Call();
      if !ok {
        return Err(CallFailed);
      }
      if slot.dir.None? {
        return Ok(None);
      }
      var dir := slot.dir.value;
      if !dir.directory || (dir.finished.Some? && !dir.finished.value.private)
         || (dir.temporary.Some? && !dir.temporary.value.private) {
        return Err(Refusal);
      }
      if dir.finished.None? && dir.temporary.None? {
        return Ok(None);
      }
      ok := Call();
      if !ok {
        return Err(CallFailed);
      }
      if dir.finished.None? || dir.finished.value.body.None? {
        return Err(Refusal);
      }
      if dir.temporary.Some? && dir.temporary.value.inode != dir.finished.value.inode {
        return Err(Refusal);
      }
      ok := Call();
      if !ok {
        return Err(CallFailed);
      }
      Put(id, slot.(dir := Some(dir.(durable := true))));
      ghost var steps := Lift(old(store), id, CommittedTerminal(slot).trace);
      assert steps[..1] == [store];
      if dir.temporary.Some? {
        ok := Call();
        if !ok {
          return Err(CallFailed);
        }
        Put(id, slot.(dir := Some(dir.(durable := true, temporary := None))));
        assert store == old(store)[id := store[id]];
        assert steps[..2] == steps == [steps[0], store];
        ok := Call();
        if !ok {
          return Err(CallFailed);
        }
      }
      return Ok(dir.finished.value.body);
    }

    /** Removes a tree or a directory; a failure may leave a raw tree with some entries gone. */
    method DisposeOf(pass: Pass, id: Id) returns (ok: bool)
      requires id in store && Listed(pass, store[id])
      modifies this
      ensures Went(old(store), old(log), store, log, Lift(old(store), id, Disposal(pass, old(store)[id])))
      ensures ok ==> |log| == |old(log)| + |Disposal(pass, old(store)[id])|
      ensures calls >= old(calls) && (!ok <==> AnyFailed(old(calls), calls))
    {
      var slot := store[id];
      ghost var steps := Lift(old(store), id, Disposal(pass, slot));
      ok := Call();
      if !ok {
        return;
      }
      if pass.ResultPass? {
        Put(id, slot.(dir := None));
        assert steps[..1] == [store];
        return;
      }
      Put(id, slot.(raw := Some(slot.raw.value.(layout := Other))));
      assert steps[..1] == [store];
      ok := Call();
      if !ok {
        return;
      }
      Put(id, slot.(raw := None));
      assert store == old(store)[id := store[id]];
      assert steps[..2] == steps == [steps[0], store];
    }

    /** One entry of the directory being swept. */
    method SweepEntry(pass: Pass, id: Id) returns (stop: Option<Stop>)
      requires id in store && Listed(pass, store[id])
      modifies this
      ensures Went(old(store), old(log), store, log, SweepOne(pass, old(store), id).trace)
      ensures stop.None? ==> !SweepOne(pass, old(store), id).refused
                             && |log| == |old(log)| + |SweepOne(pass, old(store), id).trace|
      ensures stop == Some(Refusal) ==> SweepOne(pass, old(store), id).refused
      ensures calls >= old(calls) && (stop == Some(CallFailed) <==> AnyFailed(old(calls), calls))
    {
      hide CommittedTerminal, StateVerdict, ResultVerdict, VerdictOn, Disposal, SafeEntry, Went, Lift;
      ghost var s, was := store, log;
      ghost var reading := CommittedTerminal(s[id]);
      ghost var now := LastSlot(s[id], reading.trace);
      if !SafeEntry(pass, store[id]) {
        WentNowhere(store, log, SweepOne(pass, store, id).trace);
        return Some(Refusal);
      }
      var terminal := CommittedTerminalForSweep(id);
      LiftTwice(s, id, now, reading.trace, Disposal(pass, now));
      WentPart(s, was, store, log, Lift(s, id, reading.trace), Lift(s[id := now], id, Disposal(pass, now)));
      if terminal.Err? {
        assert VerdictOn(pass, now, Refused).Refuse? by { UnreadableIsRefused(pass, now); }
        return Some(terminal.error);
      }
      WentAll(s, was, store, log, Lift(s, id, reading.trace));
      ghost var m, mid := store, log;
      assert m == s[id := now];
      var ok := Call();
      if !ok {
        return Some(CallFailed);
      }
      var commit := if terminal.value.Some? then Committed(terminal.value.value) else NoTerminal;
      var verdict := VerdictOn(pass, store[id], commit);
      if verdict.Refuse? {
        return Some(Refusal);
      }
      if verdict.Keep? {
        return None;
      }
      ok := DisposeOf(pass, id);
      WentOn(s, was, m, mid, Lift(s, id, reading.trace), store, log, Lift(m, id, Disposal(pass, now)));
      return if ok then None else Some(CallFailed);
    }

    /** A whole sweep in the order of its listing; a refusal or a failed call ends it at once. */
    method SweepDirectory(pass: Pass, order: seq<Id>) returns (stop: Option<Stop>)
      requires Order(pass, store, order)
      modifies this
      ensures Went(old(store), old(log), store, log, SweepEach(pass, old(store), order).trace)
      ensures stop.None? ==> !SweepEach(pass, old(store), order).refused
                             && |log| == |old(log)| + |SweepEach(pass, old(store), order).trace|
      ensures stop == Some(Refusal) ==> SweepEach(pass, old(store), order).refused
      ensures calls >= old(calls) && (stop == Some(CallFailed) <==> AnyFailed(old(calls), calls))
    {
      hide SweepOne, Went, Listed, Rest, ListedFrom, SweepEach;
      ghost var s, was := store, log;
      ghost var steps: seq<Store> := [];
      ghost var whole := SweepEach(pass, store, order);
      assert whole == Rest(pass, store, order, 0) && ListedFrom(pass, store, order, 0) by {
        SweepStarts(pass, store, order);
      }
      WentNowhere(store, log, []);
      for i := 0 to |order|
        invariant Went(s, was, store, log, steps) && |log| == |was| + |steps|
        invariant whole.trace == steps + Rest(pass, store, order, i).trace
        invariant whole.refused == Rest(pass, store, order, i).refused
        invariant ListedFrom(pass, store, order, i)
        invariant calls >= old(calls) && !AnyFailed(old(calls), calls)
      {
        ghost var m, mid := store, log;
        ghost var one := SweepOne(pass, store, order[i]);
        ghost var now := LastStore(m, one.trace);
        RestSplits(pass, store, order, i);
        stop := SweepEntry(pass, order[i]);
        WentOn(s, was, m, mid, steps, store, log, one.trace);
        ghost var tail := if one.refused then [] else Rest(pass, now, order, i + 1).trace;
        assert whole.trace == steps + one.trace + tail;
        if stop.Some? {
          WentPart(s, was, store, log, steps + one.trace, tail);
          return;
        }
        WentAll(m, mid, store, log, one.trace);
        steps := steps + one.trace;
      }
      SweptAll(pass, store, order);
      assert whole.trace == steps;
      var ok := Call();
      stop := if ok then None else Some(CallFailed);
    }

    /** Startup: first the raw state, then the results. */
    method RecoverLocalState(states: seq<Id>, results: seq<Id>) returns (stop: Option<Stop>)
      requires Lists(store, states, results)
      modifies this
      ensures Went(old(store), old(log), store, log, Recover(old(store), states, results).trace)
      ensures stop.None? ==> AcceptableStore(old(store)) && store == RecoveredStore(old(store))
      ensures stop == Some(Refusal) ==> !AcceptableStore(old(store))
      ensures stop == Some(CallFailed) <==> AnyFailed(old(calls), calls)
      ensures !AnyFailed(old(calls), calls) ==> (stop.None? <==> AcceptableStore(old(store)))
    {
      hide Went, SweepEach, Lists, AcceptableStore, RecoveredStore, Order;
      ghost var s, was := store, log;
      ghost var first := SweepEach(StatePass, s, states);
      ghost var now := LastStore(s, first.trace);
      ghost var second := SweepEach(ResultPass, now, results);
      StartupDecides(s, states, results);
      assert Order(StatePass, s, states) && Order(ResultPass, now, results) by { ListsGiveOrders(s, states, results); }
      stop := SweepDirectory(StatePass, states);
      WentPart(s, was, store, log, first.trace, if first.refused then [] else second.trace);
      assert first.trace + [] == first.trace;
      if stop.Some? {
        StopKinds(stop.value);
        return;
      }
      WentAll(s, was, store, log, first.trace);
      ghost var mid := log;
      stop := SweepDirectory(ResultPass, results);
      WentOn(s, was, now, mid, first.trace, store, log, second.trace);
      if stop.None? {
        WentAll(s, was, store, log, first.trace + second.trace);
      } else {
        StopKinds(stop.value);
      }
    }
  }
}
