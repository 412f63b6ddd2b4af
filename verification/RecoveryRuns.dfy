/** Whole startups over all sessions, any number of which may be interrupted. */
module RecoveryRuns {
  import opened Recovery
  import opened Wrappers

  type Id = string
  type Store = map<Id, Slot>

  datatype Sweep = Sweep(trace: seq<Store>, refused: bool)

  function LastStore(s: Store, trace: seq<Store>): Store {
    if trace == [] then s else trace[|trace| - 1]
  }

  function Lift(s: Store, id: Id, trace: seq<Slot>): (r: seq<Store>)
    ensures |r| == |trace| && forall k | 0 <= k < |r| :: r[k] == s[id := trace[k]]
  {
    seq(|trace|, k requires 0 <= k < |trace| => s[id := trace[k]])
  }

  function SweepOne(pass: Pass, s: Store, id: Id): Sweep {
    if id in s && Listed(pass, s[id])
    then Sweep(Lift(s, id, Treat(pass, s[id]).trace), Treat(pass, s[id]).refused)
    else Sweep([], false)
  }

  /** One sweep over the sessions in the order in which the directory lists them. */
  function SweepEach(pass: Pass, s: Store, order: seq<Id>): Sweep
    decreases |order|
  {
    if order == [] then Sweep([], false)
    else
      var one := SweepOne(pass, s, order[0]);
      if one.refused then one
      else
        var rest := SweepEach(pass, LastStore(s, one.trace), order[1..]);
        Sweep(one.trace + rest.trace, rest.refused)
  }

  function Recover(s: Store, states: seq<Id>, results: seq<Id>): Sweep {
    var first := SweepEach(StatePass, s, states);
    if first.refused then first
    else
      var second := SweepEach(ResultPass, LastStore(s, first.trace), results);
      Sweep(first.trace + second.trace, second.refused)
  }

  predicate Distinct(order: seq<Id>) {
    forall i, j | 0 <= i < j < |order| :: order[i] != order[j]
  }

  /** The directory lists every session it holds, once. */
  ghost predicate Order(pass: Pass, s: Store, order: seq<Id>) {
    Distinct(order) && forall id :: id in order <==> id in s && Listed(pass, s[id])
  }

  ghost predicate Lists(s: Store, states: seq<Id>, results: seq<Id>) {
    && Order(StatePass, s, states)
    && Order(ResultPass, LastStore(s, SweepEach(StatePass, s, states).trace), results)
  }

  predicate Reached(pass: Pass, a: Slot, b: Slot) {
    a == b || (Listed(pass, a) && b in Treat(pass, a).trace)
  }

  // ---- One sweep -----------------------------------------------------------

  ghost predicate ReachedAll(pass: Pass, s: Store, t: Store, order: seq<Id>) {
    && t.Keys == s.Keys
    && forall id | id in s :: Reached(pass, s[id], t[id]) && (id !in order ==> t[id] == s[id])
  }

  lemma OneStep(pass: Pass, s: Store, id: Id)
    ensures forall t | t in SweepOne(pass, s, id).trace :: ReachedAll(pass, s, t, [id])
    ensures ReachedAll(pass, s, LastStore(s, SweepOne(pass, s, id).trace), [id])
    ensures id in s && Listed(pass, s[id]) ==>
              LastStore(s, SweepOne(pass, s, id).trace)[id] == LastSlot(s[id], Treat(pass, s[id]).trace)
  {
    hide Treat;
  }

  /** In every state of a sweep, each session is in one of the states of its own treatment. */
  lemma {:induction false} SweepStates(pass: Pass, s: Store, order: seq<Id>)
    requires Distinct(order)
    ensures forall t | t in SweepEach(pass, s, order).trace :: ReachedAll(pass, s, t, order)
    decreases |order|
  {
    hide SweepOne, Reached, Listed;
    if order != [] {
      var one := SweepOne(pass, s, order[0]);
      var now := LastStore(s, one.trace);
      OneStep(pass, s, order[0]);
      if !one.refused {
        SweepStates(pass, now, order[1..]);
        forall t | t in SweepEach(pass, now, order[1..]).trace ensures ReachedAll(pass, s, t, order) {
          RestReached(pass, s, now, t, order);
        }
      }
    }
  }

  lemma RestReached(pass: Pass, s: Store, now: Store, t: Store, order: seq<Id>)
    requires Distinct(order) && order != []
    requires ReachedAll(pass, s, now, [order[0]]) && ReachedAll(pass, now, t, order[1..])
    ensures ReachedAll(pass, s, t, order)
  {
    hide Reached;
    assert order[0] !in order[1..];
    assert forall id | id in order[1..] :: id in order;
  }

  predicate RefusedAt(pass: Pass, s: Store, id: Id) {
    id in s && Listed(pass, s[id]) && Treat(pass, s[id]).refused
  }

  /** What one sweep leaves of a session it did not refuse. */
  function Swept(pass: Pass, s: Slot): Slot {
    if Listed(pass, s) then LastSlot(s, Treat(pass, s).trace) else s
  }

  lemma OneStepEnds(pass: Pass, s: Store, id: Id)
    ensures var one := SweepOne(pass, s, id);
            var now := LastStore(s, one.trace);
            && (one.refused <==> RefusedAt(pass, s, id))
            && now.Keys == s.Keys && (id in s ==> now[id] == Swept(pass, s[id]))
            && forall other | other in s && other != id :: now[other] == s[other]
  {
    hide Reached;
    OneStep(pass, s, id);
  }

  lemma {:induction false} SweepRefuses(pass: Pass, s: Store, order: seq<Id>)
    requires Distinct(order)
    ensures SweepEach(pass, s, order).refused <==> exists id :: id in order && RefusedAt(pass, s, id)
    decreases |order|
  {
    hide Treat, Listed, Swept, SweepOne;
    if order != [] {
      var now := LastStore(s, SweepOne(pass, s, order[0]).trace);
      var rest := order[1..];
      assert order[0] !in rest && forall id :: id in order <==> id == order[0] || id in rest;
      OneStepEnds(pass, s, order[0]);
      SweepRefuses(pass, now, rest);
      assert forall id | id in rest :: RefusedAt(pass, now, id) <==> RefusedAt(pass, s, id);
    }
  }

  /** A sweep refuses exactly when one treatment does; otherwise each session ends its own treatment. */
  lemma {:induction false} SweepEnds(pass: Pass, s: Store, order: seq<Id>)
    requires Distinct(order)
    ensures var sweep := SweepEach(pass, s, order);
            var last := LastStore(s, sweep.trace);
            && (sweep.refused <==> exists id :: id in order && RefusedAt(pass, s, id))
            && last.Keys == s.Keys
            && (!sweep.refused ==>
                  forall id | id in s :: last[id] == if id in order then Swept(pass, s[id]) else s[id])
    decreases |order|
  {
    hide Treat, Listed, Swept, SweepOne, RefusedAt;
    SweepRefuses(pass, s, order);
    if order != [] {
      var one := SweepOne(pass, s, order[0]);
      var now := LastStore(s, one.trace);
      var rest := order[1..];
      assert order[0] !in rest && forall id :: id in order <==> id == order[0] || id in rest;
      OneStepEnds(pass, s, order[0]);
      if !one.refused {
        SweepEnds(pass, now, rest);
      }
    }
  }

  // ---- One startup ---------------------------------------------------------

  ghost predicate AcceptableStore(s: Store) {
    forall id | id in s :: Acceptable(s[id])
  }

  ghost predicate NoneMangled(s: Store) {
    forall id | id in s :: !Mangled(s[id])
  }

  function RecoveredStore(s: Store): Store {
    map id | id in s :: Recovered(s[id])
  }

  ghost predicate AllKept(s: Store, t: Store) {
    t.Keys == s.Keys && forall id | id in s :: EvidenceKept(s[id], t[id])
  }

  lemma SweptIsReached(pass: Pass, s: Store, order: seq<Id>)
    requires Order(pass, s, order) && !SweepEach(pass, s, order).refused
    ensures var last := LastStore(s, SweepEach(pass, s, order).trace);
            last.Keys == s.Keys && forall id | id in s :: last[id] == Swept(pass, s[id])
  {
    hide Treat;
    SweepEnds(pass, s, order);
  }

  lemma SlotDecision(s: Slot)
    ensures AfterState(s) == Swept(StatePass, s)
    ensures Acceptable(s) <==>
            && (Listed(StatePass, s) ==> !Treat(StatePass, s).refused)
            && (Listed(ResultPass, Swept(StatePass, s)) ==> !Treat(ResultPass, Swept(StatePass, s)).refused)
    ensures Acceptable(s) ==> Swept(ResultPass, Swept(StatePass, s)) == Recovered(s)
  {
    hide Treat, Acceptable, Recovered;
    SweepsDecideAcceptability(s);
  }

  /**
   * An undisturbed startup goes through exactly when every session is acceptable, whatever the
   * order of the listings, and then leaves the recovered store.
   */
  lemma StartupDecides(s: Store, states: seq<Id>, results: seq<Id>)
    requires Lists(s, states, results)
    ensures !Recover(s, states, results).refused <==> AcceptableStore(s)
    ensures AcceptableStore(s) ==> LastStore(s, Recover(s, states, results).trace) == RecoveredStore(s)
  {
    hide Treat, Listed, Acceptable, Recovered, Swept, SweepEach;
    SweepEnds(StatePass, s, states);
    forall id | id in s {
      SlotDecision(s[id]);
    }
    var first := SweepEach(StatePass, s, states);
    if !first.refused {
      SweptIsReached(StatePass, s, states);
      var now := LastStore(s, first.trace);
      SweepEnds(ResultPass, now, results);
      var second := SweepEach(ResultPass, now, results);
      if !second.refused {
        SweptIsReached(ResultPass, now, results);
        assert LastStore(s, first.trace + second.trace) == LastStore(now, second.trace);
      }
    }
  }

  lemma ReachedKeepsEvidence(pass: Pass, a: Slot, b: Slot)
    requires Reached(pass, a, b)
    ensures EvidenceKept(a, b)
  {
    if a != b {
      TreatmentKeepsEvidence(pass, a);
    }
  }

  lemma ReachedAllKeepsEvidence(pass: Pass, s: Store, t: Store, order: seq<Id>)
    requires ReachedAll(pass, s, t, order)
    ensures AllKept(s, t)
  {
    hide Reached, EvidenceKept;
    forall id | id in s ensures EvidenceKept(s[id], t[id]) {
      ReachedKeepsEvidence(pass, s[id], t[id]);
    }
  }

  lemma AllKeptIsTransitive(a: Store, b: Store, c: Store)
    requires AllKept(a, b) && AllKept(b, c)
    ensures AllKept(a, c)
  {
    hide EvidenceKept;
    forall id | id in a ensures EvidenceKept(a[id], c[id]) {
      EvidenceKeptIsTransitive(a[id], b[id], c[id]);
    }
  }

  /** At every step of a startup, whether or not it goes on from there, all evidence is kept. */
  lemma StartupKeepsEvidence(s: Store, states: seq<Id>, results: seq<Id>)
    requires Lists(s, states, results)
    ensures forall t | t in Recover(s, states, results).trace :: AllKept(s, t)
  {
    hide AllKept, SweepEach, ReachedAll;
    var first := SweepEach(StatePass, s, states);
    var now := LastStore(s, first.trace);
    SweepStates(StatePass, s, states);
    SweepStates(ResultPass, now, results);
    forall t | t in Recover(s, states, results).trace ensures AllKept(s, t) {
      if t in first.trace {
        ReachedAllKeepsEvidence(StatePass, s, t, states);
      } else {
        if now != s {
          ReachedAllKeepsEvidence(StatePass, s, now, states);
        } else {
          assert AllKept(s, now) by { SameStoreIsKept(s); }
        }
        ReachedAllKeepsEvidence(ResultPass, now, t, results);
        AllKeptIsTransitive(s, now, t);
      }
    }
  }

  lemma SameStoreIsKept(s: Store)
    ensures AllKept(s, s)
  {
  }

  /** `t` leads to the same end as `s`, unless it holds a mangled pre-acceptance tree. */
  ghost predicate SameVerdict(s: Store, t: Store) {
    && t.Keys == s.Keys
    && (!AcceptableStore(s) ==> !AcceptableStore(t))
    && (AcceptableStore(s) ==> (AcceptableStore(t) <==> NoneMangled(t)) && RecoveredStore(t) == RecoveredStore(s))
  }

  lemma ReachedConverges(pass: Pass, a: Slot, b: Slot)
    requires Reached(pass, a, b)
    ensures !Acceptable(a) ==> !Acceptable(b)
    ensures Acceptable(a) ==> (Acceptable(b) <==> !Mangled(b)) && Recovered(b) == Recovered(a)
  {
    if a != b {
      hide Treat, Acceptable, Recovered, Mangled;
      TreatmentConverges(pass, a);
    }
  }

  lemma ReachedAllConverges(pass: Pass, s: Store, t: Store, order: seq<Id>)
    requires ReachedAll(pass, s, t, order)
    ensures SameVerdict(s, t)
  {
    hide Reached, Acceptable, Recovered, Mangled;
    forall id | id in s
      ensures !Acceptable(s[id]) ==> !Acceptable(t[id])
      ensures Acceptable(s[id]) ==> (Acceptable(t[id]) <==> !Mangled(t[id])) && Recovered(t[id]) == Recovered(s[id])
    {
      ReachedConverges(pass, s[id], t[id]);
    }
  }

  lemma SweptStateIsAcceptable(s: Store, states: seq<Id>)
    requires Order(StatePass, s, states) && !SweepEach(StatePass, s, states).refused
    ensures var now := LastStore(s, SweepEach(StatePass, s, states).trace);
            now.Keys == s.Keys && (AcceptableStore(now) <==> AcceptableStore(s))
            && (AcceptableStore(s) ==> RecoveredStore(now) == RecoveredStore(s))
  {
    hide Treat, Acceptable, Recovered, SweepEach;
    SweepEnds(StatePass, s, states);
    SweptIsReached(StatePass, s, states);
    forall id | id in s && s[id].raw.Some?
      ensures Acceptable(Swept(StatePass, s[id])) <==> Acceptable(s[id])
      ensures Acceptable(s[id]) ==> Recovered(Swept(StatePass, s[id])) == Recovered(s[id])
    {
      assert id in states && !Treat(StatePass, s[id]).refused;
      StateSweepDecides(s[id]);
      SlotDecision(s[id]);
    }
  }

  /** At every step of a startup, what the next startup will do is what this one was doing. */
  lemma StartupConverges(s: Store, states: seq<Id>, results: seq<Id>)
    requires Lists(s, states, results)
    ensures forall t | t in Recover(s, states, results).trace :: SameVerdict(s, t)
  {
    hide SweepEach, ReachedAll, AcceptableStore, RecoveredStore, NoneMangled;
    var first := SweepEach(StatePass, s, states);
    var now := LastStore(s, first.trace);
    SweepStates(StatePass, s, states);
    forall t | t in Recover(s, states, results).trace ensures SameVerdict(s, t) {
      if t in first.trace {
        ReachedAllConverges(StatePass, s, t, states);
      } else {
        SweptStateIsAcceptable(s, states);
        SweepStates(ResultPass, now, results);
        ReachedAllConverges(ResultPass, now, t, results);
      }
    }
  }

  // ---- Interrupted startups ------------------------------------------------

  /** A startup that fails or is killed after `cut` of its steps, or refuses after all of them. */
  datatype Attempt = Attempt(states: seq<Id>, results: seq<Id>, cut: nat)

  function After(s: Store, a: Attempt): Store {
    var trace := Recover(s, a.states, a.results).trace;
    LastStore(s, if a.cut <= |trace| then trace[..a.cut] else trace)
  }

  function AfterAll(s: Store, attempts: seq<Attempt>): Store
    decreases |attempts|
  {
    if attempts == [] then s else AfterAll(After(s, attempts[0]), attempts[1..])
  }

  ghost predicate LegalAttempts(s: Store, attempts: seq<Attempt>)
    decreases |attempts|
  {
    attempts != [] ==>
      Lists(s, attempts[0].states, attempts[0].results) && LegalAttempts(After(s, attempts[0]), attempts[1..])
  }

  lemma AttemptStep(s: Store, a: Attempt)
    requires Lists(s, a.states, a.results)
    ensures AllKept(s, After(s, a)) && (After(s, a) == s || SameVerdict(s, After(s, a)))
  {
    hide Recover, AllKept, SameVerdict, Lists;
    StartupKeepsEvidence(s, a.states, a.results);
    StartupConverges(s, a.states, a.results);
    SameStoreIsKept(s);
    var trace := Recover(s, a.states, a.results).trace;
    assert After(s, a) == s || After(s, a) in trace;
  }

  /** However many startups are interrupted, and wherever, no evidence is lost. */
  lemma {:induction false} AttemptsKeepEvidence(s: Store, attempts: seq<Attempt>)
    requires LegalAttempts(s, attempts)
    ensures AllKept(s, AfterAll(s, attempts))
    decreases |attempts|
  {
    hide AllKept, After, Lists;
    if attempts == [] {
      SameStoreIsKept(s);
    } else {
      AttemptStep(s, attempts[0]);
      AttemptsKeepEvidence(After(s, attempts[0]), attempts[1..]);
      AllKeptIsTransitive(s, After(s, attempts[0]), AfterAll(s, attempts));
    }
  }

  /**
   * After any interrupted startups, the next one accepts exactly when the first would have and
   * no removal of a pre-acceptance tree was cut short; and the end is then the same.
   */
  lemma {:induction false} AttemptsConverge(s: Store, attempts: seq<Attempt>)
    requires LegalAttempts(s, attempts)
    ensures var t := AfterAll(s, attempts);
            && t.Keys == s.Keys
            && (AcceptableStore(t) <==> AcceptableStore(s) && NoneMangled(t))
            && (AcceptableStore(t) ==> RecoveredStore(t) == RecoveredStore(s))
    decreases |attempts|
  {
    hide AllKept, After, Lists, Acceptable, Recovered, Mangled;
    AttemptsKeepEvidence(s, attempts);
    AcceptableIsNotMangled(s);
    if attempts != [] {
      var u := After(s, attempts[0]);
      AttemptStep(s, attempts[0]);
      AttemptsConverge(u, attempts[1..]);
      AttemptsKeepEvidence(u, attempts[1..]);
      MangledForGood(u, AfterAll(s, attempts));
    }
  }

  lemma AcceptableIsNotMangled(s: Store)
    ensures AcceptableStore(s) ==> NoneMangled(s)
  {
  }

  lemma MangledForGood(s: Store, t: Store)
    requires AllKept(s, t)
    ensures NoneMangled(t) ==> NoneMangled(s)
  {
    forall id | id in s && Mangled(s[id]) ensures Mangled(t[id]) {
      assert EvidenceKept(s[id], t[id]);
    }
    if NoneMangled(t) {
      forall id | id in s ensures !Mangled(s[id]) {
        assert !Mangled(t[id]);
      }
    }
  }

  /** Such a removal is cut short by stopping at its first step. */
  lemma RemovalCanBeCutShort(id: Id, raw: RawTree, dir: Option<ResultDir>)
    requires raw.safe && raw.marker.Unmarked? && raw.layout == Exact
    requires dir.Some? ==> dir.value.safe && dir.value.directory && HoldsNothing(dir.value)
    ensures var s: Store := map[id := Slot(Some(raw), dir)];
            var results := if dir.Some? then [id] else [];
            && AcceptableStore(s) && Lists(s, [id], results)
            && !NoneMangled(After(s, Attempt([id], results, 1)))
  {
    var s: Store := map[id := Slot(Some(raw), dir)];
    var one := SweepOne(StatePass, s, id);
    assert SweepEach(StatePass, s, [id]).trace == one.trace + [];
    assert id in s && Listed(StatePass, s[id]);
    var results := if dir.Some? then [id] else [];
    var now := LastStore(s, SweepEach(StatePass, s, [id]).trace);
    assert now.Keys == {id};
    assert now[id].dir == dir;
    var trace := Recover(s, [id], results).trace;
    assert trace[0] == one.trace[0];
    assert After(s, Attempt([id], results, 1)) == trace[0];
    assert Mangled(trace[0][id]);
  }

  // ---- The end -------------------------------------------------------------

  /** The recovered store is where recovery stays, and holds exactly the retained terminals' trees. */
  lemma RecoveredIsAFixedPoint(s: Store)
    requires AcceptableStore(s)
    ensures var r := RecoveredStore(s);
            && AcceptableStore(r) && RecoveredStore(r) == r
            && forall id | id in s ::
                 && (r[id].raw.Some? <==> HasTerminal(s[id]) && EndingOf(s[id]).retained)
                 && (r[id].raw.Some? ==> r[id].raw == s[id].raw)
                 && (r[id].dir.Some? <==> HasTerminal(s[id]))
                 && (r[id].dir.Some? ==> r[id].dir.value.temporary.None? && r[id].dir.value.durable
                                         && r[id].dir.value.finished == s[id].dir.value.finished)
  {
    forall id | id in s ensures Acceptable(Recovered(s[id])) && Recovered(Recovered(s[id])) == Recovered(s[id]) {
      assert Acceptable(s[id]);
    }
  }

  /** Without a terminal, a result directory that holds anything stops every startup, and stays as it is. */
  lemma RemainsStopEveryStartup(s: Store, id: Id, states: seq<Id>, results: seq<Id>)
    requires id in s && s[id].dir.Some? && s[id].dir.value.finished.None?
    requires s[id].dir.value.temporary.Some? || s[id].dir.value.archive.Archive? || s[id].dir.value.others
    requires Lists(s, states, results)
    ensures Recover(s, states, results).refused
    ensures forall t: Store | t in Recover(s, states, results).trace :: id in t && t[id].dir == s[id].dir
  {
    hide Lists, SweepEach, Treat, Listed, Acceptable;
    StartupDecides(s, states, results);
    assert !Acceptable(s[id]) by { RemainsAreUnacceptable(s[id]); }
    assert Order(StatePass, s, states) && Order(ResultPass, LastStore(s, SweepEach(StatePass, s, states).trace), results) by {
      ListsGiveOrders(s, states, results);
    }
    var first := SweepEach(StatePass, s, states);
    var now := LastStore(s, first.trace);
    SweepStates(StatePass, s, states);
    SweepStates(ResultPass, now, results);
    assert now == s || now in first.trace;
    assert now.Keys == s.Keys && now[id].dir == s[id].dir by { if now != s { RemainsReached(StatePass, s[id], now[id]); } }
    forall t: Store | t in Recover(s, states, results).trace ensures id in t && t[id].dir == s[id].dir {
      if t in first.trace {
        RemainsReached(StatePass, s[id], t[id]);
      } else {
        RemainsReached(ResultPass, now[id], t[id]);
      }
    }
  }

  lemma RemainsAreUnacceptable(s: Slot)
    requires s.dir.Some? && s.dir.value.finished.None?
    requires s.dir.value.temporary.Some? || s.dir.value.archive.Archive? || s.dir.value.others
    ensures !Acceptable(s)
  {
  }

  lemma ListsGiveOrders(s: Store, states: seq<Id>, results: seq<Id>)
    requires Lists(s, states, results)
    ensures Order(StatePass, s, states)
    ensures Order(ResultPass, LastStore(s, SweepEach(StatePass, s, states).trace), results)
  {
  }

  lemma RemainsReached(pass: Pass, a: Slot, b: Slot)
    requires Reached(pass, a, b) && a.dir.Some? && a.dir.value.finished.None?
    requires a.dir.value.temporary.Some? || a.dir.value.archive.Archive? || a.dir.value.others
    ensures b.dir == a.dir
  {
    if a != b {
      RemainsArePreserved(pass, a);
    }
  }

  /** A private draft without a committed terminal stops every startup. */
  lemma UnpublishedDraftRefuses(s: Store, id: Id, states: seq<Id>, results: seq<Id>)
    requires id in s && s[id].dir.Some? && s[id].dir.value.finished.None? && s[id].dir.value.temporary.Some?
    requires Lists(s, states, results)
    ensures Recover(s, states, results).refused
    ensures forall t: Store | t in Recover(s, states, results).trace ::
              && id in t && t[id].dir.Some? && t[id].dir.value.finished.None?
              && t[id].dir.value.temporary == s[id].dir.value.temporary
  {
    hide Recover, Lists;
    StartupDecides(s, states, results);
    assert !Acceptable(s[id]);
    StartupKeepsEvidence(s, states, results);
    forall t: Store | t in Recover(s, states, results).trace
      ensures id in t && t[id].dir.Some? && t[id].dir.value.finished.None?
              && t[id].dir.value.temporary == s[id].dir.value.temporary
    {
      assert EvidenceKept(s[id], t[id]);
    }
  }
}
