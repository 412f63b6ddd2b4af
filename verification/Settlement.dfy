/** Settling a running agent (src/session.rs): its exit, its stream capture, and cancellation. */
module Settlement {
  import opened Wrappers

  datatype Status = Ended | Cancelled

  /** A stop that ran out of grace killed the agent. */
  datatype StopResult = Stopped(escalated: bool) | StopFailed

  datatype Diagnostic =
    | WaitFailed | Escalated | StopAfterWaitFailed | CaptureExitedFirst | StopAfterCaptureFailed
    | WaitAfterCaptureFailed | CancellationStopFailed | RemovalFailed | WaitAfterCancelFailed

  /** What was observed or asked, in order. */
  datatype Action =
    | Exited(code: Option<int>)
    | Captured(complete: bool)
    | CancelSeen
    | AskedStop(stop: StopResult)
    | AskedRemoval(removed: bool)

  datatype Settled = Settled(status: Status, code: Option<int>, diagnostics: seq<Diagnostic>, producerStopped: bool)

  // ---- The settlement that a log of actions calls for ----------------------

  function StopNotes(stop: StopResult, failure: Diagnostic): seq<Diagnostic> {
    match stop
    case Stopped(escalated) => if escalated then [Escalated] else []
    case StopFailed => [failure]
  }

  function WaitNotes(code: Option<int>, failure: Diagnostic): seq<Diagnostic> {
    if code.Some? then [] else [failure]
  }

  /** The five ways the wait can end, once a complete capture has been set aside. */
  function Conclude(log: seq<Action>, captureOpen: bool): Option<Settled> {
    if |log| == 1 && log[0].Exited? && log[0].code.Some? then
      Some(Settled(Ended, log[0].code, [], true))
    else if |log| == 2 && log[0] == Exited(None) && log[1].AskedStop? then
      Some(Settled(Ended, None, [WaitFailed] + StopNotes(log[1].stop, StopAfterWaitFailed), log[1].stop.Stopped?))
    else if |log| == 3 && captureOpen && log[0] == Captured(false) && log[1].AskedStop? && log[2].Exited? then
      Some(Settled(Ended, log[2].code,
                   [CaptureExitedFirst] + StopNotes(log[1].stop, StopAfterCaptureFailed)
                   + WaitNotes(log[2].code, WaitAfterCaptureFailed),
                   log[1].stop.Stopped?))
    else if |log| == 3 && log[0].CancelSeen? && log[1].AskedStop? && log[1].stop.Stopped? && log[2].Exited? then
      Some(Settled(Cancelled, log[2].code,
                   StopNotes(log[1].stop, CancellationStopFailed) + WaitNotes(log[2].code, WaitAfterCancelFailed), true))
    else if |log| == 4 && log[0].CancelSeen? && log[1] == AskedStop(StopFailed) && log[2].AskedRemoval?
            && log[3].Exited? then
      Some(Settled(Cancelled, log[3].code,
                   [CancellationStopFailed] + (if log[2].removed then [] else [RemovalFailed])
                   + WaitNotes(log[3].code, WaitAfterCancelFailed),
                   log[2].removed))
    else None
  }

  function Outcome(log: seq<Action>): Option<Settled> {
    if log != [] && log[0] == Captured(true) then Conclude(log[1..], false) else Conclude(log, true)
  }

  // ---- The loop ------------------------------------------------------------

  datatype Branch = OnExit | OnCapture | OnCancel

  /** After a complete capture, only the exit and the cancellation are waited for. */
  datatype Later = LaterExit | LaterCancel

  /** What is ready first, what is ready then, and how everything that is awaited turns out. */
  datatype Schedule = Schedule(first: Branch, later: Later, code: Option<int>, complete: bool, stop: StopResult,
                               removed: bool)

  function ExitLog(w: Schedule): seq<Action> {
    if w.code.Some? then [Exited(w.code)] else [Exited(None), AskedStop(w.stop)]
  }

  function CancelLog(w: Schedule): seq<Action> {
    if w.stop.Stopped? then [CancelSeen, AskedStop(w.stop), Exited(w.code)]
    else [CancelSeen, AskedStop(w.stop), AskedRemoval(w.removed), Exited(w.code)]
  }

  /** What a schedule makes happen, in order. */
  function LogOf(w: Schedule): seq<Action> {
    match w.first
    case OnExit => ExitLog(w)
    case OnCancel => CancelLog(w)
    case OnCapture =>
      if !w.complete then [Captured(false), AskedStop(w.stop), Exited(w.code)]
      else [Captured(true)] + (if w.later.LaterExit? then ExitLog(w) else CancelLog(w))
  }

  /** What is ready first comes first, what is ready after a complete capture next, and nothing turns out otherwise. */
  predicate Follows(log: seq<Action>, w: Schedule) {
    && log != []
    && (match w.first
        case OnExit => log[0] == Exited(w.code)
        case OnCapture => log[0] == Captured(w.complete)
        case OnCancel => log[0] == CancelSeen)
    && (log[0] == Captured(true) ==> |log| > 1 && log[1] == if w.later.LaterExit? then Exited(w.code) else CancelSeen)
    && (forall a | a in log ::
          match a
          case Exited(code) => code == w.code
          case Captured(complete) => complete == w.complete
          case CancelSeen => true
          case AskedStop(stop) => stop == w.stop
          case AskedRemoval(removed) => removed == w.removed)
  }

  lemma LogFollows(w: Schedule)
    ensures Follows(LogOf(w), w)
    ensures Outcome(LogOf(w)).Some?
    ensures Outcome(LogOf(w)).value.status.Cancelled? <==>
            w.first.OnCancel? || (w.first.OnCapture? && w.complete && w.later.LaterCancel?)
  {
    ScheduleIsSettled(w);
    var tail := if w.later.LaterExit? then ExitLog(w) else CancelLog(w);
    assert ([Captured(true)] + tail)[1..] == tail;
  }

  /** The logs that call for a settlement are exactly those of the schedules. */
  lemma SettlementsAreSchedules(log: seq<Action>)
    ensures Outcome(log).Some? <==> exists w :: LogOf(w) == log
  {
    if w :| LogOf(w) == log {
      ScheduleIsSettled(w);
    }
    if Outcome(log).Some? {
      var w := ScheduleFor(log);
    }
  }

  lemma ScheduleIsSettled(w: Schedule)
    ensures Outcome(LogOf(w)).Some?
  {
    var tail := if w.later.LaterExit? then ExitLog(w) else CancelLog(w);
    assert ([Captured(true)] + tail)[1..] == tail;
  }

  lemma ScheduleFor(log: seq<Action>) returns (w: Schedule)
    requires Outcome(log).Some?
    ensures LogOf(w) == log
  {
    var body := if log[0] == Captured(true) then log[1..] else log;
    var cancelled := body[0].CancelSeen?;
    var last := body[|body| - 1];
    var code := if last.Exited? then last.code else None;
    var stop := if |body| > 1 then body[1].stop else StopFailed;
    var removed := |body| == 4 && body[2].removed;
    var first := if log[0].Captured? then OnCapture else if cancelled then OnCancel else OnExit;
    w := Schedule(first, if cancelled then LaterCancel else LaterExit, code, log[0] == Captured(true), stop, removed);
    assert log[0] == Captured(true) ==> log == [Captured(true)] + body;
  }

  /** A future is polled to completion at most once: awaiting it again is not allowed. */
  class Agent {
    const schedule: Schedule
    var exited: bool
    var captured: bool
    ghost var log: seq<Action>

    constructor (schedule: Schedule)
      ensures this.schedule == schedule && !exited && !captured && log == []
    {
      this.schedule := schedule;
      exited, captured, log := false, false, [];
    }

    method AwaitExit() returns (code: Option<int>)
      requires !exited
      modifies this
      ensures exited && captured == old(captured) && code == schedule.code && log == old(log) + [Exited(code)]
    {
      code := schedule.code;
      exited := true;
      log := log + [Exited(code)];
    }

    method AwaitCapture() returns (complete: bool)
      requires !captured
      modifies this
      ensures captured && exited == old(exited) && complete == schedule.complete
      ensures log == old(log) + [Captured(complete)]
    {
      complete := schedule.complete;
      captured := true;
      log := log + [Captured(complete)];
    }

    method SeeCancellation()
      modifies this
      ensures exited == old(exited) && captured == old(captured) && log == old(log) + [CancelSeen]
    {
      log := log + [CancelSeen];
    }

    method AskStop() returns (stop: StopResult)
      modifies this
      ensures exited == old(exited) && captured == old(captured) && stop == schedule.stop
      ensures log == old(log) + [AskedStop(stop)]
    {
      stop := schedule.stop;
      log := log + [AskedStop(stop)];
    }

    method AskRemoval() returns (removed: bool)
      modifies this
      ensures exited == old(exited) && captured == old(captured) && removed == schedule.removed
      ensures log == old(log) + [AskedRemoval(removed)]
    {
      removed := schedule.removed;
      log := log + [AskedRemoval(removed)];
    }

    /** What is ready at the next pick; a capture that was taken is waited for no more. */
    function Ready(): Branch
      reads this
    {
      if !captured then schedule.first else if schedule.later.LaterExit? then OnExit else OnCancel
    }

    /** Takes the exit; without a code the agent is stopped. */
    method SettleExit(ghost before: seq<Action>) returns (s: Settled)
      requires !exited && log == before
      modifies this
      ensures log == before + ExitLog(schedule) && Some(s) == Conclude(ExitLog(schedule), !captured)
      ensures exited && captured == old(captured)
    {
      var code := AwaitExit();
      if code.Some? {
        return Settled(Ended, code, [], true);
      }
      var stop := AskStop();
      s := Settled(Ended, None, [WaitFailed] + StopNotes(stop, StopAfterWaitFailed), stop.Stopped?);
      assert log == before + ExitLog(schedule);
    }

    /** Interrupts the agent, removing its containers if it cannot be stopped. */
    method SettleCancellation(ghost before: seq<Action>) returns (s: Settled)
      requires !exited && log == before
      modifies this
      ensures log == before + CancelLog(schedule) && Some(s) == Conclude(CancelLog(schedule), !captured)
      ensures exited && captured == old(captured)
    {
      SeeCancellation();
      var diagnostics: seq<Diagnostic>;
      var producerStopped := true;
      var stop := AskStop();
      if stop.Stopped? {
        diagnostics := StopNotes(stop, CancellationStopFailed);
      } else {
        diagnostics := [CancellationStopFailed];
        var removed := AskRemoval();
        if !removed {
          diagnostics := diagnostics + [RemovalFailed];
          producerStopped := false;
        }
        assert diagnostics == [CancellationStopFailed] + (if removed then [] else [RemovalFailed]);
      }
      var code := AwaitExit();
      s := Settled(Cancelled, code, diagnostics + WaitNotes(code, WaitAfterCancelFailed), producerStopped);
      assert log == before + CancelLog(schedule);
    }

    /** Stops an agent whose capture exited first, and takes its exit. */
    method SettleLostCapture() returns (s: Settled)
      requires !exited && log == [Captured(false)]
      modifies this
      ensures log == [Captured(false), AskedStop(schedule.stop), Exited(schedule.code)]
      ensures Some(s) == Conclude(log, true)
    {
      var stop := AskStop();
      var code := AwaitExit();
      s := Settled(Ended, code,
                   [CaptureExitedFirst] + StopNotes(stop, StopAfterCaptureFailed) + WaitNotes(code, WaitAfterCaptureFailed),
                   stop.Stopped?);
    }

    /**
     * Waits until the agent exits, its capture fails, or a cancellation is seen, whichever is
     * ready; at most two picks are made.
     */
    method Settle() returns (s: Settled, ghost picks: nat)
      requires !exited && !captured && log == []
      modifies this
      ensures log == LogOf(schedule) && Outcome(LogOf(schedule)) == Some(s) && picks <= 2
      ensures Follows(log, schedule)
      ensures s.status.Cancelled? <==>
              schedule.first.OnCancel? || (schedule.first.OnCapture? && schedule.complete && schedule.later.LaterCancel?)
    {
      LogFollows(schedule);
      hide Conclude, ExitLog, CancelLog;
      picks := 0;
      while true
        invariant !exited && picks == (if captured then 1 else 0)
        invariant log == if captured then [Captured(true)] else []
        invariant captured ==> schedule.first.OnCapture? && schedule.complete
        decreases !captured
      {
        picks := picks + 1;
        ghost var before := log;
        match Ready() {
          case OnExit =>
            ExitIsNoCapture(schedule, before);
            s := SettleExit(before);
            return;
          case OnCancel =>
            CancelIsNoCapture(schedule, before);
            s := SettleCancellation(before);
            return;
          case OnCapture =>
            var complete := AwaitCapture();
            if !complete {
              s := SettleLostCapture();
              return;
            }
        }
      }
    }
  }

  lemma ExitIsNoCapture(w: Schedule, before: seq<Action>)
    requires before == [] || before == [Captured(true)]
    ensures Outcome(before + ExitLog(w)) == Conclude(ExitLog(w), before == [])
  {
    assert before != [] ==> (before + ExitLog(w))[1..] == ExitLog(w);
    assert before == [] ==> before + ExitLog(w) == ExitLog(w);
  }

  lemma CancelIsNoCapture(w: Schedule, before: seq<Action>)
    requires before == [] || before == [Captured(true)]
    ensures Outcome(before + CancelLog(w)) == Conclude(CancelLog(w), before == [])
  {
    assert before != [] ==> (before + CancelLog(w))[1..] == CancelLog(w);
    assert before == [] ==> before + CancelLog(w) == CancelLog(w);
  }

  // ---- What every settlement has in common ---------------------------------

  function Count(log: seq<Action>, pick: Action -> bool): nat {
    if log == [] then 0 else (if pick(log[0]) then 1 else 0) + Count(log[1..], pick)
  }

  lemma CountFour(log: seq<Action>, pick: Action -> bool)
    requires |log| <= 5
    ensures Count(log, pick) ==
              (if |log| > 0 && pick(log[0]) then 1 else 0) + (if |log| > 1 && pick(log[1]) then 1 else 0)
              + (if |log| > 2 && pick(log[2]) then 1 else 0) + (if |log| > 3 && pick(log[3]) then 1 else 0)
              + (if |log| > 4 && pick(log[4]) then 1 else 0)
  {
    if |log| > 0 {
      var one := log[1..];
      if |one| > 0 {
        var two := one[1..];
        if |two| > 0 {
          var three := two[1..];
          if |three| > 0 {
            var four := three[1..];
            assert |four| > 0 ==> four[1..] == [];
          }
        }
      }
    }
  }

  /** The agent's exit is taken once, its capture and a stop at most once, in any settlement. */
  lemma NothingIsAskedTwice(log: seq<Action>)
    requires Outcome(log).Some?
    ensures Count(log, (a: Action) => a.Exited?) == 1
    ensures Count(log, (a: Action) => a.Captured?) <= 1
    ensures Count(log, (a: Action) => a.AskedStop?) <= 1
    ensures Count(log, (a: Action) => a.AskedRemoval?) <= 1
  {
    CountFour(log, (a: Action) => a.Exited?);
    CountFour(log, (a: Action) => a.Captured?);
    CountFour(log, (a: Action) => a.AskedStop?);
    CountFour(log, (a: Action) => a.AskedRemoval?);
  }

  /** A log is its body of one to four actions, after a complete capture if there was one. */
  lemma BodyIsLog(log: seq<Action>)
    requires Outcome(log).Some?
    ensures var body := if log[0] == Captured(true) then log[1..] else log;
            && 1 <= |body| <= 4 && log == (if log[0] == Captured(true) then [Captured(true)] else []) + body
            && (forall a | a != Captured(true) :: a in log <==> a in body)
  {
    var body := if log[0] == Captured(true) then log[1..] else log;
    assert log == (if log[0] == Captured(true) then [Captured(true)] else []) + body;
  }

  /** The members of a short log, one by one. */
  lemma ShortLog(log: seq<Action>)
    requires 1 <= |log| <= 4
    ensures forall a :: a in log <==>
              || a == log[0] || (|log| > 1 && a == log[1]) || (|log| > 2 && a == log[2]) || (|log| > 3 && a == log[3])
  {
  }

  /** A stop is asked for right after a failed wait, a lost capture or a cancellation. */
  lemma StopFollowsItsCause(log: seq<Action>, i: nat)
    requires Outcome(log).Some? && i < |log| && log[i].AskedStop?
    ensures i > 0 && log[i - 1] in {Exited(None), Captured(false), CancelSeen}
  {
    assert log[0] == Captured(true) ==> forall j | 1 <= j < |log| :: log[j] == log[1..][j - 1];
  }

  /** A stop is asked for whenever there is such a cause; removal exactly when the stop of a cancellation failed. */
  lemma StopIsAskedExactly(log: seq<Action>)
    requires Outcome(log).Some?
    ensures (exists stop :: AskedStop(stop) in log) <==>
            Exited(None) in log || Captured(false) in log || CancelSeen in log
    ensures (exists removed :: AskedRemoval(removed) in log) <==> CancelSeen in log && AskedStop(StopFailed) in log
  {
    BodyIsLog(log);
    var body := if log[0] == Captured(true) then log[1..] else log;
    AsksOfBody(body, log[0] != Captured(true));
    assert forall stop :: AskedStop(stop) in log <==> AskedStop(stop) in body;
    assert forall removed :: AskedRemoval(removed) in log <==> AskedRemoval(removed) in body;
  }

  lemma AsksOfBody(log: seq<Action>, captureOpen: bool)
    requires Conclude(log, captureOpen).Some?
    ensures (exists stop :: AskedStop(stop) in log) <==>
            Exited(None) in log || Captured(false) in log || CancelSeen in log
    ensures (exists removed :: AskedRemoval(removed) in log) <==> CancelSeen in log && AskedStop(StopFailed) in log
  {
    ShortLog(log);
    if |log| > 1 {
      assert AskedStop(log[1].stop) in log;
    }
    if |log| == 4 {
      assert AskedRemoval(log[2].removed) in log;
    }
  }

  ghost predicate ReportsStops(log: seq<Action>, notes: seq<Diagnostic>) {
    var lost, cancelled, unstopped := Captured(false) in log, CancelSeen in log, AskedStop(StopFailed) in log;
    && (Escalated in notes <==> AskedStop(Stopped(true)) in log)
    && (RemovalFailed in notes <==> AskedRemoval(false) in log)
    && (StopAfterWaitFailed in notes <==> unstopped && !lost && !cancelled)
    && (StopAfterCaptureFailed in notes <==> unstopped && lost)
    && (CancellationStopFailed in notes <==> unstopped && cancelled)
  }

  ghost predicate ReportsWaits(log: seq<Action>, notes: seq<Diagnostic>) {
    var lost, cancelled, unwaited := Captured(false) in log, CancelSeen in log, Exited(None) in log;
    && (CaptureExitedFirst in notes <==> lost)
    && (WaitFailed in notes <==> unwaited && !lost && !cancelled)
    && (WaitAfterCaptureFailed in notes <==> unwaited && lost)
    && (WaitAfterCancelFailed in notes <==> unwaited && cancelled)
  }

  /** Each diagnostic is given exactly when what it reports has happened. */
  lemma DiagnosticsAreExact(log: seq<Action>)
    requires Outcome(log).Some?
    ensures ReportsStops(log, Outcome(log).value.diagnostics)
    ensures ReportsWaits(log, Outcome(log).value.diagnostics)
  {
    BodyIsLog(log);
    var body := if log[0] == Captured(true) then log[1..] else log;
    StopsOfBody(body, log[0] != Captured(true));
    WaitsOfBody(body, log[0] != Captured(true));
  }

  lemma StopsOfBody(log: seq<Action>, captureOpen: bool)
    requires Conclude(log, captureOpen).Some?
    ensures ReportsStops(log, Conclude(log, captureOpen).value.diagnostics)
  {
    ShortLog(log);
  }

  lemma WaitsOfBody(log: seq<Action>, captureOpen: bool)
    requires Conclude(log, captureOpen).Some?
    ensures ReportsWaits(log, Conclude(log, captureOpen).value.diagnostics)
  {
    ShortLog(log);
  }

  /** Removal is asked for only by a cancellation whose stop failed. */
  lemma RemovalFollowsAFailedCancellationStop(log: seq<Action>, i: nat)
    requires Outcome(log).Some? && i < |log| && log[i].AskedRemoval?
    ensures i >= 2 && log[i - 1] == AskedStop(StopFailed) && log[i - 2] == CancelSeen
    ensures Outcome(log).value.status == Cancelled
  {
  }

  /** The exit code is the agent's own, and the status says whether it was cancelled. */
  lemma CodeIsTheAgents(log: seq<Action>)
    requires Outcome(log).Some?
    ensures forall c :: Outcome(log).value.code == Some(c) <==> Exited(Some(c)) in log
    ensures Outcome(log).value.status.Cancelled? <==> CancelSeen in log
  {
    var body := if log[0] == Captured(true) then log[1..] else log;
    assert log == body || log == [Captured(true)] + body;
    CodeOfBody(body, log[0] != Captured(true));
    assert forall a: Action :: a in log <==> a in body || (a == Captured(true) && log[0] == Captured(true));
  }

  lemma CodeOfBody(log: seq<Action>, captureOpen: bool)
    requires Conclude(log, captureOpen).Some?
    ensures forall c :: Conclude(log, captureOpen).value.code == Some(c) <==> Exited(Some(c)) in log
    ensures Conclude(log, captureOpen).value.status.Cancelled? <==> CancelSeen in log
  {
    if |log| == 1 {
      assert log == [log[0]];
    } else if |log| == 2 {
      assert log == [log[0], log[1]];
    } else if |log| == 3 {
      assert log == [log[0], log[1], log[2]];
    } else {
      assert log == [log[0], log[1], log[2], log[3]];
    }
  }

  ghost predicate StopSucceeded(log: seq<Action>) {
    exists i :: 0 <= i < |log| && log[i].AskedStop? && log[i].stop.Stopped?
  }

  /** The producer is known to have stopped exactly on a plain exit, a good stop, or a removal. */
  lemma ProducerStoppedExactly(log: seq<Action>)
    requires Outcome(log).Some?
    ensures Outcome(log).value.producerStopped <==>
              || (log[|log| - 1].Exited? && log[|log| - 1].code.Some? && forall i | 0 <= i < |log| :: !log[i].AskedStop?)
              || StopSucceeded(log)
              || AskedRemoval(true) in log
  {
    var k := if log[0] == Captured(true) then 1 else 0;
    assert log[0] == Captured(true) ==> forall i | 1 <= i < |log| :: log[i] == log[1..][i - 1];
    if log[k] == Exited(None) || log[k] == Captured(false) || log[k] == CancelSeen {
      assert log[k + 1].AskedStop?;
    }
  }

  /** Nothing is reported exactly when the agent exited, or was stopped in time, without any failure. */
  lemma SilentExactly(log: seq<Action>)
    requires Outcome(log).Some?
    ensures Outcome(log).value.diagnostics == [] <==>
              forall i | 0 <= i < |log| ::
                && log[i] != Exited(None) && log[i] != Captured(false)
                && (log[i].AskedStop? ==> log[i].stop == Stopped(false))
    ensures Outcome(log).value.diagnostics == [] ==>
              Outcome(log).value.producerStopped && Outcome(log).value.code.Some?
  {
    var k := if log[0] == Captured(true) then 1 else 0;
    assert log[0] == Captured(true) ==> forall i | 1 <= i < |log| :: log[i] == log[1..][i - 1];
  }
}
