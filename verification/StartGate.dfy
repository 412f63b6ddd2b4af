/** The start gate of one session (src/session.rs) against cancellations that race with it. */
module StartGate {
  import opened Wrappers

  /** Where the session's own task is. */
  datatype Stage =
    | Preparing        // no gate yet
    | Holding          // the gate exists, locked; the token is about to be looked at
    | Proceeding       // the token was clear; nothing has been sent to the broker
    | Creating         // the create request is with the broker
    | Created          // creation returned; the token is about to be looked at
    | AwaitingFence
    | Fenced           // the fence is held; the token is about to be looked at
    | Deciding         // the fence is held and the token was clear
    | Released         // the fence is still held and the gate is open
    | FailedRelease    // the same, after an unlock error
    | Running
    | Finalizing       // topology may exist; removal has not returned
    | Removed          // the removal call has returned
    | Finished

  datatype Gate = NoGate | Locked | Open

  /**
   * `recorded` says that the canceller holding the fence has made its intent durable, and
   * `shutdown` that it is the service's shutdown.
   */
  datatype Holder = Free | Runner | Canceller(recorded: bool, shutdown: bool)

  datatype Seen = Unseen | SeenClear | SeenSet

  /** What held at the moment the gate opened. */
  datatype Opening = Opening(submitted: bool, removed: bool, fenced: bool, token: bool, seen: Seen,
                             unfenced: bool, panicked: bool)

  /**
   * What has happened once and for all: `swept` says that shutdown has been through the fence of
   * this session, and `persistFailed` that it could not record its intent there. `unfenced` says
   * that the token was set outside the fence, and `panicked` that a panic tore the task down.
   */
  datatype Past = Past(swept: bool, persistFailed: bool, unfenced: bool, panicked: bool)

  /** `seen` is the token as the task found it when it took the fence. */
  datatype State = State(stage: Stage, gate: Gate, token: bool, fence: Holder, submitted: bool, removed: bool,
                         seen: Seen, opening: Option<Opening>, past: Past)

  const INITIAL := State(Preparing, NoGate, false, Free, false, false, Unseen, None, Past(false, false, false, false))

  datatype Action =
    | Fail                      // an error ends the current stage
    | Advance                   // the current stage ends without one
    | NoticeCancellation        // the current stage looks at a set token
    | Panic
    | TakeFence(shutdown: bool) // some canceller, or the shutdown, takes the fence
    | RecordIntent              // it records its intent durably
    | SetToken
    | ReleaseFence
    | Cascade                   // after its pass, shutdown cancels every token, holding no fence

  predicate HoldsFence(stage: Stage) {
    stage.Fenced? || stage.Deciding? || stage.Released? || stage.FailedRelease?
  }

  predicate BeforeSubmission(stage: Stage) {
    stage.Preparing? || stage.Holding? || stage.Proceeding?
  }

  predicate BeforeFence(stage: Stage) {
    BeforeSubmission(stage) || stage.Creating? || stage.Created? || stage.AwaitingFence?
  }

  function OpenGate(s: State): State {
    s.(gate := Open,
       opening := Some(Opening(s.submitted, s.removed, s.fence.Runner?, s.token, s.seen, s.past.unfenced, s.past.panicked)))
  }

  function DropGate(s: State): State {
    if s.gate.Locked? then OpenGate(s) else s
  }

  /** The current stage looks at a set token. */
  function Noticed(s: State): State {
    if s.stage.Holding? then DropGate(s).(stage := Finished)
    else if s.stage.Fenced? then s.(stage := Finalizing, fence := Free)
    else if s.stage.Creating? || s.stage.Created? || s.stage.Running? then s.(stage := Finalizing)
    else s
  }

  function Failed(s: State): State {
    if s.stage.Preparing? || s.stage.Proceeding? then DropGate(s).(stage := Finished)
    else if s.stage.Deciding? then DropGate(s).(stage := FailedRelease)
    else if s.stage.Creating? || s.stage.AwaitingFence? || s.stage.Running? then s.(stage := Finalizing)
    else s
  }

  function AdvancedBeforeFence(s: State): State {
    match s.stage
    case Preparing => s.(stage := Holding, gate := Locked)
    case Holding => if s.token then s else s.(stage := Proceeding)
    case Proceeding => s.(stage := Creating, submitted := true)
    case Creating => s.(stage := Created)
    case Created => if s.token then s else s.(stage := AwaitingFence)
    case AwaitingFence =>
      if s.fence.Free? then s.(stage := Fenced, fence := Runner, seen := if s.token then SeenSet else SeenClear) else s
    case _ => s
  }

  function AdvancedFromFence(s: State): State {
    match s.stage
    case Fenced => if s.token then s else s.(stage := Deciding)
    case Deciding => OpenGate(s).(stage := Released)
    case Released => s.(stage := Running, fence := Free)
    case FailedRelease => s.(stage := Finalizing, fence := Free)
    case _ => s
  }

  function AdvancedToEnd(s: State): State {
    match s.stage
    case Running => s.(stage := Finalizing)
    case Finalizing => s.(stage := Removed, removed := true)
    case Removed => DropGate(s).(stage := Finished)
    case _ => s
  }

  /** Unwinding drops what the task holds: its gate and its fence. */
  function Panicked(s: State): State {
    if s.stage.Finished? then s
    else DropGate(s.(past := s.past.(panicked := true))).(stage := Finished, fence := if s.fence.Runner? then Free else s.fence)
  }

  /** A canceller that recorded its intent sets the token before it lets the fence go. */
  function Passed(s: State): State {
    if !s.fence.Canceller? || (s.fence.recorded && !s.token) then s
    else s.(fence := Free,
            past := s.past.(swept := s.past.swept || s.fence.shutdown,
                            persistFailed := s.past.persistFailed || (s.fence.shutdown && !s.fence.recorded)))
  }

  /** The last interrupt of a shutdown, which passes over sessions whose outcome is already chosen. */
  function Cascaded(s: State): State {
    if s.past.swept || s.stage.Finished? then s.(token := true, past := s.past.(unfenced := s.past.unfenced || !s.token)) else s
  }

  /** The next state; an action that cannot happen changes nothing. */
  function Step(s: State, a: Action): State {
    match a
    case Fail => Failed(s)
    case Advance =>
      if BeforeFence(s.stage) then AdvancedBeforeFence(s)
      else if HoldsFence(s.stage) then AdvancedFromFence(s) else AdvancedToEnd(s)
    case NoticeCancellation => if s.token then Noticed(s) else s
    case Panic => Panicked(s)
    case TakeFence(shutdown) => if s.fence.Free? then s.(fence := Canceller(false, shutdown)) else s
    case RecordIntent => if s.fence.Canceller? then s.(fence := s.fence.(recorded := true)) else s
    case SetToken => if s.fence.Canceller? && s.fence.recorded then s.(token := true) else s
    case ReleaseFence => Passed(s)
    case Cascade => Cascaded(s)
  }

  function Run(s: State, actions: seq<Action>): State
    decreases |actions|
  {
    if actions == [] then s else Run(Step(s, actions[0]), actions[1..])
  }

  // ---- What every interleaving keeps ---------------------------------------

  predicate AfterSubmission(stage: Stage) {
    !BeforeSubmission(stage) && !stage.Finished?
  }

  /** Why an open gate was allowed to open. */
  predicate Justified(o: Opening) {
    || o.panicked
    || !o.submitted
    || o.removed
    || (o.fenced && o.seen.SeenClear? && (o.token ==> o.unfenced))
  }

  /** From its creation to its release the gate is locked. */
  predicate GateIsShut(stage: Stage) {
    (BeforeFence(stage) && !stage.Preparing?) || stage.Fenced? || stage.Deciding?
  }

  /** How the token, the fence and what the task saw hang together when the gate opens. */
  predicate Recorded(o: Opening) {
    && (o.fenced ==> !o.seen.Unseen?)
    && (o.seen.SeenSet? ==> o.token)
    && (o.unfenced ==> o.token)
    && (o.fenced && o.seen.SeenClear? && o.token ==> o.unfenced)
  }

  /** What the stages, the fence, the token and shutdown's pass say about each other. */
  predicate Ordered(s: State) {
    && (HoldsFence(s.stage) <==> s.fence.Runner?)
    && (BeforeFence(s.stage) ==> s.seen.Unseen?)
    && (GateIsShut(s.stage) ==> s.gate.Locked?)
    && (s.stage.Released? || s.stage.FailedRelease? || s.stage.Running? ==> s.gate.Open?)
    && (HoldsFence(s.stage) ==> !s.seen.Unseen?)
    && (s.stage.Preparing? ==> s.gate.NoGate?)
    && (s.seen.SeenSet? ==> s.token)
    && (s.past.unfenced ==> s.token && (s.stage.Finished? || s.past.persistFailed))
    && (s.past.swept ==> s.token || s.past.persistFailed)
    && (HoldsFence(s.stage) && s.seen.SeenClear? && s.token ==> s.past.unfenced)
    && (s.stage.Deciding? ==> s.seen.SeenClear?)
    && (BeforeSubmission(s.stage) ==> !s.submitted)
    && (AfterSubmission(s.stage) ==> s.submitted)
    && (s.stage.Removed? ==> s.removed)
    && (s.stage.Finished? ==> !s.gate.Locked? && (s.submitted && !s.past.panicked ==> s.removed))
  }

  /** The gate is open exactly if an opening is on record, which was justified. */
  predicate Accounted(opening: Option<Opening>, open: bool, persistFailed: bool, panicked: bool) {
    && (opening.Some? <==> open)
    && (opening.Some? ==>
          && Justified(opening.value) && Recorded(opening.value)
          && (opening.value.unfenced ==> persistFailed) && (opening.value.panicked ==> panicked))
  }

  predicate Consistent(s: State) {
    Ordered(s) && Accounted(s.opening, s.gate.Open?, s.past.persistFailed, s.past.panicked)
  }

  lemma OpeningIsJustified(s: State)
    requires Ordered(s) && !s.stage.Finished?
    requires s.past.panicked || BeforeSubmission(s.stage) || s.stage.Removed? || s.stage.Deciding?
    ensures Accounted(OpenGate(s).opening, true, s.past.persistFailed, s.past.panicked)
  {
  }

  lemma FailureIsConsistent(s: State)
    requires Consistent(s)
    ensures Consistent(Failed(s))
  {
    hide Accounted;
    if s.stage.Proceeding? || s.stage.Deciding? {
      OpeningIsJustified(s);
    }
  }

  lemma NoticeIsConsistent(s: State)
    requires Consistent(s) && s.token
    ensures Consistent(Noticed(s))
  {
    hide Accounted;
    if s.stage.Holding? {
      OpeningIsJustified(s);
    }
  }

  lemma AdvanceBeforeFenceIsConsistent(s: State)
    requires Consistent(s)
    ensures Consistent(AdvancedBeforeFence(s))
  {
    if s.stage.Preparing? {
    } else {
      hide Accounted;
    }
  }

  lemma AdvanceFromFenceIsConsistent(s: State)
    requires Consistent(s)
    ensures Consistent(AdvancedFromFence(s))
  {
    hide Accounted;
    if s.stage.Deciding? {
      OpeningIsJustified(s);
    }
  }

  lemma AdvanceToEndIsConsistent(s: State)
    requires Consistent(s)
    ensures Consistent(AdvancedToEnd(s))
  {
    hide Accounted;
    if s.stage.Removed? {
      OpeningIsJustified(s);
    }
  }

  lemma PanicIsConsistent(s: State)
    requires Consistent(s)
    ensures Consistent(Panicked(s))
  {
    if !s.stage.Finished? {
      OpeningIsJustified(s.(past := s.past.(panicked := true)));
    }
  }

  lemma PassIsConsistent(s: State)
    requires Consistent(s)
    ensures Consistent(Passed(s))
  {
  }

  lemma CascadeIsConsistent(s: State)
    requires Consistent(s)
    ensures Consistent(Cascaded(s))
  {
  }

  lemma StepIsConsistent(s: State, a: Action)
    requires Consistent(s)
    ensures Consistent(Step(s, a))
  {
    hide Failed, Noticed, AdvancedBeforeFence, AdvancedFromFence, AdvancedToEnd, Panicked, Passed, Cascaded;
    match a
    case Fail => FailureIsConsistent(s);
    case NoticeCancellation => if s.token { NoticeIsConsistent(s); }
    case Advance =>
      AdvanceBeforeFenceIsConsistent(s);
      AdvanceFromFenceIsConsistent(s);
      AdvanceToEndIsConsistent(s);
    case Panic => PanicIsConsistent(s);
    case ReleaseFence => PassIsConsistent(s);
    case Cascade => CascadeIsConsistent(s);
    case _ =>
  }

  lemma InitialIsConsistent()
    ensures Consistent(INITIAL)
  {
  }

  lemma {:induction false} RunIsConsistent(s: State, actions: seq<Action>)
    requires Consistent(s)
    ensures Consistent(Run(s, actions))
    decreases |actions|
  {
    hide Step, Consistent;
    if actions != [] {
      StepIsConsistent(s, actions[0]);
      RunIsConsistent(Step(s, actions[0]), actions[1..]);
    }
  }

  /** Whenever the task has finished, it holds nothing, and what it submitted is removed unless it panicked. */
  lemma NothingIsLeftBehind(actions: seq<Action>)
    ensures var s := Run(INITIAL, actions);
            s.stage.Finished? ==>
              !s.gate.Locked? && !s.fence.Runner? && (s.submitted && !s.past.panicked ==> s.removed)
  {
    hide Run;
    InitialIsConsistent();
    RunIsConsistent(INITIAL, actions);
  }

  // ---- The task always ends ------------------------------------------------

  function Remaining(stage: Stage): nat {
    match stage
    case Preparing => 12
    case Holding => 11
    case Proceeding => 10
    case Creating => 9
    case Created => 8
    case AwaitingFence => 7
    case Fenced => 6
    case Deciding => 5
    case Released => 4
    case FailedRelease => 4
    case Running => 3
    case Finalizing => 2
    case Removed => 1
    case Finished => 0
  }

  /** The task looks at the token wherever it does, and goes on if it may. */
  function OwnSteps(n: nat): seq<Action> {
    if n == 0 then [] else [NoticeCancellation, Advance] + OwnSteps(n - 1)
  }

  lemma OpeningChangesTheGateAlone(s: State)
    ensures OpenGate(s).stage == s.stage && OpenGate(s).fence == s.fence && OpenGate(s).token == s.token
    ensures DropGate(s).stage == s.stage && DropGate(s).fence == s.fence && DropGate(s).token == s.token
  {
  }

  /** Looking at a set token ends every stage that stops for one. */
  lemma LookingEndsTheStage(s: State)
    ensures Noticed(s).fence.Free? || Noticed(s).fence == s.fence
    ensures Noticed(s).token == s.token
    ensures s.stage.Holding? ==> Noticed(s).stage.Finished?
    ensures s.stage.Creating? || s.stage.Created? || s.stage.Fenced? || s.stage.Running? ==> Noticed(s).stage.Finalizing?
    ensures Noticed(s).stage == s.stage || Noticed(s).stage.Finished? || Noticed(s).stage.Finalizing?
    ensures s.stage.Removed? || s.stage.Finished? ==> Noticed(s).stage == s.stage
  {
    OpeningChangesTheGateAlone(s);
    hide OpenGate, DropGate;
  }

  lemma LookingGoesOn(s: State)
    requires !s.fence.Canceller?
    ensures var t := Step(s, NoticeCancellation);
            && !t.fence.Canceller? && t.token == s.token && Remaining(t.stage) <= Remaining(s.stage)
            && (t.token ==> !t.stage.Holding? && !t.stage.Created? && !t.stage.Fenced?)
  {
    hide Noticed;
    LookingEndsTheStage(s);
  }

  predicate Further(s: State, t: State) {
    !t.fence.Canceller? && (t.stage == s.stage == Finished || Remaining(t.stage) < Remaining(s.stage))
  }

  lemma GoesOnBeforeFence(s: State)
    requires !s.fence.Canceller? && !s.fence.Runner? && BeforeFence(s.stage)
    requires s.token ==> !s.stage.Holding? && !s.stage.Created?
    ensures Further(s, AdvancedBeforeFence(s))
  {
  }

  lemma GoesOnFromFence(s: State)
    requires !s.fence.Canceller? && HoldsFence(s.stage) && (s.token ==> !s.stage.Fenced?)
    ensures Further(s, AdvancedFromFence(s))
  {
    OpeningChangesTheGateAlone(s);
    hide OpenGate, DropGate;
  }

  lemma GoesOnToEnd(s: State)
    requires !s.fence.Canceller? && !BeforeFence(s.stage) && !HoldsFence(s.stage)
    ensures Further(s, AdvancedToEnd(s))
  {
    OpeningChangesTheGateAlone(s);
    hide OpenGate, DropGate;
  }

  lemma AdvanceGoesOn(s: State)
    requires !s.fence.Canceller? && (HoldsFence(s.stage) <==> s.fence.Runner?)
    requires s.token ==> !s.stage.Holding? && !s.stage.Created? && !s.stage.Fenced?
    ensures Further(s, Step(s, Advance))
  {
    hide AdvancedBeforeFence, AdvancedFromFence, AdvancedToEnd, Further;
    if BeforeFence(s.stage) {
      GoesOnBeforeFence(s);
    } else if HoldsFence(s.stage) {
      GoesOnFromFence(s);
    } else {
      GoesOnToEnd(s);
    }
  }

  /** Unless a canceller has the fence, looking and going on always takes the task further. */
  lemma OwnStepGoesOn(s: State)
    requires Consistent(s) && !s.fence.Canceller?
    ensures var t := Step(Step(s, NoticeCancellation), Advance);
            Consistent(t) && Further(s, t)
  {
    StepIsConsistent(s, NoticeCancellation);
    StepIsConsistent(Step(s, NoticeCancellation), Advance);
    LookingGoesOn(s);
    FenceIsHeldExactly(Step(s, NoticeCancellation));
    AdvanceGoesOn(Step(s, NoticeCancellation));
    hide Consistent, Step;
  }

  lemma FenceIsHeldExactly(s: State)
    requires Consistent(s)
    ensures HoldsFence(s.stage) <==> s.fence.Runner?
  {
  }

  lemma {:induction false} OwnStepsFinish(s: State, n: nat)
    requires Consistent(s) && !s.fence.Canceller? && Remaining(s.stage) <= n
    ensures Run(s, OwnSteps(n)).stage.Finished? && Consistent(Run(s, OwnSteps(n)))
    decreases n
  {
    hide Step, Consistent;
    if n > 0 {
      OwnStepGoesOn(s);
      var t := Step(Step(s, NoticeCancellation), Advance);
      RunTwo(s, NoticeCancellation, Advance, OwnSteps(n - 1));
      OwnStepsFinish(t, n - 1);
    } else {
      assert s.stage.Finished?;
    }
  }

  lemma RunTwo(s: State, a: Action, b: Action, rest: seq<Action>)
    ensures Run(s, [a, b] + rest) == Run(Step(Step(s, a), b), rest)
  {
    hide Step;
    var actions := [a, b] + rest;
    assert actions[1..] == [b] + rest && ([b] + rest)[1..] == rest;
  }

  /**
   * After any interleaving, cancelled or not, the task comes to its end by its own steps alone once
   * a canceller that holds the fence has let it go; then the gate is not locked, the fence is not
   * the task's, and what it submitted is removed unless it panicked.
   */
  lemma EveryTaskCanFinish(actions: seq<Action>)
    ensures var s := Run(Run(INITIAL, actions), [SetToken, ReleaseFence] + OwnSteps(12));
            && s.stage.Finished? && !s.gate.Locked? && !s.fence.Runner?
            && (s.submitted && !s.past.panicked ==> s.removed)
  {
    hide Run, Failed, Noticed, AdvancedBeforeFence, AdvancedFromFence, AdvancedToEnd, Panicked, Cascaded, Accounted;
    var s := Run(INITIAL, actions);
    InitialIsConsistent();
    RunIsConsistent(INITIAL, actions);
    var freed := Step(Step(s, SetToken), ReleaseFence);
    StepIsConsistent(s, SetToken);
    StepIsConsistent(Step(s, SetToken), ReleaseFence);
    RunTwo(s, SetToken, ReleaseFence, OwnSteps(12));
    OwnStepsFinish(freed, 12);
  }

  /** Once a task is past running, or its release of the gate failed, it never runs again. */
  predicate PastRunning(stage: Stage) {
    stage.FailedRelease? || stage.Finalizing? || stage.Removed? || stage.Finished?
  }

  lemma {:induction false} NeverRunsAgain(s: State, actions: seq<Action>)
    requires PastRunning(s.stage)
    ensures PastRunning(Run(s, actions).stage)
    decreases |actions|
  {
    if actions != [] {
      PastRunningStays(s, actions[0]);
      hide Step, PastRunning;
      NeverRunsAgain(Step(s, actions[0]), actions[1..]);
    }
  }

  lemma PastRunningAdvances(s: State)
    ensures s.stage.FailedRelease? ==> AdvancedFromFence(s).stage.Finalizing?
    ensures s.stage.Finalizing? ==> AdvancedToEnd(s).stage.Removed?
    ensures s.stage.Removed? || s.stage.Finished? ==> AdvancedToEnd(s).stage.Finished?
  {
  }

  lemma PastRunningStays(s: State, a: Action)
    requires PastRunning(s.stage)
    ensures PastRunning(Step(s, a).stage)
  {
    PastRunningAdvances(s);
    hide AdvancedBeforeFence, AdvancedFromFence, AdvancedToEnd;
  }

  /** An error at any stage that can have one, or a token seen where one is looked at, ends the run for good. */
  lemma StoppedTaskNeverRuns(s: State, a: Action, actions: seq<Action>)
    requires || (a.Fail? && (s.stage.Preparing? || s.stage.Proceeding? || s.stage.Creating? || s.stage.AwaitingFence?
                             || s.stage.Deciding? || s.stage.Running?))
             || (a.NoticeCancellation? && s.token
                 && (s.stage.Holding? || s.stage.Creating? || s.stage.Created? || s.stage.Fenced? || s.stage.Running?))
    ensures PastRunning(Run(Step(s, a), actions).stage)
  {
    LookingEndsTheStage(s);
    hide Noticed, Run;
    NeverRunsAgain(Step(s, a), actions);
  }

  // ---- What the record says of the run -------------------------------------

  lemma RunStarts(s: State, actions: seq<Action>, k: nat)
    requires 0 < k <= |actions|
    ensures Run(s, actions[..k]) == Run(Step(s, actions[0]), actions[1..][..k - 1])
  {
    hide Step;
    assert actions[..k][1..] == actions[1..][..k - 1];
  }

  /** Some shutdown let the fence go without having recorded its intent. */
  ghost predicate IntentFailed(s: State, actions: seq<Action>) {
    exists k | 0 <= k < |actions| :: actions[k].ReleaseFence? && Run(s, actions[..k]).fence == Canceller(false, true)
  }

  /** Some cascade found the token unset and set it. */
  ghost predicate WentAround(s: State, actions: seq<Action>) {
    exists k | 0 <= k < |actions| ::
      actions[k].Cascade? && !Run(s, actions[..k]).token && Step(Run(s, actions[..k]), Cascade).token
  }

  /** The task panicked before it had finished. */
  ghost predicate PanickedIn(s: State, actions: seq<Action>) {
    exists k | 0 <= k < |actions| :: actions[k].Panic? && !Run(s, actions[..k]).stage.Finished?
  }

  /** Only a panic, a canceller that lets the fence go and a cascade are recorded. */
  lemma OthersLeaveThePast(s: State)
    ensures Failed(s).past == s.past && Noticed(s).past == s.past
    ensures AdvancedBeforeFence(s).past == s.past
    ensures AdvancedFromFence(s).past == s.past
    ensures AdvancedToEnd(s).past == s.past
  {
  }

  lemma TheseRecord(s: State)
    ensures Panicked(s).past == s.past.(panicked := s.past.panicked || !s.stage.Finished?)
    ensures Passed(s).past.persistFailed <==> s.past.persistFailed || s.fence == Canceller(false, true)
    ensures Passed(s).past.unfenced == s.past.unfenced && Passed(s).past.panicked == s.past.panicked
    ensures Cascaded(s).past == s.past.(unfenced := s.past.unfenced || (!s.token && Cascaded(s).token))
  {
  }

  lemma StepRecordsTheIntent(s: State, a: Action)
    ensures Step(s, a).past.persistFailed <==> s.past.persistFailed || (a.ReleaseFence? && s.fence == Canceller(false, true))
  {
    OthersLeaveThePast(s);
    TheseRecord(s);
    hide Failed, Noticed, AdvancedBeforeFence, AdvancedFromFence, AdvancedToEnd, Panicked, Passed, Cascaded;
  }

  lemma StepRecordsTheCascade(s: State, a: Action)
    ensures Step(s, a).past.unfenced <==> s.past.unfenced || (a.Cascade? && !s.token && Step(s, Cascade).token)
  {
    OthersLeaveThePast(s);
    TheseRecord(s);
    hide Failed, Noticed, AdvancedBeforeFence, AdvancedFromFence, AdvancedToEnd, Panicked, Passed, Cascaded;
  }

  lemma StepRecordsThePanic(s: State, a: Action)
    ensures Step(s, a).past.panicked <==> s.past.panicked || (a.Panic? && !s.stage.Finished?)
  {
    OthersLeaveThePast(s);
    TheseRecord(s);
    hide Failed, Noticed, AdvancedBeforeFence, AdvancedFromFence, AdvancedToEnd, Panicked, Passed, Cascaded;
  }

  /** The flags of a state are what has happened: a failed intent, a cancellation around the fence, a panic. */
  lemma {:induction false} FlagsAreHistory(s: State, actions: seq<Action>)
    ensures Run(s, actions).past.persistFailed <==> s.past.persistFailed || IntentFailed(s, actions)
    ensures Run(s, actions).past.unfenced <==> s.past.unfenced || WentAround(s, actions)
    ensures Run(s, actions).past.panicked <==> s.past.panicked || PanickedIn(s, actions)
    decreases |actions|
  {
    if actions != [] {
      var next, rest := Step(s, actions[0]), actions[1..];
      StepRecordsTheIntent(s, actions[0]);
      StepRecordsTheCascade(s, actions[0]);
      StepRecordsThePanic(s, actions[0]);
      FlagsAreHistory(next, rest);
      HistoryStarts(s, actions);
    }
  }

  lemma HistoryStarts(s: State, actions: seq<Action>)
    requires actions != []
    ensures var (next, rest) := (Step(s, actions[0]), actions[1..]);
            && (IntentFailed(s, actions) <==>
                  (actions[0].ReleaseFence? && s.fence == Canceller(false, true)) || IntentFailed(next, rest))
            && (WentAround(s, actions) <==> (actions[0].Cascade? && !s.token && next.token) || WentAround(next, rest))
            && (PanickedIn(s, actions) <==> (actions[0].Panic? && !s.stage.Finished?) || PanickedIn(next, rest))
  {
    hide Step;
    var next, rest := Step(s, actions[0]), actions[1..];
    assert Run(s, actions[..0]) == s;
    forall k | 0 < k <= |actions|
      ensures Run(s, actions[..k]) == Run(next, rest[..k - 1]) && (k < |actions| ==> actions[k] == rest[k - 1])
    {
      RunStarts(s, actions, k);
    }
  }

  /** The gate opens in the step that takes `before` to `after`, and `o` says what held then. */
  predicate OpensWith(before: State, after: State, o: Opening) {
    && !before.gate.Open? && after.gate.Open? && after.opening == Some(o)
    && o == Opening(before.submitted, before.removed, before.fence.Runner?, before.token, before.seen,
                    before.past.unfenced, after.past.panicked)
  }

  lemma StepOpensOnce(s: State, a: Action)
    requires Consistent(s)
    ensures s.opening.Some? ==> Step(s, a).opening == s.opening
    ensures s.opening.None? && Step(s, a).opening.Some? ==> OpensWith(s, Step(s, a), Step(s, a).opening.value)
  {
    StepIsConsistent(s, a);
    hide Justified, Recorded;
  }

  lemma {:induction false} OpeningStays(s: State, actions: seq<Action>)
    requires Consistent(s) && s.opening.Some?
    ensures Run(s, actions).opening == s.opening
    decreases |actions|
  {
    hide Step, Consistent;
    if actions != [] {
      StepIsConsistent(s, actions[0]);
      StepOpensOnce(s, actions[0]);
      OpeningStays(Step(s, actions[0]), actions[1..]);
    }
  }

  /** The gate opens at most once, and what is recorded of its opening is what held at that moment. */
  lemma {:induction false} OpeningIsTheMoment(s: State, actions: seq<Action>)
    requires Consistent(s) && s.opening.None? && Run(s, actions).opening.Some?
    ensures exists k | 0 <= k < |actions| ::
              OpensWith(Run(s, actions[..k]), Step(Run(s, actions[..k]), actions[k]), Run(s, actions).opening.value)
    decreases |actions|
  {
    hide Step, Consistent, OpensWith;
    var next, rest := Step(s, actions[0]), actions[1..];
    StepIsConsistent(s, actions[0]);
    StepOpensOnce(s, actions[0]);
    if next.opening.Some? {
      OpeningStays(next, rest);
      assert Run(s, actions[..0]) == s;
    } else {
      OpeningIsTheMoment(next, rest);
      var k :| 0 <= k < |rest| && OpensWith(Run(next, rest[..k]), Step(Run(next, rest[..k]), rest[k]),
                                            Run(next, rest).opening.value);
      RunStarts(s, actions, k + 1);
      assert rest == actions[1..] && actions[k + 1] == rest[k];
    }
  }

  /** A canceller that finds the fence free and records its intent has the token set under it, and fails nothing. */
  lemma RecordedCancellationIsSeen(s: State, shutdown: bool)
    requires s.fence.Free?
    ensures Run(s, [TakeFence(shutdown), RecordIntent, SetToken, ReleaseFence])
            == s.(token := true, past := s.past.(swept := s.past.swept || shutdown))
  {
    hide Failed, Noticed, AdvancedBeforeFence, AdvancedFromFence, AdvancedToEnd, Panicked, Cascaded;
    RunTwo(s, TakeFence(shutdown), RecordIntent, [SetToken, ReleaseFence]);
    var recorded := Step(Step(s, TakeFence(shutdown)), RecordIntent);
    RunTwo(recorded, SetToken, ReleaseFence, []);
    assert [TakeFence(shutdown), RecordIntent] + [SetToken, ReleaseFence]
        == [TakeFence(shutdown), RecordIntent, SetToken, ReleaseFence];
    assert [SetToken, ReleaseFence] + [] == [SetToken, ReleaseFence];
  }

  // ---- In order and out of order -------------------------------------------

  /** Nothing was submitted, removal has returned, or the task holds the fence with the token unset. */
  predicate InOrder(o: Opening) {
    !o.submitted || o.removed || (o.fenced && !o.token)
  }

  /**
   * Over every interleaving, the gate opens in order exactly when it opens before submission,
   * after removal returned, or under a fence at which the token was seen clear and that no
   * unfenced cancellation has gone around.
   */
  lemma GateOpensInOrder(actions: seq<Action>)
    ensures var s := Run(INITIAL, actions);
            s.opening.Some? ==>
              var o := s.opening.value;
              InOrder(o) <==> !o.submitted || o.removed || (o.fenced && o.seen.SeenClear? && !o.unfenced)
  {
    hide Run;
    InitialIsConsistent();
    RunIsConsistent(INITIAL, actions);
  }

  /**
   * It opens out of order only by a panic, or under the task's own fence by a shutdown that went
   * around it after failing to record its intent for this very session.
   */
  lemma OutOfOrderOnlyByPanicOrFailedIntent(actions: seq<Action>)
    ensures var s := Run(INITIAL, actions);
            s.opening.Some? && !InOrder(s.opening.value) ==>
              || s.opening.value.panicked
              || (s.opening.value.fenced && s.opening.value.unfenced && s.past.persistFailed)
  {
    hide Run;
    InitialIsConsistent();
    RunIsConsistent(INITIAL, actions);
  }

  predicate Harmless(opening: Option<Opening>) {
    opening.Some? ==> opening.value.panicked || !opening.value.submitted || opening.value.removed
  }

  /** The token was set before the task took the fence, so that it never goes past it. */
  predicate CancelledFirst(s: State) {
    s.token && !s.seen.SeenClear? && Harmless(s.opening)
  }

  lemma HarmlessOpening(s: State)
    requires Ordered(s) && !s.stage.Finished?
    requires s.past.panicked || BeforeSubmission(s.stage) || s.stage.Removed?
    ensures Harmless(OpenGate(s).opening)
  {
  }

  lemma CancelledFirstAdvances(s: State)
    requires Consistent(s) && CancelledFirst(s)
    ensures CancelledFirst(Step(s, Advance))
  {
    hide Harmless, Accounted;
    if s.stage.Removed? {
      HarmlessOpening(s);
    }
  }

  lemma CancelledFirstStays(s: State, a: Action)
    requires Consistent(s) && CancelledFirst(s)
    ensures CancelledFirst(Step(s, a))
  {
    hide Harmless, Accounted, AdvancedBeforeFence, AdvancedFromFence, AdvancedToEnd;
    if a.Advance? {
      CancelledFirstAdvances(s);
    }
    if a.Panic? && !s.stage.Finished? {
      HarmlessOpening(s.(past := s.past.(panicked := true)));
    } else if BeforeSubmission(s.stage) || s.stage.Removed? {
      HarmlessOpening(s);
    }
  }

  lemma {:induction false} CancelledFirstForGood(s: State, actions: seq<Action>)
    requires Consistent(s) && CancelledFirst(s)
    ensures CancelledFirst(Run(s, actions))
    decreases |actions|
  {
    hide Step, Consistent, CancelledFirst;
    if actions != [] {
      StepIsConsistent(s, actions[0]);
      CancelledFirstStays(s, actions[0]);
      CancelledFirstForGood(Step(s, actions[0]), actions[1..]);
    }
  }

  /**
   * A cancellation published before the task takes the fence, however it was published and
   * whatever happens after it, keeps the gate shut while topology may exist: it opens only before
   * submission or after removal returned, unless a panic drops it.
   */
  lemma EarlyCancellationKeepsTheGateShut(before: seq<Action>, after: seq<Action>)
    requires var s := Run(INITIAL, before); s.token && BeforeFence(s.stage)
    ensures var s := Run(Run(INITIAL, before), after);
            s.opening.Some? ==> s.opening.value.panicked || !s.opening.value.submitted || s.opening.value.removed
  {
    hide Run, Step;
    var s := Run(INITIAL, before);
    InitialIsConsistent();
    RunIsConsistent(INITIAL, before);
    CancelledFirstForGood(s, after);
  }

  function Advances(s: State, n: nat): State
    decreases n
  {
    if n == 0 then s else Advances(Step(s, Advance), n - 1)
  }

  lemma {:induction false} AdvancesAreARun(s: State, n: nat)
    ensures Run(s, seq(n, _ => Advance)) == Advances(s, n)
    decreases n
  {
    if n > 0 {
      var actions := seq(n, _ => Advance);
      assert actions[1..] == seq(n - 1, _ => Advance);
      AdvancesAreARun(Step(s, Advance), n - 1);
    }
  }

  /**
   * A shutdown that could not record its intent sets the token between the task's check and its
   * release of the gate.
   */
  lemma UnfencedShutdownCanOpenACancelledGate()
    ensures var passed := Step(Step(INITIAL, TakeFence(true)), ReleaseFence);
            var s := Step(Step(Run(passed, seq(7, _ => Advance)), Cascade), Advance);
            && s.opening.Some? && !s.past.panicked && !InOrder(s.opening.value)
            && s.opening.value.submitted && !s.opening.value.removed && s.opening.value.token
  {
    hide Advances;
    var passed := Step(Step(INITIAL, TakeFence(true)), ReleaseFence);
    assert passed == INITIAL.(past := Past(true, true, false, false));
    AdvancesAreARun(passed, 7);
    AdvancesToCreation(passed);
    AdvancesPastTheFence(passed.(stage := Created, gate := Locked, submitted := true));
    AdvancesCompose(passed, 4, 3);
  }

  lemma AdvanceOnce(s: State, n: nat)
    ensures Advances(s, n + 1) == Advances(Step(s, Advance), n)
    ensures Advances(s, 0) == s
  {
  }

  lemma AdvancesToCreation(s: State)
    requires s.stage.Preparing? && !s.token
    ensures Advances(s, 4) == s.(stage := Created, gate := Locked, submitted := true)
  {
    hide Advances;
    var holding := s.(stage := Holding, gate := Locked);
    var proceeding := holding.(stage := Proceeding);
    var creating := proceeding.(stage := Creating, submitted := true);
    AdvanceOnce(s, 3);
    AdvanceOnce(holding, 2);
    AdvanceOnce(proceeding, 1);
    AdvanceOnce(creating, 0);
    AdvanceOnce(creating.(stage := Created), 0);
  }

  lemma AdvancesPastTheFence(s: State)
    requires s.stage.Created? && !s.token && s.fence.Free?
    ensures Advances(s, 3) == s.(stage := Deciding, fence := Runner, seen := SeenClear)
  {
    hide Advances;
    var awaiting := s.(stage := AwaitingFence);
    var fenced := awaiting.(stage := Fenced, fence := Runner, seen := SeenClear);
    AdvanceOnce(s, 2);
    AdvanceOnce(awaiting, 1);
    AdvanceOnce(fenced, 0);
    AdvanceOnce(fenced.(stage := Deciding), 0);
  }

  lemma {:induction false} AdvancesCompose(s: State, m: nat, n: nat)
    ensures Advances(s, m + n) == Advances(Advances(s, m), n)
    decreases m
  {
    if m > 0 {
      AdvancesCompose(Step(s, Advance), m - 1, n);
    }
  }

  /** A task that nothing fails or cancels opens the gate under its fence, and runs. */
  lemma UndisturbedTaskRuns()
    ensures var s := Run(INITIAL, seq(9, _ => Advance));
            s.stage.Running? && s.gate.Open? && s.fence.Free? && s.submitted && s.opening.Some? && InOrder(s.opening.value)
  {
    hide Advances;
    var creating := INITIAL.(stage := Created, gate := Locked, submitted := true);
    var deciding := creating.(stage := Deciding, fence := Runner, seen := SeenClear);
    AdvancesAreARun(INITIAL, 9);
    AdvancesToCreation(INITIAL);
    AdvancesPastTheFence(creating);
    AdvancesCompose(INITIAL, 4, 5);
    AdvancesCompose(creating, 3, 2);
    AdvanceOnce(deciding, 1);
    AdvanceOnce(Step(deciding, Advance), 0);
    AdvanceOnce(Step(Step(deciding, Advance), Advance), 0);
  }

  /** A panic drops the gate while topology may exist. */
  lemma PanicCanOpenTheGate()
    ensures var s := Step(Run(INITIAL, seq(4, _ => Advance)), Panic);
            && s.opening.Some? && !s.past.unfenced
            && s.opening.value.submitted && !s.opening.value.removed && !s.opening.value.fenced
  {
    AdvancesAreARun(INITIAL, 4);
  }
}
