/** How a session ends (src/session.rs): teardown, the run past readiness, and setup failures. */
module Endings {
  import opened RawEvidence
  import opened Publication
  import opened RawMarker
  import opened Recovery
  import opened Settlement
  import opened Wrappers

  // ---- Teardown ------------------------------------------------------------

  datatype Container = Container(present: bool, running: bool)

  datatype Quiescence = Quiescence(agent: Container, relay: Container, capture: Container, quiescent: bool) {
    predicate Running() {
      agent.running || relay.running || capture.running
    }

    predicate Present() {
      agent.present || relay.present || capture.present
    }

    /** The broker's own summary must follow from what it lists. */
    predicate Contradictory() {
      || quiescent == Running()
      || (agent.running && !agent.present) || (relay.running && !relay.present) || (capture.running && !capture.present)
    }
  }

  datatype Note =
    | Settling(cause: Diagnostic) | Given(text: string)
    | RemovalError | NotQuiescent | StillPresent | ProofError
    | ProgressError | CaptureSkipped | CaptureInvalid | CaptureUnproved | SidecarError | SyncError | LogsError
    | ExitUnread | ExitsDisagree | SnapshotUnread | NotCertified | StderrUnread | ResponseError
    | BundleError | TreeRetained | MarkerError | TreeMissing

  /** The broker said that nothing runs, and listed nothing that does. */
  predicate Quiet(report: Option<Quiescence>) {
    && report.Some? && report.value.quiescent
    && !report.value.agent.running && !report.value.relay.running && !report.value.capture.running
  }

  /** The containers were removed, and the broker said and showed that none is left. */
  predicate TornDown(removed: bool, report: Option<Quiescence>) {
    && removed && Quiet(report)
    && !report.value.agent.present && !report.value.relay.present && !report.value.capture.present
  }

  /** `report` is absent when the broker could not be asked. */
  method RemoveAndProveQuiescent(removed: bool, report: Option<Quiescence>) returns (proof: Teardown, notes: seq<Note>)
    ensures proof.complete <==> notes == []
    ensures proof.complete <==> TornDown(removed, report)
    ensures proof.quiescent <==> Quiet(report)
    ensures proof.complete ==> proof.quiescent
  {
    notes := if removed then [] else [RemovalError];
    if report.None? || report.value.Contradictory() {
      return Teardown(false, false), notes + [ProofError];
    }
    var state := report.value;
    if !state.quiescent {
      notes := notes + [NotQuiescent];
    }
    var absent := !state.agent.present && !state.relay.present && !state.capture.present;
    if removed && !absent {
      notes := notes + [StillPresent];
    }
    proof := Teardown(removed && absent && state.quiescent, state.quiescent);
  }

  /** Keeps the raw tree as evidence; the terminal claims it even if the marker cannot be written. */
  method RetainRawEvidence(root: Root, written: bool) returns (retained: bool, notes: seq<Note>)
    ensures retained <==> root.SafeRoot?
    ensures notes != []
  {
    if !root.SafeRoot? {
      return false, [TreeMissing];
    }
    return true, if written then [TreeRetained] else [TreeRetained, MarkerError];
  }

  // ---- The bundle on each way of ending ------------------------------------

  datatype Prior = NoPrior | PriorFile | PriorOther | PriorUnread

  /** `layout` says that panic recovery found or rebuilt the session's directories. */
  datatype Attempt = Attempt(layout: bool, prior: Prior, created: bool)

  function Accepted(phase: Phase, teardown: Teardown, a: Attempt): bool {
    match phase
    case Normal => teardown.quiescent && a.created
    case SetupFailure => teardown.quiescent && a.created
    case PanicRecovery => a.layout && a.prior.NoPrior? && teardown.quiescent && a.created
    case ServiceRestart => a.prior.NoPrior? && teardown.quiescent && a.created
  }

  /**
   * On every way of ending, the cause of a retention fits the terminal. With the tree in place,
   * the terminal can be published exactly if a decided retention was marked; with no tree, exactly
   * if no archive is left that was not accepted. The next startup accepts exactly what was published.
   */
  lemma EveryEndingIsAcceptable(phase: Phase, teardown: Teardown, a: Attempt, size: nat, prior: Archive, root: Root,
                                written: bool, id: string, inode: nat, others: bool, io: Io)
    requires size > 0 && SafeSessionId(id)
    ensures var accepted := Accepted(phase, teardown, a);
            var decision := RetentionDecision(teardown, accepted, phase);
            var s := Finalized(teardown, if accepted then Some(size) else None,
                               if accepted then Archive(true, size) else prior, phase, root, written, id, inode, others);
            && (accepted <==>
                  && teardown.quiescent && a.created && (phase.PanicRecovery? ==> a.layout)
                  && (phase.PanicRecovery? || phase.ServiceRestart? ==> a.prior.NoPrior?))
            && (decision.Some? ==> CauseFits(decision.value, accepted))
            && Prepared(s)
            && (Publishable(s)
                <==> match root
                     case SafeRoot => decision.Some? ==> written
                     case UnsafeRoot => false
                     case NoRoot => accepted || prior.NoArchive?)
            && (forall t | t in [s] + Finish(s, io) :: Acceptable(t) <==> Published(t))
            && (AllSucceed(io) ==> (Published(LastSlot(s, Finish(s, io))) <==> Publishable(s)))
  {
    hide Finalized, Acceptable, RetentionDecision, SafeSessionId, Finish, Publishable, Prepared;
    var accepted := Accepted(phase, teardown, a);
    var bundle := if accepted then Some(size) else None;
    var archive := if accepted then Archive(true, size) else prior;
    DecisionFitsExactly(teardown, accepted, phase);
    FinalizedIsPublishableExactly(teardown, bundle, archive, phase, root, written, id, inode, others);
    StartupAcceptsExactlyWhatWasPublished(teardown, bundle, archive, phase, root, written, id, inode, others, io);
  }

  // ---- Missing deliverables ------------------------------------------------

  /** Whether `part` can be drawn from `whole` in order, each item at its first chance. */
  predicate Drawn(part: seq<string>, whole: seq<string>)
    decreases |whole|
  {
    if part == [] then true
    else if whole == [] then false
    else if part[0] == whole[0] then Drawn(part[1..], whole[1..])
    else Drawn(part, whole[1..])
  }

  ghost predicate Places(part: seq<string>, whole: seq<string>, places: seq<nat>) {
    && |places| == |part|
    && (forall i | 0 <= i < |places| :: places[i] < |whole| && whole[places[i]] == part[i])
    && (forall i, j | 0 <= i < j < |places| :: places[i] < places[j])
  }

  lemma {:induction false} DrawnHasPlaces(part: seq<string>, whole: seq<string>) returns (places: seq<nat>)
    requires Drawn(part, whole)
    ensures Places(part, whole, places)
    decreases |whole|
  {
    if part == [] {
      places := [];
    } else if part[0] == whole[0] {
      var rest := DrawnHasPlaces(part[1..], whole[1..]);
      places := [0] + seq(|rest|, i requires 0 <= i < |rest| => rest[i] + 1);
      assert forall i | 0 < i < |places| :: places[i] == rest[i - 1] + 1 && part[i] == part[1..][i - 1];
    } else {
      var rest := DrawnHasPlaces(part, whole[1..]);
      places := seq(|rest|, i requires 0 <= i < |rest| => rest[i] + 1);
    }
  }

  lemma {:induction false} PlacesAreDrawn(part: seq<string>, whole: seq<string>, places: seq<nat>)
    requires Places(part, whole, places)
    ensures Drawn(part, whole)
    decreases |whole|
  {
    if part != [] {
      assert places[0] < |whole|;
      if part[0] == whole[0] {
        var rest := seq(|part| - 1, i requires 0 <= i < |part| - 1 => places[i + 1] - 1);
        assert forall i | 0 < i < |places| :: places[0] < places[i];
        PlacesAreDrawn(part[1..], whole[1..], rest);
      } else {
        assert places[0] > 0;
        assert forall i | 0 < i < |places| :: places[0] < places[i];
        PlacesAreDrawn(part, whole[1..], seq(|places|, i requires 0 <= i < |places| => places[i] - 1));
      }
    }
  }

  // ---- A run past readiness ------------------------------------------------

  datatype Capture = CaptureFailed | CaptureReported(valid: bool)

  datatype Certified = Certified(subtype: string, missing: Option<seq<string>>)

  /** The one read of the stream, when the capture proved it complete. */
  datatype Snapshot = SnapshotFailed | NoStream | SnapshotRead(certified: Option<Certified>)

  datatype ExitSidecar = Unreadable | SidecarRead(code: Option<int>)

  /** Everything a run meets after it has settled; each flag says that one step succeeded. */
  datatype Run = Run(settled: Settled, capturing: bool, cancelledDuringCapture: bool, capture: Capture,
                     sidecarWritten: bool, outputSynced: bool, logsRead: bool, tearingDown: bool, removed: bool,
                     report: Option<Quiescence>, logsWritten: bool, sidecar: ExitSidecar, snapshot: Snapshot,
                     observations: bool, stderrRead: bool, responseWritten: bool, bundling: bool, bundled: bool,
                     root: Root, markerWritten: bool)

  datatype Body = Body(status: Status, containerCode: Option<int>, agentCode: Option<int>, processError: bool,
                       notes: seq<Note>, certified: Option<Certified>, bundled: bool, retained: bool)

  predicate MissingFit(c: Certified, declared: seq<string>) {
    c.missing.Some? ==> Drawn(c.missing.value, declared)
  }

  /** Whether a finished agent is a process error: no certified record, or an exit that disagrees with it. */
  function ProcessOutcome(status: Status, certified: Option<Certified>, container: Option<int>, agent: Option<int>,
                          exits: map<string, int>): (processError: bool)
    ensures !processError <==>
              && certified.Some?
              && (status.Ended? ==> certified.value.subtype in exits
                                    && container == agent == Some(exits[certified.value.subtype]))
  {
    match (certified, status)
    case (None, _) => true
    case (Some(c), Ended) =>
      var expected := if c.subtype in exits then Some(exits[c.subtype]) else None;
      !(expected.Some? && container == expected && agent == expected)
    case (Some(_), Cancelled) => false
  }

  /** Every part of the run succeeded, and its exits say what its certified record says. */
  predicate Clean(run: Run, declared: seq<string>, exits: map<string, int>) {
    && run.settled.diagnostics == [] && run.settled.producerStopped
    && run.capturing && run.capture == CaptureReported(true)
    && (run.settled.code.Some? ==> run.sidecarWritten)
    && run.outputSynced && run.logsRead && run.tearingDown && TornDown(run.removed, run.report) && run.logsWritten
    && run.sidecar == SidecarRead(run.settled.code)
    && run.snapshot.SnapshotRead? && run.snapshot.certified.Some? && MissingFit(run.snapshot.certified.value, declared)
    && (run.settled.status.Ended? && !run.cancelledDuringCapture ==>
          && run.snapshot.certified.value.subtype in exits
          && run.settled.code == Some(exits[run.snapshot.certified.value.subtype]))
    && run.responseWritten && run.bundling && run.bundled
  }

  function Noted(ok: bool, note: Note): (notes: seq<Note>)
    ensures notes == [] <==> ok
  {
    if ok then [] else [note]
  }

  function Join(notes: seq<Note>, more: seq<Note>): (all: seq<Note>)
    ensures all == [] <==> notes == [] && more == []
  {
    notes + more
  }

  /** What the run did up to its teardown was noteworthy nowhere. */
  predicate Drained(run: Run) {
    && run.settled.diagnostics == [] && run.settled.producerStopped
    && run.capturing && run.capture == CaptureReported(true)
    && (run.settled.code.Some? ==> run.sidecarWritten)
    && run.outputSynced && run.logsRead && run.tearingDown
  }

  /** Waits for the capture of a stopped producer, which a late cancellation does not cut short. */
  method DrainCapture(run: Run) returns (status: Status, proved: bool, notes: seq<Note>)
    ensures status.Cancelled? <==>
            run.settled.status.Cancelled? || (run.settled.producerStopped && run.cancelledDuringCapture)
    ensures proved <==> run.settled.producerStopped && run.capture == CaptureReported(true)
    ensures notes == [] <==> Drained(run)
  {
    notes := seq(|run.settled.diagnostics|, i requires 0 <= i < |run.settled.diagnostics| =>
                 Settling(run.settled.diagnostics[i]));
    notes := notes + Noted(run.capturing, ProgressError);
    status := run.settled.status;
    proved := false;
    if run.settled.producerStopped {
      if run.cancelledDuringCapture {
        status := Cancelled;
      }
      match run.capture {
        case CaptureFailed => notes := notes + [CaptureUnproved];
        case CaptureReported(valid) =>
          notes := notes + Noted(valid, CaptureInvalid);
          proved := valid;
      }
    } else {
      notes := notes + [CaptureSkipped];
    }
    if run.settled.code.Some? {
      notes := notes + Noted(run.sidecarWritten, SidecarError);
    }
    notes := notes + Noted(run.outputSynced, SyncError) + Noted(run.logsRead, LogsError)
             + Noted(run.tearingDown, ProgressError);
  }

  /** Certifies the result from the stream, which only a proved capture allows. */
  method Certify(run: Run, proved: bool, declared: seq<string>) returns (certified: Option<Certified>, notes: seq<Note>)
    ensures certified.Some? ==> proved && run.snapshot == SnapshotRead(certified) && MissingFit(certified.value, declared)
    ensures certified.Some? <==> notes == []
    ensures certified.Some? <==> proved && run.snapshot.SnapshotRead? && run.snapshot.certified.Some?
                                 && MissingFit(run.snapshot.certified.value, declared)
  {
    certified, notes := None, [];
    if proved {
      match run.snapshot {
        case SnapshotFailed => notes := notes + [SnapshotUnread];
        case NoStream =>
        case SnapshotRead(found) => certified := found;
      }
    } else {
      notes := notes + Noted(run.observations, SnapshotUnread);
    }
    if certified.Some? && !MissingFit(certified.value, declared) {
      certified := None;
    }
    if certified.None? {
      notes := notes + [NotCertified] + Noted(run.stderrRead, StderrUnread);
    }
  }

  /** Bundles a quiescent tree, and decides whether the tree itself stays. */
  method BundleOrRetain(teardown: Teardown, phase: Phase, created: bool, root: Root, written: bool)
    returns (bundled: bool, retained: bool, notes: seq<Note>)
    requires teardown.complete ==> teardown.quiescent
    ensures bundled <==> teardown.quiescent && created
    ensures notes == [] <==> bundled && teardown.complete
    ensures retained <==> !(bundled && teardown.complete) && root.SafeRoot?
  {
    bundled := teardown.quiescent && created;
    notes := Noted(bundled, BundleError);
    retained := false;
    if RetentionDecision(teardown, bundled, phase).Some? {
      var retentionNotes;
      retained, retentionNotes := RetainRawEvidence(root, written);
      notes := notes + retentionNotes;
    }
  }

  /** The run's own account of its ending; it is no process error exactly when everything was clean. */
  method FinishRun(run: Run, declared: seq<string>, exits: map<string, int>) returns (body: Body)
    ensures !body.processError <==> Clean(run, declared, exits)
    ensures !body.processError ==>
              && body.notes == [] && body.bundled && !body.retained
              && body.certified.Some? && body.certified == run.snapshot.certified
              && body.containerCode == body.agentCode
    ensures body.notes != [] ==> body.processError
    ensures body.status.Cancelled? <==>
            run.settled.status.Cancelled? || (run.settled.producerStopped && run.cancelledDuringCapture)
    ensures body.containerCode == run.settled.code
    ensures body.agentCode == if run.sidecar.SidecarRead? then run.sidecar.code else None
    ensures body.certified ==
            if run.settled.producerStopped && run.capture == CaptureReported(true) && run.snapshot.SnapshotRead?
               && run.snapshot.certified.Some? && MissingFit(run.snapshot.certified.value, declared)
            then run.snapshot.certified else None
    ensures body.bundled <==>
            run.bundled && Quiet(run.report)
    ensures body.retained <==> run.root.SafeRoot? && !(body.bundled && TornDown(run.removed, run.report))
    ensures body.retained ==> body.processError
  {
    hide MissingFit, ProcessOutcome, Join, Noted;
    var status, proved, notes := DrainCapture(run);
    var teardown, teardownNotes := RemoveAndProveQuiescent(run.removed, run.report);
    var agentCode := if run.sidecar.SidecarRead? then run.sidecar.code else None;
    notes := Join(notes, teardownNotes);
    notes := Join(notes, Noted(run.logsWritten, LogsError));
    notes := Join(notes, Noted(run.sidecar.SidecarRead?, ExitUnread));
    notes := Join(notes, Noted(agentCode == run.settled.code, ExitsDisagree));
    var certified, certificationNotes := Certify(run, proved, declared);
    notes := Join(notes, certificationNotes);
    var processError := ProcessOutcome(status, certified, run.settled.code, agentCode, exits);
    if notes != [] {
      processError := true;
    }
    notes := Join(notes, Noted(run.responseWritten, ResponseError));
    notes := Join(notes, Noted(run.bundling, ProgressError));
    var bundled, retained, bundleNotes := BundleOrRetain(teardown, Normal, run.bundled, run.root, run.markerWritten);
    notes := Join(notes, bundleNotes);
    if notes != [] {
      processError := true;
    }
    body := Body(status, run.settled.code, agentCode, processError, notes, certified, bundled, retained);
  }

  // ---- A session that never got ready --------------------------------------

  /** `given` are the notes of the stage that failed; they do not by themselves make a process error. */
  datatype Setup = Setup(status: Status, given: seq<Note>, latestRead: bool, tearingDown: bool, submitted: bool,
                         logsRead: bool, removed: bool, report: Option<Quiescence>, recordWritten: bool,
                         sidecars: seq<bool>, exit: ExitSidecar, observations: bool, bundling: bool, bundled: bool,
                         root: Root, markerWritten: bool)

  predicate SetupClean(s: Setup) {
    && s.status.Cancelled? && s.latestRead && s.tearingDown
    && (s.submitted ==> s.logsRead && TornDown(s.removed, s.report))
    && s.recordWritten && (forall i | 0 <= i < |s.sidecars| :: s.sidecars[i])
    && s.exit.SidecarRead? && s.observations && s.bundling && s.bundled
  }

  /** A setup ending is no process error exactly when it is a cancellation whose teardown was clean. */
  method FinalizeSetupFailure(s: Setup) returns (body: Body)
    ensures !body.processError <==> SetupClean(s)
    ensures !body.processError ==> body.bundled && !body.retained && body.notes == s.given
    ensures body.bundled <==>
            s.bundled
            && (s.submitted ==> Quiet(s.report))
    ensures body.retained <==> s.root.SafeRoot? && !(body.bundled && (s.submitted ==> TornDown(s.removed, s.report)))
    ensures body.status == s.status && body.certified.None? && s.given <= body.notes
  {
    var notes := s.given + Noted(s.latestRead, ProgressError) + Noted(s.tearingDown, ProgressError);
    var processError := !s.status.Cancelled? || !s.latestRead || !s.tearingDown;
    var teardown := Teardown(true, true);
    if s.submitted {
      notes := notes + Noted(s.logsRead, LogsError);
      processError := processError || !s.logsRead;
      var teardownNotes;
      teardown, teardownNotes := RemoveAndProveQuiescent(s.removed, s.report);
      notes := notes + teardownNotes;
    }
    if !teardown.complete {
      processError := true;
    }
    notes := notes + Noted(s.recordWritten, SidecarError);
    processError := processError || !s.recordWritten;
    ghost var soFar, errorSoFar := notes, processError;
    for i := 0 to |s.sidecars|
      invariant s.given <= notes
      invariant processError <==> errorSoFar || exists j | 0 <= j < i :: !s.sidecars[j]
      invariant !processError ==> notes == soFar
    {
      notes := notes + Noted(s.sidecars[i], SidecarError);
      processError := processError || !s.sidecars[i];
    }
    notes := notes + Noted(s.exit.SidecarRead?, ExitUnread) + Noted(s.observations, SnapshotUnread)
             + Noted(s.bundling, ProgressError);
    processError := processError || !s.exit.SidecarRead? || !s.observations || !s.bundling;
    var bundled, retained, bundleNotes := BundleOrRetain(teardown, SetupFailure, s.bundled, s.root, s.markerWritten);
    notes := notes + bundleNotes;
    processError := processError || !bundled;
    body := Body(s.status, None, if s.exit.SidecarRead? then s.exit.code else None, processError, notes, None,
                 bundled, retained);
  }
}
