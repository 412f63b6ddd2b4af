/** Retained raw evidence: why a session's raw tree is kept, and which terminals may say so. */
module RawEvidence {
  datatype Cause =
    | RequiredBundleFailure | PanicRecoveryBundleFailure | SetupForensicBundleFailure
    | ServiceRestartBundleFailure | ContainerQuiescenceUnproved | ContainerTeardownIncomplete
    | RawStateCleanupFailure

  /** The causes a terminal record may carry, given whether it accepted a bundle. */
  predicate CauseFits(cause: Cause, acceptedBundle: bool) {
    if acceptedBundle then cause.ContainerTeardownIncomplete? || cause.RawStateCleanupFailure?
    else !cause.ContainerTeardownIncomplete? && !cause.RawStateCleanupFailure?
  }
}

/** Startup recovery (src/api.rs): the sweeps over raw session trees and result directories. */
module Recovery {
  import opened RawEvidence
  import opened Wrappers

  // ---- What one session left behind ----------------------------------------

  /** `Unsafe` stands for every marker the sweep refuses: bad type, mode, owner or contents. */
  datatype Marker = Unmarked | Marked(cause: Cause) | UnsafeMarker

  /** `Exact` is the empty layout of a transaction that was never accepted. */
  datatype Layout = Exact | Other

  datatype RawTree = RawTree(safe: bool, marker: Marker, layout: Layout)

  /** `bundle` is the recorded size of an accepted bundle. */
  datatype Ending = Ending(retained: bool, bundle: Option<nat>)

  /** A record on disk; `body` is absent when it does not parse as this session's terminal. */
  datatype RecordFile = RecordFile(inode: nat, private: bool, body: Option<Ending>)

  datatype Archive = NoArchive | Archive(safe: bool, size: nat)

  /**
   * A result directory. `durable` says that finished.json and its name were synced; `others`
   * says that further entries exist.
   */
  datatype ResultDir = ResultDir(directory: bool, safe: bool, finished: Option<RecordFile>,
                                 temporary: Option<RecordFile>, archive: Archive, others: bool, durable: bool) {
    predicate Empty() {
      finished.None? && temporary.None? && archive.NoArchive? && !others
    }
  }

  datatype Slot = Slot(raw: Option<RawTree>, dir: Option<ResultDir>)

  // ---- One session, as the code treats it ----------------------------------

  /** Every state a sweep takes one session through, and whether it ends by refusing startup. */
  datatype Treatment = Treatment(trace: seq<Slot>, refused: bool)

  datatype Commit = Refused | NoTerminal | Committed(ending: Ending)

  /** Reading a terminal may change the session; `trace` is every state that takes it through. */
  datatype Reading = Reading(trace: seq<Slot>, commit: Commit)

  function LastSlot(s: Slot, trace: seq<Slot>): Slot {
    if trace == [] then s else trace[|trace| - 1]
  }

  /** Reading the terminal of one session, which also finishes an interrupted publication. */
  function CommittedTerminal(s: Slot): (r: Reading)
    ensures forall k | 0 <= k < |r.trace| :: r.trace[k].raw == s.raw && r.trace[k].dir.Some?
    ensures r.trace != [] || r.commit.Committed? ==> s.dir.Some?
  {
    if s.dir.None? then Reading([], NoTerminal)
    else
      var dir := s.dir.value;
      if !dir.directory || (dir.finished.Some? && !dir.finished.value.private)
         || (dir.temporary.Some? && !dir.temporary.value.private) then Reading([], Refused)
      else if dir.finished.None? && dir.temporary.None? then Reading([], NoTerminal)
      else if dir.finished.None? then Reading([], Refused)
      else if dir.finished.value.body.None? then Reading([], Refused)
      else if dir.temporary.Some? && dir.temporary.value.inode != dir.finished.value.inode then Reading([], Refused)
      else
        var synced := s.(dir := Some(dir.(durable := true)));
        var ending := dir.finished.value.body.value;
        if dir.temporary.None? then Reading([synced], Committed(ending))
        else Reading([synced, s.(dir := Some(dir.(durable := true, temporary := None)))], Committed(ending))
  }

  predicate StorageAgrees(dir: ResultDir, ending: Ending) {
    if ending.bundle.None? then ending.retained || dir.archive.NoArchive?
    else dir.archive.Archive? && dir.archive.safe && dir.archive.size != 0 && dir.archive.size == ending.bundle.value
  }

  predicate MarkerFits(marker: Marker, ending: Ending) {
    marker.Marked? ==> CauseFits(marker.cause, ending.bundle.Some?)
  }

  /**
   * `remove_dir_all` goes through a tree that has lost some of its entries. The sweep removes a
   * pre-acceptance tree only if it has no input archive, so that any lost entry leaves it inexact.
   */
  function RemoveRaw(s: Slot): seq<Slot>
    requires s.raw.Some?
  {
    [s.(raw := Some(s.raw.value.(layout := Other))), s.(raw := None)]
  }

  datatype Pass = StatePass | ResultPass

  predicate Listed(pass: Pass, s: Slot) {
    if pass.StatePass? then s.raw.Some? else s.dir.Some?
  }

  datatype Verdict = Refuse | Keep | Dispose

  /** What the state sweep does with a raw tree, given the terminal it read. */
  function StateVerdict(s: Slot, commit: Commit): Verdict
    requires s.raw.Some? && (commit.Committed? ==> s.dir.Some?)
  {
    var raw := s.raw.value;
    match commit
    case Refused => Refuse
    case Committed(ending) =>
      if !StorageAgrees(s.dir.value, ending) || raw.marker.UnsafeMarker? || !MarkerFits(raw.marker, ending) then Refuse
      else if ending.retained then (if raw.marker.Marked? then Keep else Refuse)
      else if raw.marker.Marked? then Refuse
      else Dispose
    case NoTerminal =>
      if !raw.marker.Unmarked? then Refuse
      else if s.dir.Some? && !s.dir.value.Empty() then Refuse
      else if raw.layout != Exact then Refuse
      else Dispose
  }

  /** The cross-check of a committed terminal against what the state sweep left of its raw tree. */
  predicate Reconciles(raw: Option<RawTree>, ending: Ending) {
    if !ending.retained then raw.None?
    else raw.Some? && raw.value.safe && raw.value.marker.Marked? && MarkerFits(raw.value.marker, ending)
  }

  /** What the sweep of results does with a result directory, given the terminal it read. */
  function ResultVerdict(s: Slot, commit: Commit): Verdict
    requires s.dir.Some?
  {
    match commit
    case Refused => Refuse
    case Committed(ending) =>
      if StorageAgrees(s.dir.value, ending) && Reconciles(s.raw, ending) then Keep else Refuse
    case NoTerminal => if s.dir.value.Empty() then Dispose else Refuse
  }

  predicate SafeEntry(pass: Pass, s: Slot)
    requires Listed(pass, s)
  {
    if pass.StatePass? then s.raw.value.safe else s.dir.value.safe
  }

  function VerdictOn(pass: Pass, s: Slot, commit: Commit): Verdict
    requires Listed(pass, s) && (commit.Committed? ==> s.dir.Some?)
  {
    if pass.StatePass? then StateVerdict(s, commit) else ResultVerdict(s, commit)
  }

  function Disposal(pass: Pass, s: Slot): seq<Slot>
    requires Listed(pass, s)
  {
    if pass.StatePass? then RemoveRaw(s) else [s.(dir := None)]
  }

  /** Everything one sweep does to one session that it lists. */
  function Treat(pass: Pass, s: Slot): Treatment
    requires Listed(pass, s)
  {
    if !SafeEntry(pass, s) then Treatment([], true)
    else
      var reading := CommittedTerminal(s);
      var now := LastSlot(s, reading.trace);
      var verdict := VerdictOn(pass, now, reading.commit);
      Treatment(reading.trace + (if verdict.Dispose? then Disposal(pass, now) else []), verdict.Refuse?)
  }

  // ---- One session, as recovery should end ---------------------------------

  predicate HasTerminal(s: Slot) {
    s.dir.Some? && s.dir.value.finished.Some? && s.dir.value.finished.value.body.Some?
  }

  function EndingOf(s: Slot): Ending
    requires HasTerminal(s)
  {
    s.dir.value.finished.value.body.value
  }

  /** No terminal, no draft, no archive and nothing else. */
  predicate HoldsNothing(dir: ResultDir) {
    dir.finished == None && dir.temporary == None && dir.archive == NoArchive && dir.others == false
  }

  /** An accepted bundle is there with its recorded size; a bundle that was not accepted is not, unless it is evidence. */
  predicate ArchiveIntact(archive: Archive, ending: Ending) {
    && (ending.bundle.Some? ==> archive == Archive(true, ending.bundle.value) && ending.bundle.value > 0)
    && (ending.bundle.None? && !ending.retained ==> archive == NoArchive)
  }

  /** Teardown and cleanup fail beside an accepted bundle; everything else keeps one from being accepted. */
  predicate Explains(cause: Cause, ending: Ending) {
    ending.bundle.Some? <==> cause == ContainerTeardownIncomplete || cause == RawStateCleanupFailure
  }

  /** A session that startup accepts: a consistent terminal, or no evidence at all. */
  predicate Acceptable(s: Slot) {
    && (s.raw.Some? ==> s.raw.value.safe && !s.raw.value.marker.UnsafeMarker?)
    && (s.dir.Some? ==> s.dir.value.safe && s.dir.value.directory)
    && (if s.dir.Some? && s.dir.value.finished.Some? then
          var dir := s.dir.value;
          && dir.finished.value.private && dir.finished.value.body.Some?
          && (dir.temporary.Some? ==> dir.temporary.value.private
                                      && dir.temporary.value.inode == dir.finished.value.inode)
          && ArchiveIntact(dir.archive, EndingOf(s))
          && (if EndingOf(s).retained
              then s.raw.Some? && s.raw.value.marker.Marked? && Explains(s.raw.value.marker.cause, EndingOf(s))
              else s.raw.Some? ==> s.raw.value.marker.Unmarked?)
        else
          && (s.dir.Some? ==> HoldsNothing(s.dir.value))
          && (s.raw.Some? ==> s.raw.value.marker.Unmarked? && s.raw.value.layout == Exact))
  }

  /** What recovery leaves of an acceptable session. */
  function Recovered(s: Slot): Slot {
    if HasTerminal(s)
    then Slot(if EndingOf(s).retained then s.raw else None,
              Some(s.dir.value.(durable := true, temporary := None)))
    else Slot(None, None)
  }

  /** A pre-acceptance tree that lost some of its entries to an interrupted removal. */
  predicate Mangled(s: Slot) {
    s.raw.Some? && s.raw.value.layout == Other && !HasTerminal(s)
  }

  // ---- Evidence ------------------------------------------------------------

  /** The terminal is committed, durable and not retained, and its archive is intact: the raw tree is disposable. */
  predicate Superseded(raw: RawTree, after: Slot) {
    && raw.marker.Unmarked? && HasTerminal(after) && !EndingOf(after).retained && after.dir.value.durable
    && ArchiveIntact(after.dir.value.archive, EndingOf(after))
  }

  /** Nothing was ever accepted for this session, and its result directory holds nothing. */
  predicate NeverAccepted(raw: RawTree, s: Slot) {
    raw.marker.Unmarked? && raw.layout == Exact && (s.dir.Some? ==> HoldsNothing(s.dir.value))
  }

  /** No nonempty result directory loses anything but the second name of its terminal. */
  predicate ResultKept(before: ResultDir, after: Slot) {
    && after.dir.Some?
    && after.dir.value.finished == before.finished && after.dir.value.archive == before.archive
    && after.dir.value.others == before.others
    && after.dir.value.directory == before.directory && after.dir.value.safe == before.safe
    && (before.durable ==> after.dir.value.durable)
    && (after.dir.value.temporary == before.temporary
        || (&& after.dir.value.temporary.None? && after.dir.value.durable
            && before.temporary.Some? && before.finished.Some?
            && before.temporary.value.inode == before.finished.value.inode))
  }

  predicate EvidenceKept(before: Slot, after: Slot) {
    && (before.dir.None? ==> after.dir.None?)
    && (before.dir.Some? && !HoldsNothing(before.dir.value) ==> ResultKept(before.dir.value, after))
    && (before.dir.Some? && HoldsNothing(before.dir.value) && after.dir.Some? ==> HoldsNothing(after.dir.value))
    && (before.raw.None? ==> after.raw.None?)
    && (before.raw.Some? ==>
          || after.raw == before.raw
          || ((after.raw.None? || after.raw == Some(before.raw.value.(layout := Other)))
              && (Superseded(before.raw.value, after) || NeverAccepted(before.raw.value, before))))
  }

  lemma EvidenceKeptIsTransitive(a: Slot, b: Slot, c: Slot)
    requires EvidenceKept(a, b) && EvidenceKept(b, c)
    ensures EvidenceKept(a, c)
  {
  }

  /** What finishing an interrupted publication changes, and what it tells. */
  lemma CommitmentStates(s: Slot)
    ensures var trace, commit := CommittedTerminal(s).trace, CommittedTerminal(s).commit;
            && (forall t | t in trace ::
                  && t.raw == s.raw && EvidenceKept(s, t) && HasTerminal(t)
                  && Acceptable(t) == Acceptable(s) && (Acceptable(s) ==> Recovered(t) == Recovered(s)))
            && (forall k | 0 <= k < |trace| && trace[k].dir.value.temporary.None? && s.dir.value.temporary.Some? ::
                  k > 0 && trace[k - 1] == s.(dir := Some(s.dir.value.(durable := true))))
            && (commit.Refused? ==> trace == [] && !Acceptable(s))
            && (commit.NoTerminal? ==>
                  && trace == [] && !HasTerminal(s)
                  && (s.dir.Some? ==> s.dir.value.directory && s.dir.value.finished.None? && s.dir.value.temporary.None?))
            && (commit.Committed? ==>
                  && HasTerminal(s) && commit.ending == EndingOf(s) && trace != []
                  && s.dir.value.directory && s.dir.value.finished.value.private
                  && (s.dir.value.temporary.Some? ==>
                        && s.dir.value.temporary.value.private
                        && s.dir.value.temporary.value.inode == s.dir.value.finished.value.inode)
                  && LastSlot(s, trace) == s.(dir := Some(s.dir.value.(durable := true, temporary := None)))
                  && LastSlot(s, trace) in trace)
  {
  }

  /** Every state of a treatment keeps the evidence that was there before it. */
  lemma TreatmentKeepsEvidence(pass: Pass, s: Slot)
    requires Listed(pass, s)
    ensures forall t | t in Treat(pass, s).trace :: EvidenceKept(s, t)
  {
    hide CommittedTerminal, Acceptable, Recovered, MarkerFits, Reconciles;
    var committing := CommittedTerminal(s).trace;
    CommitmentStates(s);
    forall t | t in Treat(pass, s).trace ensures EvidenceKept(s, t) {
      if t !in committing {
        assert t in Disposal(pass, LastSlot(s, committing));
      }
    }
  }

  /** Without a terminal, a result directory that holds anything is refused and stays as it is. */
  lemma RemainsArePreserved(pass: Pass, s: Slot)
    requires Listed(pass, s) && s.dir.Some? && s.dir.value.finished.None?
    requires s.dir.value.temporary.Some? || s.dir.value.archive.Archive? || s.dir.value.others
    ensures !Acceptable(s)
    ensures pass.ResultPass? ==> Treat(pass, s).refused
    ensures forall t | t in Treat(pass, s).trace :: t.dir == s.dir
    ensures Treat(pass, s).trace == []
  {
  }

  /**
   * No state along the way changes what recovery will do, except that a mangled pre-acceptance
   * tree is refused from then on.
   */
  lemma TreatmentConverges(pass: Pass, s: Slot)
    requires Listed(pass, s)
    ensures forall t | t in Treat(pass, s).trace ::
              && (!Acceptable(s) ==> !Acceptable(t))
              && (Acceptable(s) ==> (Acceptable(t) <==> !Mangled(t)) && Recovered(t) == Recovered(s))
  {
    hide CommittedTerminal, EvidenceKept;
    var committing := CommittedTerminal(s).trace;
    CommitmentStates(s);
    forall t | t in Treat(pass, s).trace
      ensures !Acceptable(s) ==> !Acceptable(t)
      ensures Acceptable(s) ==> (Acceptable(t) <==> !Mangled(t)) && Recovered(t) == Recovered(s)
    {
      if t !in committing {
        assert t in Disposal(pass, LastSlot(s, committing));
      }
    }
  }

  /** The state of a session after the state sweep, when that sweep went through. */
  function AfterState(s: Slot): Slot {
    if s.raw.Some? then LastSlot(s, Treat(StatePass, s).trace) else s
  }

  predicate Passes(s: Slot) {
    && (s.raw.Some? ==> !Treat(StatePass, s).refused)
    && (AfterState(s).dir.Some? ==> !Treat(ResultPass, AfterState(s)).refused)
  }

  /** No raw tree is left but one whose terminal retains it. */
  predicate Cleared(s: Slot) {
    s.raw.Some? ==> HasTerminal(s) && EndingOf(s).retained
  }

  lemma StateSweepDecides(s: Slot)
    requires s.raw.Some?
    ensures Acceptable(s) ==>
              && !Treat(StatePass, s).refused && Recovered(AfterState(s)) == Recovered(s)
              && AfterState(s).raw == Recovered(s).raw
    ensures !Treat(StatePass, s).refused ==> Cleared(AfterState(s)) && (Acceptable(AfterState(s)) <==> Acceptable(s))
  {
    hide CommittedTerminal;
    CommitmentStates(s);
  }

  /** The results sweep never meets raw state beside a terminal that does not retain it. */
  lemma CrossCheckFindsNoRawState(s: Slot)
    requires s.raw.Some? ==> !Treat(StatePass, s).refused
    ensures var now := AfterState(s);
            HasTerminal(now) && !EndingOf(now).retained ==> now.raw.None?
  {
    hide Treat;
    if s.raw.Some? {
      StateSweepDecides(s);
    }
  }

  lemma ResultSweepDecides(s: Slot)
    requires s.dir.Some? && Cleared(s)
    ensures !Treat(ResultPass, s).refused <==> Acceptable(s)
    ensures Acceptable(s) ==> LastSlot(s, Treat(ResultPass, s).trace) == Recovered(s)
  {
    hide CommittedTerminal;
    CommitmentStates(s);
  }

  /** The two sweeps let a session through exactly when it is acceptable, and leave it recovered. */
  lemma SweepsDecideAcceptability(s: Slot)
    ensures Passes(s) <==> Acceptable(s)
    ensures Acceptable(s) ==>
              var now := AfterState(s);
              (if now.dir.Some? then LastSlot(now, Treat(ResultPass, now).trace) else now) == Recovered(s)
  {
    hide Treat;
    if s.raw.Some? {
      StateSweepDecides(s);
    }
    if Passes(s) || Acceptable(s) {
      if AfterState(s).dir.Some? {
        ResultSweepDecides(AfterState(s));
      }
    }
  }
}
