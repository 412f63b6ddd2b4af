/** What every run of the progress log keeps, through crashes and power losses. */
module ProgressCrash {
  import opened Wrappers
  import opened Bytes
  import opened Progress

  // ---- What a directory can be read back as --------------------------------

  /** `id` names a synced, complete, valid snapshot that begins with `acked`. */
  ghost predicate Holds(d: Disk, id: Option<nat>, session: string, acked: seq<Event>) {
    && id.Some? && id.value in d.inodes && d.inodes[id.value].synced && d.inodes[id.value].content.Whole?
    && ValidDocument(d.inodes[id.value].content.document, session)
    && acked <= d.inodes[id.value].content.document.events
  }

  function EventsAt(d: Disk, id: Option<nat>): seq<Event> {
    if id.Some? && id.value in d.inodes && d.inodes[id.value].content.Whole?
    then d.inodes[id.value].content.document.events else []
  }

  function Visible(d: Disk): seq<Event> {
    EventsAt(d, d.visible.current)
  }

  ghost predicate Sound(d: Disk, session: string, acked: seq<Event>) {
    && d.visible.current in d.currents && d.visible.next in d.nexts
    && (forall id | id in d.inodes :: id < d.unused)
    && (forall c | c in d.currents :: Holds(d, c, session, acked) && EventsAt(d, c) <= Visible(d))
  }

  /** No power loss can bring back an older snapshot than the visible one. */
  ghost predicate Settled(d: Disk) {
    forall c | c in d.currents :: EventsAt(d, c) == Visible(d)
  }

  /** The inodes of `d` are as they were in `s`, and new ones have new numbers. */
  ghost predicate Kept(d: Disk, s: Disk) {
    && (forall id | id in d.inodes :: id in s.inodes && s.inodes[id] == d.inodes[id])
    && (forall id | id in s.inodes :: id < s.unused)
    && s.visible.current in s.currents && s.visible.next in s.nexts
  }

  /** A replacement of `d` that has not been published: only unpublished bytes were added to it. */
  ghost predicate Pending(d: Disk, s: Disk) {
    s.visible.current == d.visible.current && Kept(d, s) && s.currents <= d.currents
  }

  lemma PendingIsSound(d: Disk, s: Disk, session: string, acked: seq<Event>)
    requires Sound(d, session, acked) && Pending(d, s)
    ensures Sound(s, session, acked) && Visible(s) == Visible(d)
    ensures Settled(d) ==> Settled(s)
  {
  }

  /** The published snapshot is `longer`; what else is durable is what was durable before. */
  ghost predicate Replaced(d: Disk, s: Disk, session: string, longer: seq<Event>) {
    && Holds(s, s.visible.current, session, longer) && Visible(s) == longer
    && Kept(d, s) && s.currents <= d.currents + {s.visible.current}
  }

  lemma ReplacedIsSound(d: Disk, s: Disk, session: string, acked: seq<Event>, longer: seq<Event>)
    requires Sound(d, session, acked) && Replaced(d, s, session, longer)
    requires Visible(d) <= longer
    ensures Sound(s, session, acked)
  {
    assert acked <= Visible(d);
  }

  // ---- One replacement, state by state -------------------------------------

  /** `s` has an unpublished replacement under a new inode. */
  ghost predicate Writing(d: Disk, s: Disk) {
    && Pending(d, s) && s.visible.next == Some(d.unused)
    && d.unused !in d.inodes && d.unused in s.inodes && d.unused < s.unused
  }

  lemma CreatedState(d: Disk, session: string, acked: seq<Event>)
    requires Sound(d, session, acked)
    ensures Writing(d, CreateNext(d))
  {
    hide Holds, EventsAt, Visible;
  }

  lemma WrittenState(d: Disk, s: Disk, content: Content, synced: bool)
    requires Writing(d, s)
    ensures Writing(d, FillNext(s, content, synced))
    ensures FillNext(s, content, synced).inodes[d.unused] == Inode(content, synced)
  {
  }

  lemma RolledBackStates(d: Disk, s: Disk, session: string, acked: seq<Event>)
    requires Sound(d, session, acked) && Pending(d, s)
    ensures Pending(d, RemoveNext(s)) && Pending(d, SyncDirectory(RemoveNext(s)))
  {
  }

  lemma PublishedStates(d: Disk, s: Disk, id: nat, document: Document, session: string, acked: seq<Event>)
    requires Sound(d, session, acked) && Pending(d, s)
    requires ValidDocument(document, session)
    requires s.visible.next == Some(id) && id in s.inodes && s.inodes[id] == Inode(Whole(document), true)
    ensures Replaced(d, PublishNext(s), session, document.events)
    ensures Replaced(d, SyncDirectory(PublishNext(s)), session, document.events)
    ensures CurrentContent(PublishNext(s)) == Whole(document)
    ensures SyncDirectory(PublishNext(s)).currents == {SyncDirectory(PublishNext(s)).visible.current}
  {
  }

  /** Every state of a replacement shows the old history or the new one, and never anything else. */
  lemma ReplacementStates(d: Disk, document: Document, io: Io, size: Document -> nat, session: string,
                          acked: seq<Event>)
    requires Sound(d, session, acked) && document.session == session
    ensures var r := ReplaceOn(d, document, io, size);
            && (forall s | s in r.trace :: Pending(d, s) || Replaced(d, s, session, document.events))
            && (r.outcome == Durable ==>
                  var last := DiskAfter(d, r.trace);
                  Replaced(d, last, session, document.events) && last.currents == {last.visible.current})
            && (r.outcome == Published ==> Replaced(d, DiskAfter(d, r.trace), session, document.events))
            && (r.outcome != Failed ==> ValidDocument(document, session))
  {
    hide Pending, Replaced, Sound, ValidDocument, CreateNext, FillNext, PublishNext, RemoveNext, SyncDirectory,
      CurrentContent;
    if d.visible.next.None? && ValidDocument(document, session) {
      var created := CreateNext(d);
      var written := FillNext(created, Whole(document), false);
      var synced := FillNext(written, Whole(document), true);
      CreatedState(d, session, acked);
      WrittenState(d, created, Whole(document), false);
      WrittenState(d, written, Whole(document), true);
      RolledBackStates(d, created, session, acked);
      RolledBackStates(d, written, session, acked);
      RolledBackStates(d, synced, session, acked);
      PublishedStates(d, synced, d.unused, document, session, acked);
    }
  }

  /**
   * A replacement that failed before it was published leaves its file behind exactly if it could
   * not remove it; a removal that was synced is for good.
   */
  lemma UnpublishedFileIsRemoved(d: Disk, document: Document, io: Io, size: Document -> nat, session: string,
                                 acked: seq<Event>)
    requires Sound(d, session, acked)
    ensures var r := ReplaceOn(d, document, io, size);
            var last := DiskAfter(d, r.trace);
            r.trace != [] && last.visible.current == d.visible.current ==>
              && r.outcome.Failed?
              && (last.visible.next.None? <==> io.cleanup)
              && (io.cleanup && io.syncRollback ==> last.nexts == {None})
              && last.inodes.Keys == d.inodes.Keys + {d.unused}
  {
    hide ValidDocument, Visible, EventsAt, CurrentContent;
    assert Holds(d, d.visible.current, session, acked);
  }

  // ---- One publication -----------------------------------------------------

  /** Memory agrees with the visible snapshot, which may be one event ahead once publishing failed. */
  ghost predicate Agrees(r: Reporter, d: Disk, session: string, acked: seq<Event>) {
    && Sound(d, session, acked)
    && r.session == session && ValidEvents(r.events) && acked <= r.events <= Visible(d)
    && |Visible(d)| <= |r.events| + (if r.durableFailed then 1 else 0)
  }

  predicate Reaches(r: Reporter, request: Request) {
    && ValidMessage(request.message) && !r.durableFailed && 1 <= |r.events| < MAX_EVENTS
    && Monotonic(r.events[|r.events| - 1].counters, request.counters)
  }

  function Longer(r: Reporter, request: Request): seq<Event>
    requires r.events != []
  {
    r.events + [NextEvent(r.events[|r.events| - 1], request)]
  }

  /** What `publish` builds always passes the encoder's own validation; its revision never overflows. */
  lemma BuiltDocumentIsValid(r: Reporter, request: Request)
    requires ValidEvents(r.events) && Reaches(r, request)
    ensures ValidDocument(Document(SCHEMA_VERSION, r.session, Longer(r, request)), r.session)
    ensures ValidEvents(Longer(r, request))
    ensures r.events[|r.events| - 1].revision < U64_MAX
  {
    assert ValidRecord(r.events, |r.events| - 1);
    var longer := Longer(r, request);
    forall i | 0 <= i < |longer| ensures ValidRecord(longer, i) {
      if i < |r.events| {
        assert ValidRecord(r.events, i);
      } else {
        assert ValidRecord(r.events, i - 1);
      }
    }
  }

  function AckedBy(p: Publication, acked: seq<Event>): seq<Event> {
    if p.result.Ok? then p.reporter.events else acked
  }

  /** Whatever a power loss in state `s` may bring back was durable in `d`, or is `longer`. */
  ghost predicate Brings(d: Disk, s: Disk, longer: seq<Event>) {
    forall c | c in s.currents :: EventsAt(s, c) == longer || (c in d.currents && EventsAt(s, c) == EventsAt(d, c))
  }

  lemma StateBrings(d: Disk, s: Disk, session: string, acked: seq<Event>, longer: seq<Event>)
    requires Sound(d, session, acked) && Visible(d) <= longer
    requires Pending(d, s) || Replaced(d, s, session, longer)
    ensures Sound(s, session, acked) && Brings(d, s, longer)
    ensures Visible(s) == Visible(d) || Visible(s) == longer
  {
    if Pending(d, s) {
      PendingIsSound(d, s, session, acked);
    } else {
      ReplacedIsSound(d, s, session, acked, longer);
    }
  }

  /** Every disk state of a publication shows the history before it or the history after it. */
  lemma PublicationStates(r: Reporter, d: Disk, request: Request, size: Document -> nat, session: string,
                          acked: seq<Event>)
    requires Agrees(r, d, session, acked)
    ensures var p := PublishOn(r, d, request, size);
            && (p.trace != [] ==> Reaches(r, request))
            && forall s | s in p.trace ::
                 && Sound(s, session, acked) && Brings(d, s, Longer(r, request))
                 && (Visible(s) == Visible(d) || Visible(s) == Longer(r, request))
  {
    hide ReplaceOn, ValidDocument, Holds, Kept, Pending, Replaced, Sound, EventsAt, Brings;
    var p := PublishOn(r, d, request, size);
    if Reaches(r, request) {
      var longer := Longer(r, request);
      ReplacementStates(d, Document(SCHEMA_VERSION, session, longer), request.io, size, session, acked);
      forall s | s in p.trace
        ensures Sound(s, session, acked) && Brings(d, s, longer)
        ensures Visible(s) == Visible(d) || Visible(s) == longer
      {
        StateBrings(d, s, session, acked, longer);
      }
    }
  }

  /** A publication keeps memory and disk in agreement, and a success is durable on the spot. */
  lemma PublicationAgrees(r: Reporter, d: Disk, request: Request, size: Document -> nat, session: string,
                          acked: seq<Event>)
    requires Agrees(r, d, session, acked)
    ensures var p := PublishOn(r, d, request, size);
            && Agrees(p.reporter, DiskAfter(d, p.trace), session, AckedBy(p, acked))
            && acked <= AckedBy(p, acked)
            && (p.result.Ok? ==> Settled(DiskAfter(d, p.trace)) && Visible(DiskAfter(d, p.trace)) == p.reporter.events)
  {
    hide ReplaceOn, ValidDocument, Kept, ValidEvents;
    var p := PublishOn(r, d, request, size);
    PublicationStates(r, d, request, size, session, acked);
    if Reaches(r, request) {
      var longer := Longer(r, request);
      BuiltDocumentIsValid(r, request);
      ReplacementStates(d, Document(SCHEMA_VERSION, session, longer), request.io, size, session, acked);
    }
  }

  /**
   * The event that is recorded is the one that was asked for. Memory grows by it on success and
   * when it is visible but not durable; the visible snapshot never shows anything else.
   */
  lemma RequestedEventIsRecorded(r: Reporter, d: Disk, request: Request, size: Document -> nat, session: string,
                                 acked: seq<Event>)
    requires Agrees(r, d, session, acked) && !r.durableFailed
    ensures var p := PublishOn(r, d, request, size);
            var recorded := p.result.Ok? || p.result == Err(NotDurable);
            && (recorded ==> Appends(r.events, p.reporter.events, request)
                             && Visible(DiskAfter(d, p.trace)) == p.reporter.events)
            && (p.result.Ok? ==> p.result.value == p.reporter.events[|r.events|])
            && (!recorded ==> p.reporter.events == r.events)
            && (forall s | s in p.trace :: Visible(s) == r.events || Appends(r.events, Visible(s), request))
  {
    hide ReplaceOn, ValidDocument, Holds, Kept, Pending, Sound, EventsAt, Brings;
    var p := PublishOn(r, d, request, size);
    PublicationStates(r, d, request, size, session, acked);
    if Reaches(r, request) {
      assert Appends(r.events, Longer(r, request), request);
      ReplacementStates(d, Document(SCHEMA_VERSION, session, Longer(r, request)), request.io, size, session, acked);
    }
  }

  predicate CountersGrow(a: Counters, b: Counters) {
    && a.stagedBytes <= b.stagedBytes && a.stagedEntries <= b.stagedEntries
    && a.stagedRegularFiles <= b.stagedRegularFiles && a.outputEventBytes <= b.outputEventBytes
    && a.physicalRequests <= b.physicalRequests
  }

  predicate Renames(io: Io) {
    io.statCurrent && io.statNext && io.create && io.write && io.syncFile && io.rename
  }

  /** Which publications succeed, which are visible without being durable, and which are refused. */
  lemma PublicationEndsExactly(r: Reporter, d: Disk, request: Request, size: Document -> nat, session: string,
                               acked: seq<Event>)
    requires Agrees(r, d, session, acked) && !r.durableFailed
    requires size(Document(2, session, r.events)) <= 21_037_056
    ensures var result := PublishOn(r, d, request, size).result;
            var io := request.io;
            var visible := d.visible.next.None? && Renames(io);
            var readable := 1 <= |request.message| <= 4096;
            var grows := CountersGrow(r.events[|r.events| - 1].counters, request.counters);
            && (result == Err(BadMessage) <==> !readable)
            && (result == Err(TooManyEvents) <==> readable && |r.events| == 4096)
            && (result == Err(CountersRegressed) <==> readable && |r.events| < 4096 && !grows)
            && (readable && |r.events| < 4096 && grows ==>
                  var readsBack := io.readBack && size(Document(2, session, Longer(r, request))) <= 21_037_056;
                  && (result.Ok? <==> visible && (io.syncDirectory || (readsBack && io.retrySync)))
                  && (result == Err(NotDurable) <==> visible && !io.syncDirectory && readsBack && !io.retrySync)
                  && (result.Ok? || result.error in {NotDurable, NotPublished}))
  {
    hide ValidEvents, Kept, EventsAt;
    MemoryIsVisible(r, d, session, acked);
    if Reaches(r, request) {
      BuiltDocumentIsValid(r, request);
    }
  }

  lemma MemoryIsVisible(r: Reporter, d: Disk, session: string, acked: seq<Event>)
    requires Agrees(r, d, session, acked) && !r.durableFailed
    ensures d.visible.current.Some? && CurrentContent(d) == Whole(Document(2, session, r.events))
    ensures 1 <= |r.events| <= 4096 && r.events[|r.events| - 1].revision == |r.events|
  {
    assert Holds(d, d.visible.current, session, acked);
    assert ValidRecord(r.events, |r.events| - 1);
  }

  // ---- Startup -------------------------------------------------------------

  predicate AllSucceed(io: OpenIo) {
    io.statNext && io.nextSafe && io.readFirst && io.remove && io.sync && io.readAgain
  }

  /**
   * Opening never changes the recovered history, whatever the unpublished file holds, which it
   * discards only behind a snapshot it could read. On a sound directory it succeeds exactly when
   * the calls it makes succeed and the snapshot is within the size bound.
   */
  lemma OpenRecoversTheVisible(d: Disk, session: string, acked: seq<Event>, io: OpenIo, size: Document -> nat)
    requires Sound(d, session, acked)
    ensures var (trace, recovered) := OpenOn(d, session, io, size);
            && (forall s | s in trace :: Sound(s, session, acked) && s.currents <= d.currents
                                         && s.inodes == d.inodes && s.visible.current == d.visible.current)
            && (recovered.Some? ==> recovered.value == Visible(d) && ValidEvents(Visible(d))
                                    && DiskAfter(d, trace).visible.next.None?)
            && var readable := io.readFirst && size(Document(2, session, Visible(d))) <= 21_037_056;
            && (recovered.Some? <==>
                  && io.statNext && readable && io.readAgain
                  && (d.visible.next.Some? ==> io.nextSafe && io.remove && io.sync))
            && (trace != [] ==> d.visible.next.Some? && io.nextSafe && readable)
            && (recovered.Some? && d.visible.next.Some? ==> DiskAfter(d, trace).nexts == {None})
  {
    hide ValidEvents;
    assert Holds(d, d.visible.current, session, acked);
    var document := d.inodes[d.visible.current.value].content.document;
    assert document == Document(SCHEMA_VERSION, session, Visible(d));
  }

  // ---- Runs ----------------------------------------------------------------

  /** A stop of the process, on its own or with the power. */
  datatype Cut = Process | Power(after: Disk)

  datatype Action =
    | Publishing(request: Request)
    | PublishingCut(request: Request, k: nat, cut: Cut)
    | Opening(io: OpenIo)
    | OpeningCut(io: OpenIo, k: nat, cut: Cut)

  /** `acked` is the history up to the last event that a publication returned successfully. */
  datatype World = World(disk: Disk, reporter: Option<Reporter>, acked: seq<Event>)

  /** The disk after `k` of the steps in `trace`, or after all of them. */
  function StateAt(d: Disk, trace: seq<Disk>, k: nat): Disk {
    if k == 0 then d else if k <= |trace| then trace[k - 1] else DiskAfter(d, trace)
  }

  function AfterCut(s: Disk, cut: Cut): Disk {
    if cut.Power? then cut.after else s
  }

  ghost predicate Possible(s: Disk, cut: Cut) {
    cut.Power? ==> PowerLoss(s, cut.after)
  }

  function Apply(w: World, a: Action, session: string, size: Document -> nat): World {
    match (a, w.reporter)
    case (Publishing(request), Some(r)) =>
      var p := PublishOn(r, w.disk, request, size);
      World(DiskAfter(w.disk, p.trace), Some(p.reporter), AckedBy(p, w.acked))
    case (PublishingCut(request, k, cut), Some(r)) =>
      World(AfterCut(StateAt(w.disk, PublishOn(r, w.disk, request, size).trace, k), cut), None, w.acked)
    case (Opening(io), None) =>
      var (trace, recovered) := OpenOn(w.disk, session, io, size);
      World(DiskAfter(w.disk, trace),
            if recovered.Some? then Some(Reporter(session, recovered.value, false)) else None, w.acked)
    case (OpeningCut(io, k, cut), None) =>
      World(AfterCut(StateAt(w.disk, OpenOn(w.disk, session, io, size).0, k), cut), None, w.acked)
    case _ => w
  }

  ghost predicate Legal(w: World, a: Action, session: string, size: Document -> nat) {
    match (a, w.reporter)
    case (PublishingCut(request, k, cut), Some(r)) =>
      Possible(StateAt(w.disk, PublishOn(r, w.disk, request, size).trace, k), cut)
    case (OpeningCut(io, k, cut), None) =>
      Possible(StateAt(w.disk, OpenOn(w.disk, session, io, size).0, k), cut)
    case _ => true
  }

  function Run(w: World, actions: seq<Action>, session: string, size: Document -> nat): World
    decreases |actions|
  {
    if actions == [] then w else Run(Apply(w, actions[0], session, size), actions[1..], session, size)
  }

  ghost predicate LegalRun(w: World, actions: seq<Action>, session: string, size: Document -> nat)
    decreases |actions|
  {
    actions != [] ==>
      Legal(w, actions[0], session, size) && LegalRun(Apply(w, actions[0], session, size), actions[1..], session, size)
  }

  ghost predicate Invariant(w: World, session: string) {
    && Sound(w.disk, session, w.acked)
    && (w.reporter.Some? ==> Agrees(w.reporter.value, w.disk, session, w.acked))
  }

  lemma LossIsSound(s: Disk, cut: Cut, session: string, acked: seq<Event>)
    requires Sound(s, session, acked) && Possible(s, cut)
    ensures Sound(AfterCut(s, cut), session, acked)
    ensures Visible(AfterCut(s, cut)) <= Visible(s)
    ensures AfterCut(s, cut).visible.current in s.currents
    ensures Visible(AfterCut(s, cut)) == EventsAt(s, AfterCut(s, cut).visible.current)
  {
  }

  /** A freshly created log, its directory synced, starts every run. */
  lemma CreatedWorld(d: Disk, session: string, message: seq<byte>, now: nat)
    requires d.visible.current.None? && forall id | id in d.inodes :: id < d.unused
    requires ValidMessage(message)
    ensures var document := InitialDocument(session, message, now);
            var w := World(Created(d, document), Some(Reporter(session, document.events, false)), document.events);
            && Invariant(w, session) && Settled(w.disk)
            && Visible(w.disk) == w.acked == [Event(1, now, Accepted, message, Counters(0, 0, 0, 0, 0))]
  {
    var document := InitialDocument(session, message, now);
    assert ValidRecord(document.events, 0);
  }

  lemma ActionKeepsInvariant(w: World, a: Action, session: string, size: Document -> nat)
    requires Invariant(w, session) && Legal(w, a, session, size)
    ensures var after := Apply(w, a, session, size);
            Invariant(after, session) && w.acked <= after.acked
  {
    hide PublishOn, OpenOn, Sound, Settled, PowerLoss, Brings, Reaches, Longer;
    match (a, w.reporter)
    case (Publishing(request), Some(r)) =>
      PublicationAgrees(r, w.disk, request, size, session, w.acked);
    case (PublishingCut(request, k, cut), Some(r)) =>
      PublicationStates(r, w.disk, request, size, session, w.acked);
      LossIsSound(StateAt(w.disk, PublishOn(r, w.disk, request, size).trace, k), cut, session, w.acked);
    case (Opening(io), None) =>
      OpenRecoversTheVisible(w.disk, session, w.acked, io, size);
      OpenedAgrees(w.disk, session, w.acked, io, size);
    case (OpeningCut(io, k, cut), None) =>
      OpenRecoversTheVisible(w.disk, session, w.acked, io, size);
      LossIsSound(StateAt(w.disk, OpenOn(w.disk, session, io, size).0, k), cut, session, w.acked);
    case _ =>
  }

  lemma OpenedAgrees(d: Disk, session: string, acked: seq<Event>, io: OpenIo, size: Document -> nat)
    requires Sound(d, session, acked)
    ensures var (trace, recovered) := OpenOn(d, session, io, size);
            && Sound(DiskAfter(d, trace), session, acked)
            && (recovered.Some? ==> Agrees(Reporter(session, recovered.value, false), DiskAfter(d, trace), session, acked))
  {
    OpenRecoversTheVisible(d, session, acked, io, size);
    hide OpenOn, ValidEvents;
  }

  /**
   * Over every run of publications, crashes, power losses and startups, the visible snapshot is
   * complete and valid, memory agrees with it, and no acknowledged event is ever lost.
   */
  lemma {:induction false} RunKeepsInvariant(w: World, actions: seq<Action>, session: string, size: Document -> nat)
    requires Invariant(w, session) && LegalRun(w, actions, session, size)
    ensures var after := Run(w, actions, session, size);
            Invariant(after, session) && w.acked <= after.acked
    decreases |actions|
  {
    hide Invariant, Apply, Legal;
    if actions != [] {
      ActionKeepsInvariant(w, actions[0], session, size);
      RunKeepsInvariant(Apply(w, actions[0], session, size), actions[1..], session, size);
    }
  }

  /** Whatever stops the process later, a startup whose calls succeed reads back every acknowledged event. */
  lemma AcknowledgedEventsSurvive(w: World, actions: seq<Action>, io: OpenIo, session: string, size: Document -> nat)
    requires Invariant(w, session) && LegalRun(w, actions, session, size)
    requires Run(w, actions, session, size).reporter.None?
    ensures var recovered := OpenOn(Run(w, actions, session, size).disk, session, io, size).1;
            && (recovered.Some? ==> w.acked <= recovered.value && ValidEvents(recovered.value))
            && (AllSucceed(io) ==>
                  (recovered.Some? <==>
                   size(Document(SCHEMA_VERSION, session, Visible(Run(w, actions, session, size).disk)))
                   <= MAX_DOCUMENT_BYTES))
  {
    hide OpenOn, LegalRun, ValidEvents;
    var after := Run(w, actions, session, size);
    RunKeepsInvariant(w, actions, session, size);
    OpenRecoversTheVisible(after.disk, session, after.acked, io, size);
    assert Holds(after.disk, after.disk.visible.current, session, after.acked);
  }

  /** The history shown after a stop in the `k`-th step of a publication. */
  function Recovered(d: Disk, r: Reporter, request: Request, size: Document -> nat, k: nat, cut: Cut): seq<Event> {
    Visible(AfterCut(StateAt(d, PublishOn(r, d, request, size).trace, k), cut))
  }

  ghost predicate BeforeOrAfter(d: Disk, r: Reporter, request: Request, size: Document -> nat, k: nat, cut: Cut) {
    || Recovered(d, r, request, size, k, cut) == r.events
    || (Reaches(r, request) && Recovered(d, r, request, size, k, cut) == Longer(r, request))
  }

  lemma SettledStopIsAtomic(d: Disk, r: Reporter, request: Request, size: Document -> nat, session: string,
                            acked: seq<Event>, k: nat, cut: Cut)
    requires Agrees(r, d, session, acked) && !r.durableFailed
    requires Possible(StateAt(d, PublishOn(r, d, request, size).trace, k), cut)
    requires Settled(d) || cut.Process?
    ensures BeforeOrAfter(d, r, request, size, k, cut)
  {
    hide PublishOn, Holds, ValidEvents, Reaches;
    var trace := PublishOn(r, d, request, size).trace;
    PublicationStates(r, d, request, size, session, acked);
    var s := StateAt(d, trace, k);
    LossIsSound(s, cut, session, acked);
    assert s == d || s in trace;
  }

  /** The loss that brings back the durable candidate `c`. */
  function Back(d: Disk, c: Option<nat>): Disk {
    d.(visible := Names(c, d.visible.next), currents := {c}, nexts := {d.visible.next})
  }

  /**
   * A stop at any step of a publication shows the history before it or after it, exactly when
   * the directory had been synced since the snapshot in memory became visible.
   */
  lemma PublicationIsAtomicExactlyWhenSettled(d: Disk, r: Reporter, request: Request, size: Document -> nat,
                                              session: string, acked: seq<Event>)
    requires Agrees(r, d, session, acked) && !r.durableFailed
    ensures Settled(d) <==>
            forall k: nat, cut | Possible(StateAt(d, PublishOn(r, d, request, size).trace, k), cut) ::
              BeforeOrAfter(d, r, request, size, k, cut)
  {
    hide PublishOn, Holds, ValidEvents, BeforeOrAfter, Reaches;
    if Settled(d) {
      forall k: nat, cut | Possible(StateAt(d, PublishOn(r, d, request, size).trace, k), cut)
        ensures BeforeOrAfter(d, r, request, size, k, cut)
      {
        SettledStopIsAtomic(d, r, request, size, session, acked, k, cut);
      }
    } else {
      var c :| c in d.currents && EventsAt(d, c) != Visible(d);
      OlderCandidateIsNeither(d, r, request, size, session, acked, c);
    }
  }

  lemma OlderCandidateIsNeither(d: Disk, r: Reporter, request: Request, size: Document -> nat, session: string,
                                acked: seq<Event>, c: Option<nat>)
    requires Agrees(r, d, session, acked) && !r.durableFailed
    requires c in d.currents && EventsAt(d, c) != Visible(d)
    ensures Possible(StateAt(d, PublishOn(r, d, request, size).trace, 0), Power(Back(d, c)))
    ensures !BeforeOrAfter(d, r, request, size, 0, Power(Back(d, c)))
  {
    hide PublishOn, Holds, ValidEvents;
    assert EventsAt(d, c) <= Visible(d) == r.events;
    assert Visible(Back(d, c)) == EventsAt(d, c);
  }

  /**
   * An unsettled directory is reached by one plain crash: a startup adopts a snapshot whose
   * directory was not synced, without syncing it, and a later power loss takes the event back.
   */
  lemma AdoptedEventCanBeLost(d: Disk, r: Reporter, request: Request, size: Document -> nat, session: string,
                              acked: seq<Event>, io: OpenIo)
    requires Agrees(r, d, session, acked) && !r.durableFailed && Settled(d) && d.visible.next.None?
    requires Reaches(r, request) && AllSucceed(io)
    requires request.io.statCurrent && request.io.statNext && request.io.create && request.io.write
             && request.io.syncFile && request.io.rename
    requires size(Document(SCHEMA_VERSION, session, r.events)) <= MAX_DOCUMENT_BYTES
    requires size(Document(SCHEMA_VERSION, session, Longer(r, request))) <= MAX_DOCUMENT_BYTES
    ensures var s := StateAt(d, PublishOn(r, d, request, size).trace, 4);
            && OpenOn(s, session, io, size) == ([], Some(Longer(r, request)))
            && !Settled(s)
            && PowerLoss(s, Back(s, d.visible.current)) && Visible(Back(s, d.visible.current)) == r.events
  {
    hide ValidEvents;
    var longer := Longer(r, request);
    var document := Document(SCHEMA_VERSION, session, longer);
    BuiltDocumentIsValid(r, request);
    assert Holds(d, d.visible.current, session, acked);
    var created := CreateNext(d);
    var written := FillNext(created, Whole(document), false);
    var synced := FillNext(written, Whole(document), true);
    var renamed := PublishNext(synced);
    assert CurrentContent(d) == Whole(Document(SCHEMA_VERSION, session, r.events));
    var replacement := ReplaceOn(d, document, request.io, size);
    assert |replacement.trace| >= 4 && replacement.trace[3] == renamed;
    assert PublishOn(r, d, request, size).trace == replacement.trace;
    assert d.visible.current in renamed.currents;
    assert EventsAt(renamed, d.visible.current) == r.events;
  }

  /**
   * With every call succeeding, a publication returns success whatever the size of the encoding,
   * and the next startup reads it back exactly when that size is within the bound.
   */
  lemma PublishedSnapshotOpensExactlyWithinTheBound(d: Disk, r: Reporter, request: Request, size: Document -> nat,
                                                    session: string, acked: seq<Event>, io: OpenIo)
    requires Agrees(r, d, session, acked) && Reaches(r, request) && d.visible.next.None?
    requires request.io.statCurrent && request.io.statNext && request.io.create && request.io.write
             && request.io.syncFile && request.io.rename && request.io.syncDirectory
    requires size(Document(SCHEMA_VERSION, session, r.events)) <= MAX_DOCUMENT_BYTES && AllSucceed(io)
    ensures var p := PublishOn(r, d, request, size);
            && p.result.Ok?
            && (OpenOn(DiskAfter(d, p.trace), session, io, size).1.Some?
                <==> size(Document(SCHEMA_VERSION, session, Longer(r, request))) <= MAX_DOCUMENT_BYTES)
  {
    hide OpenOn, ValidEvents, Kept;
    var longer := Longer(r, request);
    BuiltDocumentIsValid(r, request);
    PublicationAgrees(r, d, request, size, session, acked);
    assert Holds(d, d.visible.current, session, acked);
    assert CurrentContent(d) == Whole(Document(SCHEMA_VERSION, session, r.events));
    var replacement := ReplaceOn(d, Document(SCHEMA_VERSION, session, longer), request.io, size);
    assert replacement.outcome == Durable;
    var p := PublishOn(r, d, request, size);
    assert p.reporter.events == longer;
    OpenRecoversTheVisible(DiskAfter(d, p.trace), session, longer, io, size);
  }

  // ---- The history ---------------------------------------------------------

  /** Timestamps and every counter never go backwards. */
  lemma {:induction false} HistoryIsOrdered(events: seq<Event>, i: nat, j: nat)
    requires ValidEvents(events) && i <= j < |events|
    ensures events[i].at <= events[j].at && CountersGrow(events[i].counters, events[j].counters)
    decreases j
  {
    assert ValidRecord(events, i) && ValidRecord(events, j);
    if i < j {
      HistoryIsOrdered(events, i, j - 1);
    }
  }

  /** A valid history starts accepted, numbers its events from one, and orders every two of them. */
  lemma HistoryIsValidExactly(events: seq<Event>)
    ensures ValidEvents(events) <==>
            && 1 <= |events| <= 4096 && events[0].phase.Accepted?
            && (forall i | 0 <= i < |events| :: events[i].revision == i + 1 && 1 <= |events[i].message| <= 4096)
            && (forall i, j | 0 <= i <= j < |events| ::
                  events[i].at <= events[j].at && CountersGrow(events[i].counters, events[j].counters))
  {
    if ValidEvents(events) {
      forall i, j | 0 <= i <= j < |events|
        ensures events[i].at <= events[j].at && CountersGrow(events[i].counters, events[j].counters)
      {
        HistoryIsOrdered(events, i, j);
      }
      forall i | 0 <= i < |events| ensures events[i].revision == i + 1 && 1 <= |events[i].message| <= 4096 {
        assert ValidRecord(events, i);
      }
    } else if 1 <= |events| <= 4096 && events[0].phase.Accepted? {
      var i :| 0 <= i < |events| && !ValidRecord(events, i);
      assert i > 0 ==> !(events[i - 1].at <= events[i].at && CountersGrow(events[i - 1].counters, events[i].counters))
                       || events[i].revision != i + 1 || !(1 <= |events[i].message| <= 4096);
    }
  }

  function PublishAll(r: Reporter, d: Disk, requests: seq<Request>, size: Document -> nat): (Reporter, Disk)
    decreases |requests|
  {
    if requests == [] then (r, d)
    else
      var p := PublishOn(r, d, requests[0], size);
      PublishAll(p.reporter, DiskAfter(d, p.trace), requests[1..], size)
  }

  /** Once a publication has failed to persist, nothing is ever written again. */
  lemma {:induction false} LatchedForGood(r: Reporter, d: Disk, requests: seq<Request>, size: Document -> nat)
    requires r.durableFailed
    ensures PublishAll(r, d, requests, size) == (r, d)
    decreases |requests|
  {
    if requests != [] {
      LatchedForGood(r, d, requests[1..], size);
    }
  }
}
