/** The durable progress log (src/progress.rs) over a directory that can lose power. */
module Progress {
  import opened Wrappers
  import opened Bytes

  const MAX_EVENTS: nat := 4096
  const MAX_MESSAGE_BYTES: nat := 4096
  const SCHEMA_VERSION: nat := 2
  const MAX_DOCUMENT_BYTES: nat := MAX_EVENTS * (MAX_MESSAGE_BYTES + 1024) + 65_536
  const U64_MAX: nat := 0xFFFF_FFFF_FFFF_FFFF

  datatype Phase =
    | Accepted | Staging | PreparingAgent | CreatingTopology | AwaitingReadiness | RunningAgent
    | Cancelling | CapturingOutput | TearingDown | Bundling | PersistingTerminal | Terminal

  datatype Counters = Counters(stagedBytes: nat, stagedEntries: nat, stagedRegularFiles: nat,
                               outputEventBytes: nat, physicalRequests: nat)

  datatype Event = Event(revision: nat, at: nat, phase: Phase, message: seq<byte>, counters: Counters)

  datatype Document = Document(schema: nat, session: string, events: seq<Event>)

  // ---- Validation ----------------------------------------------------------

  predicate ValidMessage(message: seq<byte>) {
    1 <= |message| <= MAX_MESSAGE_BYTES
  }

  predicate Monotonic(previous: Counters, next: Counters) {
    && previous.stagedBytes <= next.stagedBytes
    && previous.stagedEntries <= next.stagedEntries
    && previous.stagedRegularFiles <= next.stagedRegularFiles
    && previous.outputEventBytes <= next.outputEventBytes
    && previous.physicalRequests <= next.physicalRequests
  }

  /** The per-record checks of `validate_document`, for record `i`. */
  predicate ValidRecord(events: seq<Event>, i: nat)
    requires i < |events|
  {
    && events[i].revision == i + 1
    && ValidMessage(events[i].message)
    && (i > 0 ==> events[i - 1].at <= events[i].at && Monotonic(events[i - 1].counters, events[i].counters))
  }

  predicate ValidEvents(events: seq<Event>) {
    && 1 <= |events| <= MAX_EVENTS
    && (forall i | 0 <= i < |events| :: ValidRecord(events, i))
    && events[0].phase == Accepted
  }

  predicate ValidDocument(document: Document, session: string) {
    document.schema == SCHEMA_VERSION && document.session == session && ValidEvents(document.events)
  }

  method ValidateDocument(document: Document, session: string) returns (ok: bool)
    ensures ok == ValidDocument(document, session)
  {
    if document.schema != SCHEMA_VERSION || document.session != session {
      return false;
    }
    if document.events == [] || |document.events| > MAX_EVENTS {
      return false;
    }
    for i := 0 to |document.events|
      invariant forall j | 0 <= j < i :: ValidRecord(document.events, j)
    {
      var event := document.events[i];
      if event.revision != i + 1 || !ValidMessage(event.message) {
        assert !ValidRecord(document.events, i);
        return false;
      }
      if i > 0 {
        var previous := document.events[i - 1];
        if event.at < previous.at || !Monotonic(previous.counters, event.counters) {
          assert !ValidRecord(document.events, i);
          return false;
        }
      }
    }
    return document.events[0].phase == Accepted;
  }

  // ---- The directory -------------------------------------------------------

  /** Bytes that decode to a document, or bytes that decode to none. */
  datatype Content = Whole(document: Document) | Torn
  datatype Inode = Inode(content: Content, synced: bool)
  datatype Names = Names(current: Option<nat>, next: Option<nat>)

  /**
   * `visible` is what running processes see. `currents` and `nexts` hold every state of the two
   * names that a power loss may leave: those since the last successful sync of the directory.
   */
  datatype Disk = Disk(inodes: map<nat, Inode>, unused: nat, visible: Names,
                       currents: set<Option<nat>>, nexts: set<Option<nat>>)

  function Rename(d: Disk, names: Names): Disk {
    d.(visible := names, currents := d.currents + {names.current}, nexts := d.nexts + {names.next})
  }

  function CreateNext(d: Disk): Disk {
    Rename(d.(inodes := d.inodes[d.unused := Inode(Torn, false)], unused := d.unused + 1),
           d.visible.(next := Some(d.unused)))
  }

  function FillNext(d: Disk, content: Content, synced: bool): Disk {
    if d.visible.next.Some? then d.(inodes := d.inodes[d.visible.next.value := Inode(content, synced)]) else d
  }

  function PublishNext(d: Disk): Disk {
    Rename(d, Names(d.visible.next, None))
  }

  function RemoveNext(d: Disk): Disk {
    Rename(d, d.visible.(next := None))
  }

  function SyncDirectory(d: Disk): Disk {
    d.(currents := {d.visible.current}, nexts := {d.visible.next})
  }

  function InitialDocument(session: string, message: seq<byte>, now: nat): Document {
    Document(SCHEMA_VERSION, session, [Event(1, now, Accepted, message, Counters(0, 0, 0, 0, 0))])
  }

  /** The disk once the first snapshot has been created, written, and synced with its directory. */
  function Created(d: Disk, document: Document): Disk {
    SyncDirectory(Rename(d.(inodes := d.inodes[d.unused := Inode(Whole(document), true)], unused := d.unused + 1),
                         d.visible.(current := Some(d.unused))))
  }

  function CurrentContent(d: Disk): Content {
    if d.visible.current.Some? && d.visible.current.value in d.inodes
    then d.inodes[d.visible.current.value].content else Torn
  }

  /** Reading the current snapshot back; `size` stands for the length of a document's encoding. */
  function ReadCurrent(d: Disk, session: string, size: Document -> nat): Option<seq<Event>> {
    match CurrentContent(d)
    case Torn => None
    case Whole(document) =>
      if size(document) <= MAX_DOCUMENT_BYTES && ValidDocument(document, session) then Some(document.events) else None
  }

  /**
   * A power loss leaves each name in one of its durable states, independently of the other, and
   * anything in the inodes that were not synced.
   */
  ghost predicate PowerLoss(d: Disk, after: Disk) {
    && after.visible.current in d.currents && after.visible.next in d.nexts
    && after.currents == {after.visible.current} && after.nexts == {after.visible.next}
    && after.unused == d.unused && after.inodes.Keys == d.inodes.Keys
    && forall id | id in d.inodes && d.inodes[id].synced :: after.inodes[id] == d.inodes[id]
  }

  // ---- Replacement ---------------------------------------------------------

  /** Which system calls of one replacement succeed. */
  datatype Io = Io(statCurrent: bool, statNext: bool, create: bool, write: bool, syncFile: bool, rename: bool,
                   cleanup: bool, syncRollback: bool, syncDirectory: bool, readBack: bool, retrySync: bool)

  datatype Outcome = Durable | Published | Failed

  /** Every disk state of one replacement, in order, and how it ended. */
  datatype Replacement = Replacement(trace: seq<Disk>, outcome: Outcome)

  function DiskAfter(d: Disk, trace: seq<Disk>): Disk {
    if trace == [] then d else trace[|trace| - 1]
  }

  function Rollback(d: Disk, io: Io): seq<Disk> {
    if !io.cleanup then []
    else if !io.syncRollback then [RemoveNext(d)]
    else [RemoveNext(d), SyncDirectory(RemoveNext(d))]
  }

  function ReplaceOn(d: Disk, document: Document, io: Io, size: Document -> nat): Replacement {
    if !io.statCurrent || d.visible.current.None?
       || (CurrentContent(d).Whole? && size(CurrentContent(d).document) > MAX_DOCUMENT_BYTES) then Replacement([], Failed)
    else if !io.statNext || d.visible.next.Some? then Replacement([], Failed)
    else if !ValidDocument(document, document.session) then Replacement([], Failed)
    else if !io.create then Replacement([], Failed)
    else
      var created := CreateNext(d);
      if !io.write then
        Replacement([created] + Rollback(created, io), Failed)
      else
        var written := FillNext(created, Whole(document), false);
        if !io.syncFile then Replacement([created, written] + Rollback(written, io), Failed)
        else
          var synced := FillNext(written, Whole(document), true);
          if !io.rename then Replacement([created, written, synced] + Rollback(synced, io), Failed)
          else
            var renamed := PublishNext(synced);
            var upTo := [created, written, synced, renamed];
            if io.syncDirectory then Replacement(upTo + [SyncDirectory(renamed)], Durable)
            else if !io.readBack || size(document) > MAX_DOCUMENT_BYTES || CurrentContent(renamed) != Whole(document)
            then Replacement(upTo, Failed)
            else if io.retrySync then Replacement(upTo + [SyncDirectory(renamed)], Durable)
            else Replacement(upTo, Published)
  }

  // ---- The reporter --------------------------------------------------------

  datatype Reporter = Reporter(session: string, events: seq<Event>, durableFailed: bool)

  datatype Request = Request(phase: Phase, message: seq<byte>, counters: Counters, now: nat, io: Io)

  datatype PublishError = BadMessage | AlreadyFailed | TooManyEvents | NoInitialEvent | CountersRegressed
                        | RevisionOverflow | NotDurable | NotPublished

  datatype Publication = Publication(reporter: Reporter, trace: seq<Disk>, result: Result<Event, PublishError>)

  function NextEvent(previous: Event, request: Request): Event {
    Event(previous.revision + 1, if request.now < previous.at then previous.at else request.now,
          request.phase, request.message, request.counters)
  }

  function PublishOn(r: Reporter, d: Disk, request: Request, size: Document -> nat): Publication {
    if !ValidMessage(request.message) then Publication(r, [], Err(BadMessage))
    else if r.durableFailed then Publication(r, [], Err(AlreadyFailed))
    else if |r.events| >= MAX_EVENTS then Publication(r.(durableFailed := true), [], Err(TooManyEvents))
    else if r.events == [] then Publication(r, [], Err(NoInitialEvent))
    else
      var previous := r.events[|r.events| - 1];
      if !Monotonic(previous.counters, request.counters) then Publication(r, [], Err(CountersRegressed))
      else if previous.revision >= U64_MAX then Publication(r, [], Err(RevisionOverflow))
      else
        var event := NextEvent(previous, request);
        var longer := r.events + [event];
        var replacement := ReplaceOn(d, Document(SCHEMA_VERSION, r.session, longer), request.io, size);
        match replacement.outcome
        case Durable => Publication(r.(events := longer), replacement.trace, Ok(event))
        case Published => Publication(r.(events := longer, durableFailed := true), replacement.trace, Err(NotDurable))
        case Failed => Publication(r.(durableFailed := true), replacement.trace, Err(NotPublished))
  }

  datatype OpenIo = OpenIo(statNext: bool, nextSafe: bool, readFirst: bool, remove: bool, sync: bool, readAgain: bool)

  /** Startup: discard an unpublished replacement behind a valid snapshot, then read the snapshot. */
  function OpenOn(d: Disk, session: string, io: OpenIo, size: Document -> nat): (seq<Disk>, Option<seq<Event>>) {
    if !io.statNext then ([], None)
    else if d.visible.next.Some? && !io.nextSafe then ([], None)
    else if !io.readFirst || ReadCurrent(d, session, size).None? then ([], None)
    else if d.visible.next.None? then ([], if io.readAgain then ReadCurrent(d, session, size) else None)
    else if !io.remove then ([], None)
    else
      var removed := RemoveNext(d);
      if !io.sync then ([removed], None)
      else
        var settled := SyncDirectory(removed);
        ([removed, settled], if io.readAgain then ReadCurrent(settled, session, size) else None)
  }

  /** `after` is `before` and one more event: the next revision of what the caller asked to record. */
  predicate Appends(before: seq<Event>, after: seq<Event>, request: Request) {
    && 0 < |before| == |after| - 1 && before == after[..|before|]
    && var previous, last := before[|before| - 1], after[|before|];
    && last.revision == previous.revision + 1
    && last.phase == request.phase && last.message == request.message && last.counters == request.counters
    && request.now <= last.at && previous.at <= last.at && (last.at == request.now || last.at == previous.at)
  }

  // ---- The objects that change ---------------------------------------------

  /** The session's directory; `log` is every state it has been through. */
  class Directory {
    var disk: Disk
    ghost var log: seq<Disk>

    constructor (d: Disk)
      ensures disk == d && log == []
    {
      disk := d;
      log := [];
    }

    method Become(next: Disk)
      modifies this
      ensures disk == next && log == old(log) + [next]
    {
      disk := next;
      log := log + [next];
    }

    /** Removes an unpublished replacement after a failure, as far as the calls succeed. */
    method RollBack(io: Io)
      modifies this
      ensures disk == DiskAfter(old(disk), Rollback(old(disk), io))
      ensures log == old(log) + Rollback(old(disk), io)
    {
      if !io.cleanup {
        return;
      }
      Become(RemoveNext(disk));
      if io.syncRollback {
        Become(SyncDirectory(disk));
      }
    }

    method ReplaceAtomically(document: Document, io: Io, size: Document -> nat) returns (outcome: Outcome)
      modifies this
      ensures var r := ReplaceOn(old(disk), document, io, size);
              disk == DiskAfter(old(disk), r.trace) && log == old(log) + r.trace && outcome == r.outcome
    {
      hide CreateNext, FillNext, PublishNext, RemoveNext, SyncDirectory, ValidDocument, CurrentContent;
      var content := CurrentContent(disk);
      if !io.statCurrent || disk.visible.current.None?
         || (content.Whole? && size(content.document) > MAX_DOCUMENT_BYTES) {
        return Failed;
      }
      if !io.statNext || disk.visible.next.Some? {
        return Failed;
      }
      var encodes := ValidateDocument(document, document.session);
      if !encodes || !io.create {
        return Failed;
      }
      Become(CreateNext(disk));
      if !io.write {
        RollBack(io);
        return Failed;
      }
      Become(FillNext(disk, Whole(document), false));
      if !io.syncFile {
        RollBack(io);
        return Failed;
      }
      Become(FillNext(disk, Whole(document), true));
      if !io.rename {
        RollBack(io);
        return Failed;
      }
      Become(PublishNext(disk));
      if io.syncDirectory {
        Become(SyncDirectory(disk));
        return Durable;
      }
      if !io.readBack || size(document) > MAX_DOCUMENT_BYTES || CurrentContent(disk) != Whole(document) {
        return Failed;
      }
      if io.retrySync {
        Become(SyncDirectory(disk));
        return Durable;
      }
      return Published;
    }
  }

  class ProgressReporter {
    const directory: Directory
    const session: string
    var events: seq<Event>
    var durableFailed: bool

    constructor (directory: Directory, session: string, events: seq<Event>)
      ensures this.directory == directory && Model() == Reporter(session, events, false)
    {
      this.directory := directory;
      this.session := session;
      this.events := events;
      this.durableFailed := false;
    }

    function Model(): Reporter
      reads this
    {
      Reporter(session, events, durableFailed)
    }

    method Publish(request: Request, size: Document -> nat) returns (result: Result<Event, PublishError>)
      modifies this, directory
      ensures var p := PublishOn(old(Model()), old(directory.disk), request, size);
              && Model() == p.reporter && result == p.result
              && directory.disk == DiskAfter(old(directory.disk), p.trace)
              && directory.log == old(directory.log) + p.trace
      ensures result.Ok? ==> Appends(old(events), events, request) && result.value == events[|old(events)|]
      ensures result == Err(NotDurable) ==> Appends(old(events), events, request)
      ensures result.Err? && result.error != NotDurable ==> events == old(events)
      ensures durableFailed ==
              (old(durableFailed) || (result.Err? && result.error in {TooManyEvents, NotDurable, NotPublished}))
    {
      hide ReplaceOn;
      if !ValidMessage(request.message) {
        return Err(BadMessage);
      }
      if durableFailed {
        return Err(AlreadyFailed);
      }
      if |events| >= MAX_EVENTS {
        durableFailed := true;
        return Err(TooManyEvents);
      }
      if events == [] {
        return Err(NoInitialEvent);
      }
      var previous := events[|events| - 1];
      if !Monotonic(previous.counters, request.counters) {
        return Err(CountersRegressed);
      }
      if previous.revision >= U64_MAX {
        return Err(RevisionOverflow);
      }
      var event := NextEvent(previous, request);
      var replacement := events + [event];
      var outcome := directory.ReplaceAtomically(Document(SCHEMA_VERSION, session, replacement), request.io, size);
      match outcome {
        case Durable =>
          events := replacement;
          return Ok(event);
        case Published =>
          events := replacement;
          durableFailed := true;
          return Err(NotDurable);
        case Failed =>
          durableFailed := true;
          return Err(NotPublished);
      }
    }
  }

  /** Discards an unpublished replacement behind a valid snapshot, then reads that snapshot. */
  method Open(directory: Directory, session: string, io: OpenIo, size: Document -> nat)
    returns (reporter: Option<ProgressReporter>)
    modifies directory
    ensures var (trace, recovered) := OpenOn(old(directory.disk), session, io, size);
            && directory.disk == DiskAfter(old(directory.disk), trace) && directory.log == old(directory.log) + trace
            && (reporter.Some? <==> recovered.Some?)
            && (reporter.Some? ==> reporter.value.directory == directory
                                   && reporter.value.Model() == Reporter(session, recovered.value, false))
  {
    hide RemoveNext, SyncDirectory, ReadCurrent;
    if !io.statNext || (directory.disk.visible.next.Some? && !io.nextSafe) {
      return None;
    }
    if !io.readFirst || ReadCurrent(directory.disk, session, size).None? {
      return None;
    }
    if directory.disk.visible.next.Some? {
      if !io.remove {
        return None;
      }
      directory.Become(RemoveNext(directory.disk));
      if !io.sync {
        return None;
      }
      directory.Become(SyncDirectory(directory.disk));
    }
    var events := ReadCurrent(directory.disk, session, size);
    if !io.readAgain || events.None? {
      return None;
    }
    var reopened := new ProgressReporter(directory, session, events.value);
    return Some(reopened);
  }
}
