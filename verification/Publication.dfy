/** Publishing the terminal of a finished session (src/runtime.rs), and what the next startup makes of it. */
module Publication {
  import opened RawEvidence
  import opened RawMarker
  import opened Recovery
  import opened Wrappers
  import Utf8

  // ---- The transaction -----------------------------------------------------

  /** The draft of a terminal is on disk, and no terminal is. */
  predicate Prepared(s: Slot) {
    && s.dir.Some? && s.dir.value.directory && s.dir.value.safe && s.dir.value.finished.None?
    && s.dir.value.temporary.Some? && s.dir.value.temporary.value.private && s.dir.value.temporary.value.body.Some?
  }

  function DraftOf(s: Slot): Ending
    requires Prepared(s)
  {
    s.dir.value.temporary.value.body.value
  }

  predicate Published(s: Slot) {
    s.dir.Some? && s.dir.value.finished.Some?
  }

  /** Which calls succeed; `torn` says that a failing removal took some entries with it. */
  datatype Io = Io(syncAbsent: bool, remove: bool, torn: bool, syncRemoval: bool, rewrite: bool, tornDraft: bool,
                   mark: bool, link: bool, syncLink: bool, unlink: bool)

  predicate AllSucceed(io: Io) {
    io.syncAbsent && io.remove && io.syncRemoval && io.rewrite && io.mark && io.link && io.syncLink && io.unlink
  }

  function WithDraft(s: Slot, body: Option<Ending>): Slot
    requires s.dir.Some? && s.dir.value.temporary.Some?
  {
    s.(dir := Some(s.dir.value.(temporary := Some(s.dir.value.temporary.value.(body := body)))))
  }

  /** The draft becomes the terminal by a second name, which is synced before the first one goes. */
  function Commit(s: Slot, io: Io): seq<Slot>
    requires s.dir.Some? && s.dir.value.temporary.Some?
  {
    var dir := s.dir.value;
    var linked := s.(dir := Some(dir.(finished := dir.temporary, durable := false)));
    var synced := s.(dir := Some(dir.(finished := dir.temporary, durable := true)));
    var committed := s.(dir := Some(dir.(finished := dir.temporary, temporary := None, durable := true)));
    if !io.link then []
    else if !io.syncLink then [linked]
    else if !io.unlink then [linked, synced]
    else [linked, synced, committed]
  }

  datatype Cleaning = Cleaning(trace: seq<Slot>, clean: bool)

  /** Removes the raw tree of a terminal that does not retain it. */
  function Clean(s: Slot, io: Io): Cleaning {
    if s.raw.None? then Cleaning([], io.syncAbsent)
    else if !s.raw.value.safe then Cleaning([], false)
    else if io.remove then Cleaning(RemoveRaw(s), io.syncRemoval)
    else Cleaning(if io.torn then [RemoveRaw(s)[0]] else [], false)
  }

  /** The draft is rewritten in place, so that it can be found without a readable body. */
  function Rewrite(s: Slot, ending: Ending, io: Io): seq<Slot>
    requires s.dir.Some? && s.dir.value.temporary.Some?
  {
    if io.rewrite then [WithDraft(s, None), WithDraft(s, Some(ending))]
    else if io.tornDraft then [WithDraft(s, None)]
    else []
  }

  /** After a failed removal, a tree whose bundle was accepted is marked and retained instead. */
  function RetainInstead(s: Slot, ending: Ending, io: Io): seq<Slot>
    requires s.dir.Some? && s.dir.value.temporary.Some? && s.raw.Some?
  {
    var kept := ending.(retained := true);
    var marked := WithDraft(s, Some(kept)).(raw := Some(s.raw.value.(marker := Marked(RawStateCleanupFailure))));
    if !io.rewrite || !io.mark || !s.raw.value.marker.Unmarked? then Rewrite(s, kept, io)
    else Rewrite(s, kept, io) + [marked] + Commit(marked, io)
  }

  /** Every state of the transaction that finishes a prepared terminal. */
  function Finish(s: Slot, io: Io): seq<Slot>
    requires Prepared(s)
  {
    var ending := DraftOf(s);
    if !StorageAgrees(s.dir.value, ending) then []
    else if ending.retained then (if Reconciles(s.raw, ending) then Commit(s, io) else [])
    else if ending.bundle.None? && s.raw.Some? then []
    else
      var cleaning := Clean(s, io);
      var now := LastSlot(s, cleaning.trace);
      if cleaning.clean then cleaning.trace + Commit(now, io)
      else if now.raw.None? || !now.raw.value.safe then cleaning.trace + Rewrite(now, ending, io)
      else cleaning.trace + RetainInstead(now, ending, io)
  }

  // ---- What it publishes ---------------------------------------------------

  /** What the transaction demands of a draft before it publishes it. */
  predicate Publishable(s: Slot)
    requires Prepared(s)
  {
    var ending := DraftOf(s);
    && StorageAgrees(s.dir.value, ending)
    && (if ending.retained then Reconciles(s.raw, ending)
        else s.raw.Some? ==> ending.bundle.Some? && s.raw.value.safe)
  }

  /** The parts of a result directory that the transaction never touches. */
  predicate Beside(before: Slot, after: Slot) {
    && before.dir.Some? && after.dir.Some?
    && after.dir.value.archive == before.dir.value.archive && after.dir.value.others == before.dir.value.others
    && after.dir.value.directory == before.dir.value.directory && after.dir.value.safe == before.dir.value.safe
  }

  /** A state that the next startup decides by whether its terminal was published, and that lost no evidence. */
  predicate Orderly(s: Slot, t: Slot)
    requires Prepared(s)
  {
    && Beside(s, t)
    && (t.dir.value.finished.Some? || t.dir.value.temporary.Some?)
    && (Acceptable(t) <==> Published(t))
    && (Published(t) ==> Publishable(s))
    && (t.raw != s.raw ==> DraftOf(s).bundle.Some? && !DraftOf(s).retained && Publishable(s))
    && (t.raw.Some? ==> s.raw.Some? && t.raw.value.safe == s.raw.value.safe)
  }

  lemma DraftIsRefused(s: Slot)
    requires s.dir.Some? && s.dir.value.finished.None? && s.dir.value.temporary.Some?
    ensures !Acceptable(s)
  {
  }

  lemma CommitIsAcceptable(s: Slot, io: Io)
    requires Prepared(s) && StorageAgrees(s.dir.value, DraftOf(s)) && Reconciles(s.raw, DraftOf(s))
    ensures forall t | t in Commit(s, io) ::
              Acceptable(t) && Published(t) && t.raw == s.raw && Beside(s, t)
    ensures forall k | 0 <= k < |Commit(s, io)| && Commit(s, io)[k].dir.value.temporary.None? ::
              k > 0 && Commit(s, io)[k - 1].dir.value.temporary.Some? && Commit(s, io)[k - 1].dir.value.durable
    ensures io.link && io.syncLink && io.unlink ==>
              && Commit(s, io) != [] && Published(LastSlot(s, Commit(s, io)))
              && Recovered(LastSlot(s, Commit(s, io))) == LastSlot(s, Commit(s, io))
  {
  }

  lemma RewriteIsOrderly(s: Slot, now: Slot, ending: Ending, io: Io)
    requires Prepared(s) && Prepared(now) && Beside(s, now)
    requires now.raw != s.raw ==> DraftOf(s).bundle.Some? && !DraftOf(s).retained && Publishable(s)
    requires now.raw.Some? ==> s.raw.Some? && now.raw.value.safe == s.raw.value.safe
    ensures forall t | t in Rewrite(now, ending, io) :: Orderly(s, t) && !Published(t) && t.raw == now.raw
  {
    hide Acceptable, Publishable;
    forall t | t in Rewrite(now, ending, io) ensures !Acceptable(t) {
      DraftIsRefused(t);
    }
  }

  lemma CommitIsOrderly(s: Slot, now: Slot, io: Io)
    requires Prepared(s) && Prepared(now) && Beside(s, now) && Publishable(s)
    requires StorageAgrees(now.dir.value, DraftOf(now)) && Reconciles(now.raw, DraftOf(now))
    requires now.raw != s.raw ==> DraftOf(s).bundle.Some? && !DraftOf(s).retained && Publishable(s)
    requires now.raw.Some? ==> s.raw.Some? && now.raw.value.safe == s.raw.value.safe
    ensures forall t | t in Commit(now, io) :: Orderly(s, t)
  {
    hide Acceptable, Publishable, Reconciles, StorageAgrees;
    CommitIsAcceptable(now, io);
  }

  lemma CleaningIsOrderly(s: Slot, io: Io)
    requires Prepared(s) && !DraftOf(s).retained && StorageAgrees(s.dir.value, DraftOf(s))
    requires s.raw.Some? ==> DraftOf(s).bundle.Some?
    ensures var cleaning := Clean(s, io);
            var now := LastSlot(s, cleaning.trace);
            && (forall t | t in cleaning.trace :: Orderly(s, t) && !Published(t) && Publishable(s))
            && Prepared(now) && DraftOf(now) == DraftOf(s) && now.dir == s.dir
            && (now.raw != s.raw ==> Publishable(s) && DraftOf(s).bundle.Some?)
            && (cleaning.clean ==> now.raw.None? && Publishable(s))
            && (now.raw.Some? ==> s.raw.Some? && now.raw.value.safe == s.raw.value.safe
                                  && now.raw.value.marker == s.raw.value.marker)
  {
    hide Acceptable;
    forall t | t in Clean(s, io).trace ensures !Acceptable(t) {
      DraftIsRefused(t);
    }
  }

  lemma RetainingIsOrderly(s: Slot, now: Slot, io: Io)
    requires Prepared(s) && Prepared(now) && now.dir == s.dir && Publishable(s)
    requires !DraftOf(s).retained && DraftOf(s).bundle.Some? && now.raw.Some? && now.raw.value.safe
    requires s.raw.Some? && s.raw.value.safe
    ensures forall t | t in RetainInstead(now, DraftOf(s), io) :: Orderly(s, t)
  {
    hide Acceptable, Commit, Rewrite;
    var kept := DraftOf(s).(retained := true);
    var marked := WithDraft(now, Some(kept)).(raw := Some(now.raw.value.(marker := Marked(RawStateCleanupFailure))));
    RewriteIsOrderly(s, now, kept, io);
    DraftIsRefused(marked);
    CommitIsOrderly(s, marked, io);
  }

  /** Every state of a publication is orderly: startup accepts it exactly if its terminal was published. */
  lemma PublicationIsOrderly(s: Slot, io: Io)
    requires Prepared(s)
    ensures Orderly(s, s) && forall t | t in Finish(s, io) :: Orderly(s, t)
  {
    hide Acceptable, Clean, Commit, RetainInstead, Rewrite, Orderly;
    var ending := DraftOf(s);
    assert Orderly(s, s) by { DraftItselfIsOrderly(s); }
    if StorageAgrees(s.dir.value, ending) {
      if ending.retained {
        if Reconciles(s.raw, ending) {
          CommitIsOrderly(s, s, io);
        }
      } else if s.raw.Some? ==> ending.bundle.Some? {
        var now := LastSlot(s, Clean(s, io).trace);
        CleaningIsOrderly(s, io);
        if Clean(s, io).clean {
          CommitIsOrderly(s, now, io);
        } else {
          RewriteIsOrderly(s, now, ending, io);
          if now.raw.Some? && now.raw.value.safe {
            RetainingIsOrderly(s, now, io);
          }
        }
      }
    }
  }

  lemma DraftItselfIsOrderly(s: Slot)
    requires Prepared(s)
    ensures Orderly(s, s)
  {
    DraftIsRefused(s);
  }

  /**
   * Without a failing call the terminal is published exactly if its draft is publishable, and
   * recovery would then change nothing. A draft that is not leaves its raw tree alone.
   */
  lemma PublishesExactly(s: Slot, io: Io)
    requires Prepared(s)
    ensures AllSucceed(io) ==>
              var last := LastSlot(s, Finish(s, io));
              && (Published(last) <==> Publishable(s))
              && (Published(last) ==> Acceptable(last) && Recovered(last) == last)
    ensures !Publishable(s) ==> forall t | t in Finish(s, io) :: !Published(t) && t.raw == s.raw
  {
    hide Acceptable;
    PublicationIsOrderly(s, io);
    var last := LastSlot(s, Finish(s, io));
    assert last == s || last in Finish(s, io);
    assert Orderly(s, last);
  }

  /** The calls that a publishable draft needs: those of its cleanup, or of retaining a tree that was not removed. */
  predicate Suffices(s: Slot, io: Io)
    requires Prepared(s)
  {
    && io.link
    && (DraftOf(s).retained
        || (if s.raw.None? then io.syncAbsent
            else if io.remove then io.syncRemoval
            else io.rewrite && io.mark && s.raw.value.marker.Unmarked?))
  }

  /** What is published: the draft, or, with its tree retained `instead`, the draft that says so. */
  predicate PublishedAs(s: Slot, last: Slot, instead: bool, io: Io)
    requires Prepared(s)
  {
    && Published(last)
    && (last.dir.value.durable <==> io.syncLink) && (last.dir.value.temporary.None? <==> io.syncLink && io.unlink)
    && last.dir.value.finished.value.body == Some(if instead then DraftOf(s).(retained := true) else DraftOf(s))
    && (DraftOf(s).retained ==> last.raw == s.raw)
    && (instead ==> last.raw.Some? && last.raw.value.marker == Marked(RawStateCleanupFailure))
    && (!DraftOf(s).retained && !instead ==> last.raw.None?)
  }

  /** It ends published exactly if the draft is publishable and the calls it needs succeed. */
  ghost predicate EndsExactly(s: Slot, io: Io)
    requires Prepared(s)
  {
    var last := LastSlot(s, Finish(s, io));
    && (Published(last) <==> Publishable(s) && Suffices(s, io))
    && (Published(last) ==> PublishedAs(s, last, !DraftOf(s).retained && s.raw.Some? && !io.remove, io))
  }

  /**
   * Whichever calls fail, a draft is published exactly if it is publishable and the calls it needs
   * succeed. What is published is the draft, unless a failed removal had the tree retained instead:
   * then it says so, and the tree is marked with the failed cleanup.
   */
  lemma PublicationEndsExactly(s: Slot, io: Io)
    requires Prepared(s)
    ensures EndsExactly(s, io)
  {
    hide *;
    if !Publishable(s) {
      UnpublishableEnds(s, io);
    } else if DraftOf(s).retained {
      RetainedEnds(s, io);
    } else {
      CleanedEnds(s, io);
    }
  }

  /** A commit ends published exactly if it could link the draft, whatever else fails. */
  lemma CommitEnds(s: Slot, io: Io)
    requires s.dir.Some? && s.dir.value.temporary.Some? && s.dir.value.finished.None?
    ensures !io.link ==> Commit(s, io) == []
    ensures io.link ==>
              && Commit(s, io) != []
              && var last := LastSlot(s, Commit(s, io));
              && Published(last) && last.raw == s.raw
              && last.dir.value.finished.value.body == s.dir.value.temporary.value.body
              && (last.dir.value.durable <==> io.syncLink)
              && (last.dir.value.temporary.None? <==> io.syncLink && io.unlink)
  {
  }

  lemma UnpublishableEnds(s: Slot, io: Io)
    requires Prepared(s) && !Publishable(s)
    ensures EndsExactly(s, io)
  {
    PublishesExactly(s, io);
    var last := LastSlot(s, Finish(s, io));
    assert last == s || last in Finish(s, io);
    hide Acceptable, Publishable, Finish;
  }

  lemma RetainedEnds(s: Slot, io: Io)
    requires Prepared(s) && Publishable(s) && DraftOf(s).retained
    ensures EndsExactly(s, io)
  {
    hide Commit, StorageAgrees, Reconciles;
    CommitEnds(s, io);
  }

  lemma CleanedEnds(s: Slot, io: Io)
    requires Prepared(s) && Publishable(s) && !DraftOf(s).retained
    ensures EndsExactly(s, io)
  {
    hide Prepared, EndsExactly, Publishable;
    if s.raw.None? {
      NoTreeEnds(s, io);
    } else if io.remove {
      RemovedEnds(s, io);
    } else {
      KeptEnds(s, io);
    }
  }

  lemma NoTreeEnds(s: Slot, io: Io)
    requires Prepared(s) && Publishable(s) && !DraftOf(s).retained && s.raw.None?
    ensures EndsExactly(s, io)
  {
    hide Commit, StorageAgrees, Reconciles, RetainInstead;
    CommitEnds(s, io);
  }

  lemma RemovedEnds(s: Slot, io: Io)
    requires Prepared(s) && Publishable(s) && !DraftOf(s).retained && s.raw.Some? && io.remove
    ensures EndsExactly(s, io)
  {
    hide Commit, StorageAgrees, Reconciles, RetainInstead;
    CommitEnds(s.(raw := None), io);
  }

  lemma KeptEnds(s: Slot, io: Io)
    requires Prepared(s) && Publishable(s) && !DraftOf(s).retained && s.raw.Some? && !io.remove
    ensures EndsExactly(s, io)
  {
    hide Commit, StorageAgrees, Reconciles, RetainInstead;
    InsteadEnds(LastSlot(s, Clean(s, io).trace), DraftOf(s), io);
  }

  lemma InsteadEnds(s: Slot, ending: Ending, io: Io)
    requires Prepared(s) && s.raw.Some? && DraftOf(s) == ending && !ending.retained
    ensures var last := LastSlot(s, RetainInstead(s, ending, io));
            && (Published(last) <==> io.link && io.rewrite && io.mark && s.raw.value.marker.Unmarked?)
            && (Published(last) ==> PublishedAs(s, last, true, io))
  {
    hide Commit;
    var marked := WithDraft(s, Some(ending.(retained := true)))
                  .(raw := Some(s.raw.value.(marker := Marked(RawStateCleanupFailure))));
    CommitEnds(marked, io);
  }

  /** The raw tree was to be removed, and it is not durably gone. */
  predicate CleanupFails(s: Slot, io: Io)
    requires Prepared(s)
  {
    && StorageAgrees(s.dir.value, DraftOf(s)) && !DraftOf(s).retained
    && (if s.raw.None? then !io.syncAbsent
        else DraftOf(s).bundle.Some? && (s.raw.value.safe && io.remove ==> !io.syncRemoval))
  }

  /** The draft that is left if the terminal is not published. */
  function WithheldDraft(s: Slot, io: Io): Option<Ending>
    requires Prepared(s)
  {
    if !CleanupFails(s, io) then Some(DraftOf(s))
    else if io.rewrite then
      Some(if s.raw.Some? && s.raw.value.safe && !io.remove then DraftOf(s).(retained := true) else DraftOf(s))
    else if io.tornDraft then None
    else Some(DraftOf(s))
  }

  /** Unless `last` is published, it has the draft that is to be left. */
  predicate LeavesDraft(s: Slot, last: Slot, io: Io)
    requires Prepared(s)
  {
    Published(last)
    || (last.dir.Some? && last.dir.value.temporary == Some(s.dir.value.temporary.value.(body := WithheldDraft(s, io))))
  }

  /**
   * A terminal that is not published leaves its draft: unreadable only if rewriting it after a
   * failed cleanup was cut short, and retaining the tree exactly if that was rewritten into it.
   */
  lemma WithheldDraftIsExact(s: Slot, io: Io)
    requires Prepared(s)
    ensures LeavesDraft(s, LastSlot(s, Finish(s, io)), io)
  {
    hide LeavesDraft, WithheldDraft, Commit, Rewrite, RetainInstead, Clean, StorageAgrees, Reconciles;
    var ending := DraftOf(s);
    if !StorageAgrees(s.dir.value, ending) || ending.retained || (ending.bundle.None? && s.raw.Some?) {
      UncleanedLeavesDraft(s, io);
    } else if s.raw.None? || (s.raw.value.safe && io.remove) {
      RemovedLeavesDraft(s, io);
    } else {
      KeptLeavesDraft(s, io);
    }
  }

  lemma UncleanedLeavesDraft(s: Slot, io: Io)
    requires Prepared(s)
    requires !StorageAgrees(s.dir.value, DraftOf(s)) || DraftOf(s).retained || (DraftOf(s).bundle.None? && s.raw.Some?)
    ensures LeavesDraft(s, LastSlot(s, Finish(s, io)), io)
  {
    hide Commit, Clean, Rewrite, RetainInstead, StorageAgrees, Reconciles;
    CommitEnds(s, io);
  }

  lemma RemovedLeavesDraft(s: Slot, io: Io)
    requires Prepared(s) && StorageAgrees(s.dir.value, DraftOf(s)) && !DraftOf(s).retained
    requires s.raw.Some? ==> DraftOf(s).bundle.Some? && s.raw.value.safe && io.remove
    ensures LeavesDraft(s, LastSlot(s, Finish(s, io)), io)
  {
    hide Commit, RetainInstead, StorageAgrees, Reconciles;
    CommitEnds(s.(raw := None), io);
  }

  lemma KeptLeavesDraft(s: Slot, io: Io)
    requires Prepared(s) && StorageAgrees(s.dir.value, DraftOf(s)) && !DraftOf(s).retained
    requires s.raw.Some? && DraftOf(s).bundle.Some? && !(s.raw.value.safe && io.remove)
    ensures LeavesDraft(s, LastSlot(s, Finish(s, io)), io)
  {
    hide Commit, StorageAgrees, Reconciles;
    var now := LastSlot(s, Clean(s, io).trace);
    var marked := WithDraft(now, Some(DraftOf(s).(retained := true)))
                  .(raw := Some(now.raw.value.(marker := Marked(RawStateCleanupFailure))));
    CommitEnds(marked, io);
  }

  /** The tree of `t` has its old marker, or it is marked with the failed cleanup beside a record that says so. */
  predicate MarkedAfterRewriting(s: Slot, t: Slot)
    requires Prepared(s)
  {
    t.raw.Some? && s.raw.Some? && t.raw.value.marker != s.raw.value.marker ==>
      && t.raw.value.marker == Marked(RawStateCleanupFailure) && t.dir.Some?
      && var record := if Published(t) then t.dir.value.finished else t.dir.value.temporary;
      && record.Some? && record.value.body == Some(DraftOf(s).(retained := true))
  }

  /** A tree is marked as retained only beside a record that already says so. */
  lemma RewrittenBeforeMarked(s: Slot, io: Io)
    requires Prepared(s)
    ensures forall t | t in Finish(s, io) :: MarkedAfterRewriting(s, t)
  {
    hide MarkedAfterRewriting, Commit, Rewrite, RetainInstead, Clean, StorageAgrees, Reconciles;
    var cleaning := Clean(s, io);
    var now := LastSlot(s, cleaning.trace);
    CleaningKeepsMarks(s, io);
    CommitKeepsMarks(s, s, io);
    CommitKeepsMarks(s, now, io);
    RewriteKeepsMarks(s, now, DraftOf(s), io);
    if now.raw.Some? {
      InsteadMarksLast(s, now, io);
    }
  }

  lemma CleaningKeepsMarks(s: Slot, io: Io)
    requires Prepared(s)
    ensures var cleaning := Clean(s, io);
            && (forall t | t in cleaning.trace :: MarkedAfterRewriting(s, t))
            && (var now := LastSlot(s, cleaning.trace);
                now.dir == s.dir && (now.raw.Some? && s.raw.Some? ==> now.raw.value.marker == s.raw.value.marker))
  {
  }

  lemma CommitKeepsMarks(s: Slot, now: Slot, io: Io)
    requires Prepared(s) && now.dir == s.dir
    requires now.raw.Some? && s.raw.Some? ==> now.raw.value.marker == s.raw.value.marker
    ensures forall t | t in Commit(now, io) :: MarkedAfterRewriting(s, t)
  {
  }

  lemma RewriteKeepsMarks(s: Slot, now: Slot, ending: Ending, io: Io)
    requires Prepared(s) && now.dir == s.dir
    requires now.raw.Some? && s.raw.Some? ==> now.raw.value.marker == s.raw.value.marker
    ensures forall t | t in Rewrite(now, ending, io) :: MarkedAfterRewriting(s, t)
  {
  }

  lemma InsteadMarksLast(s: Slot, now: Slot, io: Io)
    requires Prepared(s) && now.dir == s.dir && now.raw.Some?
    requires s.raw.Some? ==> now.raw.value.marker == s.raw.value.marker
    ensures forall t | t in RetainInstead(now, DraftOf(s), io) :: MarkedAfterRewriting(s, t)
  {
    hide Rewrite;
    RewriteKeepsMarks(s, now, DraftOf(s).(retained := true), io);
  }

  /** Resuming a cut-off publication decides as it would have been decided, as long as its draft was not rewritten. */
  lemma ResumingDecidesAlike(s: Slot, io: Io, t: Slot)
    requires Prepared(s) && t in Finish(s, io) && Prepared(t) && DraftOf(t) == DraftOf(s)
    ensures Publishable(t) <==> Publishable(s)
  {
    PublicationIsOrderly(s, io);
    assert Orderly(s, t);
    hide Acceptable, Finish;
  }

  // ---- From the decision to the next startup -------------------------------

  /** What finalization found of the session's raw tree when it decided about it. */
  datatype Root = SafeRoot | UnsafeRoot | NoRoot

  /** Whether the draft claims retention: it does even if the marker could not be written. */
  function Retains(decision: Option<Cause>, root: Root): bool {
    decision.Some? && root.SafeRoot?
  }

  /** The marker then found, given whether writing it succeeded. */
  function MarkerFound(decision: Option<Cause>, root: Root, written: bool, path: string): Marker {
    if !Retains(decision, root) || !written then Unmarked
    else
      match ParseMarker(Utf8.Encode(RawMarker.Marker(decision.value, path)), path)
      case Some(cause) => Marked(cause)
      case None => UnsafeMarker
  }

  function TreeFound(decision: Option<Cause>, root: Root, written: bool, path: string): Option<RawTree> {
    match root
    case SafeRoot => Some(RawTree(true, MarkerFound(decision, root, written, path), Other))
    case UnsafeRoot => Some(RawTree(false, Unmarked, Other))
    case NoRoot => None
  }

  /** The session as finalization leaves it, with the draft of its terminal prepared. */
  function Finalized(teardown: Teardown, bundle: Option<nat>, archive: Archive, phase: Phase, root: Root, written: bool,
                     id: string, inode: nat, others: bool): Slot {
    var decision := RetentionDecision(teardown, bundle.Some?, phase);
    var draft := RecordFile(inode, true, Some(Ending(Retains(decision, root), bundle)));
    Slot(TreeFound(decision, root, written, SessionRoot(STATE_DIR, id)),
         Some(ResultDir(true, true, None, Some(draft), archive, others, false)))
  }

  /**
   * When a finalized session can be published: with its tree in place, no bundle was accepted
   * without quiescence and any retention it claims was marked; with no tree, no archive is left
   * beside a terminal that accepted none; with an unsafe tree, never.
   */
  predicate CanBePublished(teardown: Teardown, bundle: Option<nat>, archive: Archive, phase: Phase, root: Root,
                           written: bool)
  {
    match root
    case SafeRoot =>
      && !(bundle.Some? && !teardown.quiescent)
      && (RetentionDecision(teardown, bundle.Some?, phase).Some? ==> written)
    case UnsafeRoot => false
    case NoRoot => bundle.None? ==> archive.NoArchive?
  }

  lemma FinalizedIsPublishableExactly(teardown: Teardown, bundle: Option<nat>, archive: Archive, phase: Phase, root: Root,
                                      written: bool, id: string, inode: nat, others: bool)
    requires SafeSessionId(id)
    requires bundle.Some? ==> archive == Archive(true, bundle.value) && bundle.value != 0
    ensures var s := Finalized(teardown, bundle, archive, phase, root, written, id, inode, others);
            Prepared(s) && (Publishable(s) <==> CanBePublished(teardown, bundle, archive, phase, root, written))
  {
    hide ParseMarker, Printable, RawMarker.Marker, Utf8.Encode, SafeSessionId, SessionRoot;
    var decision := RetentionDecision(teardown, bundle.Some?, phase);
    DecisionFitsExactly(teardown, bundle.Some?, phase);
    if decision.Some? {
      SessionRootsArePrintable(decision.value, id);
      MarkerReadBack(decision.value, SessionRoot(STATE_DIR, id));
    }
  }

  /**
   * Whatever fails, the next startup accepts a finalized session exactly if its terminal was
   * published, which with no failing call it is exactly when it can be.
   */
  lemma StartupAcceptsExactlyWhatWasPublished(teardown: Teardown, bundle: Option<nat>, archive: Archive, phase: Phase,
                                              root: Root, written: bool, id: string, inode: nat, others: bool, io: Io)
    requires SafeSessionId(id)
    requires bundle.Some? ==> archive == Archive(true, bundle.value) && bundle.value != 0
    ensures var s := Finalized(teardown, bundle, archive, phase, root, written, id, inode, others);
            && Prepared(s)
            && (forall t | t in [s] + Finish(s, io) :: Acceptable(t) <==> Published(t))
            && (AllSucceed(io) ==>
                  (Published(LastSlot(s, Finish(s, io)))
                   <==> CanBePublished(teardown, bundle, archive, phase, root, written)))
  {
    hide Finalized, Prepared, Acceptable, CanBePublished, SafeSessionId, Finish, Publishable;
    FinalizedIsPublishableExactly(teardown, bundle, archive, phase, root, written, id, inode, others);
    var s := Finalized(teardown, bundle, archive, phase, root, written, id, inode, others);
    PublicationIsOrderly(s, io);
    PublishesExactly(s, io);
    forall t | t in [s] + Finish(s, io) ensures Acceptable(t) <==> Published(t) {
      assert Orderly(s, t);
    }
  }
}
