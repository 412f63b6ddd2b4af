/** Publishing a bundle without overwriting anything (src/bundle.rs). */
module Bundle {
  import opened Snapshot
  import opened Wrappers

  /** What a name in the result directory stands for; `whole` and `synced` are about an archive of this call. */
  datatype Entry = Absent | Foreign | Ours(whole: bool, synced: bool)

  /** The two names a bundle uses; `synced` says that the directory holds them durably. */
  datatype Names = Names(archive: Entry, partial: Entry, synced: bool)

  /** Which steps succeed. `raced` says that somebody else's archive appears before the publication. */
  datatype Io = Io(required: bool, resultDirectory: bool, statArchive: bool, create: bool, utf8: bool, tar: bool,
                   nonempty: bool, syncPartial: bool, hash: bool, raced: bool, link: bool, removePartial: bool,
                   syncDirectory: bool, rollBackArchive: bool, rollBackPartial: bool)

  datatype Stats = Stats(uncompressedBytes: nat, fileCount: nat, artifactsFileCount: nat)

  datatype Failure = Failure(rollbackFailed: bool)

  predicate Snapshots(s: Session) {
    && s.Directories() && Readable(s.Tree())
    && Leaves(s.Tree()) < 0x1_0000_0000_0000_0000 && Bytes(s.Tree()) < 0x1_0000_0000_0000_0000
  }

  /** The call got as far as creating its partial file. */
  predicate Started(names: Names, first: Session, io: Io) {
    && io.required && Snapshots(first) && io.resultDirectory && io.statArchive && names.archive.Absent?
    && io.create && names.partial.Absent?
  }

  /** The second reading shows the same tree, and a whole, nonempty, synced and hashed partial file. */
  ghost predicate Readied(first: Session, second: Session, io: Io) {
    && io.tar && Snapshots(second) && SameTree(first.Tree(), second.Tree())
    && io.nonempty && io.syncPartial && io.hash
  }

  ghost predicate Linked(first: Session, second: Session, io: Io) {
    Readied(first, second, io) && !io.raced && io.link
  }

  ghost predicate Finished(first: Session, second: Session, io: Io) {
    Linked(first, second, io) && io.removePartial && io.syncDirectory
  }

  /** A name of this call's is left that could not be removed again. */
  ghost predicate Stuck(first: Session, second: Session, io: Io) {
    || (Linked(first, second, io) && !io.rollBackArchive)
    || (!(Linked(first, second, io) && io.removePartial) && !io.rollBackPartial)
  }

  lemma SameEntriesSameCounters(a: Session, b: Session)
    requires Proper(a.Tree()) && Proper(b.Tree()) && Snapshots(a) && Snapshots(b)
    requires Entries([], a.Tree()) == Entries([], b.Tree())
    ensures Leaves(a.Tree()) == Leaves(b.Tree()) && Bytes(a.Tree()) == Bytes(b.Tree())
    ensures Leaves(a.artifacts) == Leaves(b.artifacts)
  {
    hide Entries, Proper, Readable, Leaves, Bytes;
    EqualEntriesCountEqually(a, b);
  }

  /** No name of somebody else's is lost, and no archive of this call is visible before it is whole and synced. */
  predicate Careful(before: Names, now: Names) {
    && (before.archive.Foreign? ==> now.archive.Foreign?)
    && (before.partial.Foreign? ==> now.partial.Foreign?)
    && (now.archive.Ours? ==> now.archive.whole && now.archive.synced)
  }

  class ResultDirectory {
    var names: Names
    ghost var log: seq<Names>

    constructor (names: Names)
      requires !names.archive.Ours?
      ensures this.names == names && History()
    {
      this.names := names;
      this.log := [names];
    }

    /** `log` is every state so far, and each of them was careful about all before it. */
    ghost predicate History()
      reads this
    {
      && log != [] && log[|log| - 1] == names
      && forall i, j | 0 <= i <= j < |log| :: Careful(log[i], log[j])
    }

    method Become(next: Names)
      requires History() && Careful(names, next)
      modifies this
      ensures History() && names == next && log == old(log) + [next]
    {
      names := next;
      log := log + [next];
    }

    /** Archives the tree into the partial file and publishes it; `published` says that the link was made. */
    method ArchiveAndPublish(snapshot: TreeSnapshot, ghost first: Session, second: Session, io: Io)
      returns (published: bool, ok: bool)
      requires names.partial == Ours(false, false) && names.archive.Absent?
      requires Proper(first.Tree()) && Proper(second.Tree()) && Snapshots(first)
      requires snapshot.entries == Entries([], first.Tree()) && snapshot.fileCount == Leaves(first.Tree())
      requires snapshot.uncompressedBytes == Bytes(first.Tree()) && snapshot.artifactsFileCount == Leaves(first.artifacts)
      requires History()
      modifies this
      ensures History() && old(log) <= log
      ensures published <==> names.archive.Ours?
      ensures published <==> Linked(first, second, io)
      ensures ok <==> Finished(first, second, io)
      ensures ok ==> names == Names(Ours(true, true), Absent, true)
      ensures names.partial.Absent? <==> Linked(first, second, io) && io.removePartial
      ensures names.partial.Ours? || names.partial.Absent?
    {
      hide Entries, SameTree, Proper, Readable, Leaves, Bytes, Fits;
      published, ok := false, false;
      if !io.tar {
        return;
      }
      Become(names.(partial := Ours(true, false)));
      var after, read := SnapshotSelected(second);
      if !read {
        return;
      }
      ListingsTellTrees([], first.Tree(), second.Tree());
      if snapshot.entries == after.entries {
        SameEntriesSameCounters(first, second);
      }
      if snapshot.entries != after.entries || snapshot.uncompressedBytes != after.uncompressedBytes
         || snapshot.fileCount != after.fileCount || snapshot.artifactsFileCount != after.artifactsFileCount {
        return;
      }
      if !io.nonempty || !io.syncPartial {
        return;
      }
      Become(names.(partial := Ours(true, true)));
      if !io.hash {
        return;
      }
      if io.raced && names.archive.Absent? {
        Become(names.(archive := Foreign));
      }
      if !io.link || !names.archive.Absent? {
        return;
      }
      Become(names.(archive := names.partial, synced := false));
      published := true;
      if !io.removePartial {
        return;
      }
      Become(names.(partial := Absent, synced := false));
      if !io.syncDirectory {
        return;
      }
      Become(names.(synced := true));
      ok := true;
    }

    /** Removes what this call left; a missing partial file is no failure. */
    method RollBack(published: bool, io: Io) returns (clean: bool)
      requires published <==> names.archive.Ours?
      requires names.partial.Ours? || names.partial.Absent?
      requires History()
      modifies this
      ensures History() && old(log) <= log
      ensures clean ==> !names.archive.Ours? && names.partial.Absent?
      ensures !clean <==> (published && !io.rollBackArchive) || (old(names.partial).Ours? && !io.rollBackPartial)
      ensures old(names.archive).Foreign? ==> names.archive.Foreign?
    {
      clean := true;
      if published {
        if io.rollBackArchive {
          Become(names.(archive := Absent, synced := false));
        } else {
          clean := false;
        }
      }
      if names.partial.Ours? {
        if io.rollBackPartial {
          Become(names.(partial := Absent, synced := false));
        } else {
          clean := false;
        }
      }
    }

    /**
     * Bundles `first`, which must read the same again as `second` after it was archived. A failure
     * whose rollback was clean leaves neither name of this call's, unless the session's path is
     * not UTF-8: that is noticed only after the partial file was created, and leaves it behind.
     */
    method CreateBundle(first: Session, second: Session, io: Io) returns (r: Result<Stats, Failure>)
      requires History() && !names.archive.Ours? && !names.partial.Ours?
      requires Proper(first.Tree()) && Proper(second.Tree())
      modifies this
      ensures History() && old(log) <= log
      ensures r.Ok? <==> Started(old(names), first, io) && io.utf8 && Finished(first, second, io)
      ensures r.Err? ==>
                (r.error.rollbackFailed <==> Started(old(names), first, io) && io.utf8 && Stuck(first, second, io))
      ensures r.Ok? ==>
                && names == Names(Ours(true, true), Absent, true)
                && r.value == Stats(Bytes(first.Tree()), Leaves(first.Tree()), Leaves(first.artifacts))
      ensures r.Err? && !r.error.rollbackFailed ==> !names.archive.Ours?
      ensures r.Err? && !r.error.rollbackFailed ==>
                (names.partial.Ours? <==> Started(old(names), first, io) && !io.utf8)
      ensures r.Err? && old(names.partial).Foreign? ==> names == old(names)
      ensures r.Err? && old(names.archive).Foreign? ==> names == old(names)
    {
      hide Entries, SameTree, Proper, Readable, Leaves, Bytes, Fits;
      if !io.required {
        return Err(Failure(false));
      }
      var before, read := SnapshotSelected(first);
      if !read || !io.resultDirectory || !io.statArchive || !names.archive.Absent? {
        return Err(Failure(false));
      }
      if !io.create || !names.partial.Absent? {
        return Err(Failure(false));
      }
      Become(names.(partial := Ours(false, false), synced := false));
      if !io.utf8 {
        return Err(Failure(false));
      }
      var published, ok := ArchiveAndPublish(before, first, second, io);
      if !ok {
        var clean := RollBack(published, io);
        return Err(Failure(!clean));
      }
      return Ok(Stats(before.uncompressedBytes, before.fileCount, before.artifactsFileCount));
    }
  }
}
