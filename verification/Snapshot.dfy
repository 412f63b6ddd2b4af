/** Accounting for the tree a bundle is made from (src/bundle.rs). */
module Snapshot {
  import opened Wrappers

  const U64_MAX: nat := 0xFFFF_FFFF_FFFF_FFFF

  type Path = seq<string>

  datatype Kind = DirectoryKind | FileKind | LinkKind

  /** `rest` stands for the remaining metadata of an entry: device, inode, mode, owner, links and times. */
  datatype Fingerprint = Fingerprint(kind: Kind, size: nat, rest: nat, target: Option<string>)

  /** A tree as it is read, each directory's children in sorted order. */
  datatype Node =
    | File(size: nat, rest: nat)
    | Link(size: nat, rest: nat, target: string)
    | Directory(size: nat, rest: nat, children: seq<Child>)
    | Special
    | Unreadable

  datatype Child = Child(name: string, node: Node)

  predicate Proper(node: Node) {
    node.Directory? ==> ProperAll(node.children)
  }

  /** A directory lists each name once. */
  predicate ProperAll(children: seq<Child>) {
    && (forall i, j | 0 <= i < j < |children| :: children[i].name != children[j].name)
    && (forall i | 0 <= i < |children| :: Proper(children[i].node))
  }

  predicate Readable(node: Node) {
    match node
    case Directory(_, _, children) => forall i | 0 <= i < |children| :: Readable(children[i].node)
    case Special => false
    case Unreadable => false
    case _ => true
  }

  /** The entries an archive lists besides directories, and their bytes. */
  function Leaves(node: Node): nat {
    match node
    case Directory(_, _, children) => LeavesAll(children)
    case File(_, _) => 1
    case Link(_, _, _) => 1
    case _ => 0
  }

  function LeavesAll(children: seq<Child>): nat {
    if children == [] then 0
    else LeavesAll(children[..|children| - 1]) + Leaves(children[|children| - 1].node)
  }

  function Bytes(node: Node): nat {
    match node
    case Directory(_, _, children) => BytesAll(children)
    case File(size, _) => size
    case Link(size, _, _) => size
    case _ => 0
  }

  function BytesAll(children: seq<Child>): nat {
    if children == [] then 0
    else BytesAll(children[..|children| - 1]) + Bytes(children[|children| - 1].node)
  }

  function Print(node: Node): Fingerprint {
    match node
    case File(size, rest) => Fingerprint(FileKind, size, rest, None)
    case Link(size, rest, target) => Fingerprint(LinkKind, size, rest, Some(target))
    case Directory(size, rest, _) => Fingerprint(DirectoryKind, size, rest, None)
    case _ => Fingerprint(FileKind, 0, 0, None)
  }

  /** Every entry of a tree at `path`, by its path. */
  function Entries(path: Path, node: Node): map<Path, Fingerprint>
    decreases node
  {
    if node.Directory? then EntriesAll(path, node.children)[path := Print(node)] else map[path := Print(node)]
  }

  function EntriesAll(path: Path, children: seq<Child>): map<Path, Fingerprint>
    decreases children
  {
    if children == [] then map[]
    else
      var last := children[|children| - 1];
      EntriesAll(path, children[..|children| - 1]) + Entries(path + [last.name], last.node)
  }

  // ---- Paths ---------------------------------------------------------------

  lemma {:induction false} EntriesAreBelow(path: Path, node: Node)
    ensures forall p | p in Entries(path, node) :: path <= p
    decreases node, 1
  {
    if node.Directory? {
      EntriesAllAreBelow(path, node.children);
    }
  }

  lemma {:induction false} EntriesAllAreBelow(path: Path, children: seq<Child>)
    ensures forall p | p in EntriesAll(path, children) ::
              exists i | 0 <= i < |children| :: path + [children[i].name] <= p
    decreases children, 0
  {
    if children != [] {
      var init, last := children[..|children| - 1], children[|children| - 1];
      EntriesAllAreBelow(path, init);
      EntriesAreBelow(path + [last.name], last.node);
      forall p | p in EntriesAll(path, children)
        ensures exists i | 0 <= i < |children| :: path + [children[i].name] <= p
      {
        if p in Entries(path + [last.name], last.node) {
          assert path + [children[|children| - 1].name] <= p;
        } else {
          assert p in EntriesAll(path, init);
          var i :| 0 <= i < |init| && path + [init[i].name] <= p;
          assert path + [children[i].name] <= p;
        }
      }
    }
  }

  lemma SiblingsAreApart(path: Path, a: string, b: string, p: Path)
    requires a != b && path + [a] <= p
    ensures !(path + [b] <= p)
  {
    assert (path + [a])[|path|] != (path + [b])[|path|];
    assert p[..|path| + 1] == path + [a];
  }

  /** Nothing recorded for the first `k` children lies at or below the next one, or is the directory. */
  lemma NextChildIsNew(path: Path, children: seq<Child>, k: nat)
    requires ProperAll(children) && k < |children|
    ensures forall p | p in EntriesAll(path, children[..k]) :: !(path + [children[k].name] <= p) && p != path
  {
    EntriesAllAreBelow(path, children[..k]);
    forall p | p in EntriesAll(path, children[..k]) ensures !(path + [children[k].name] <= p) && p != path {
      var i :| 0 <= i < k && path + [children[..k][i].name] <= p;
      SiblingsAreApart(path, children[i].name, children[k].name, p);
    }
  }

  // ---- The walk ------------------------------------------------------------

  class TreeSnapshot {
    var uncompressedBytes: nat
    var fileCount: nat
    var artifactsFileCount: nat
    var entries: map<Path, Fingerprint>

    constructor ()
      ensures uncompressedBytes == 0 && fileCount == 0 && artifactsFileCount == 0 && entries == map[]
    {
      uncompressedBytes, fileCount, artifactsFileCount, entries := 0, 0, 0, map[];
    }

    /** Counts one entry; on overflow of either counter neither of them changes. */
    method AddArchiveEntryStats(entryBytes: nat) returns (ok: bool)
      modifies this`fileCount, this`uncompressedBytes
      ensures ok <==> old(fileCount) + 1 <= U64_MAX && old(uncompressedBytes) + entryBytes <= U64_MAX
      ensures ok ==> fileCount == old(fileCount) + 1 && uncompressedBytes == old(uncompressedBytes) + entryBytes
      ensures !ok ==> fileCount == old(fileCount) && uncompressedBytes == old(uncompressedBytes)
    {
      if fileCount + 1 > U64_MAX {
        return false;
      }
      var count := fileCount + 1;
      if uncompressedBytes + entryBytes > U64_MAX {
        return false;
      }
      fileCount := count;
      uncompressedBytes := uncompressedBytes + entryBytes;
      return true;
    }

    method RecordMetadata(path: Path, fingerprint: Fingerprint) returns (ok: bool)
      modifies this`entries
      ensures ok <==> path !in old(entries)
      ensures entries == old(entries)[path := fingerprint]
    {
      ok := path !in entries;
      entries := entries[path := fingerprint];
    }

    /** Accounts for everything at and below `path`, which must be a directory. */
    method Walk(path: Path, node: Node) returns (ok: bool)
      requires Proper(node) && fileCount <= U64_MAX && uncompressedBytes <= U64_MAX
      requires forall p | p in entries :: !(path <= p)
      modifies this`fileCount, this`uncompressedBytes, this`entries
      ensures fileCount <= U64_MAX && uncompressedBytes <= U64_MAX
      ensures ok <==> node.Directory? && Fits(old(fileCount), old(uncompressedBytes), node)
      ensures ok ==> Accounted(old(fileCount), old(uncompressedBytes), old(entries), fileCount, uncompressedBytes, entries,
                               path, node)
      decreases node, 0
    {
      hide Proper, Readable, Leaves, Bytes, Entries, LeavesAll, BytesAll, EntriesAll;
      if !node.Directory? {
        return false;
      }
      var children := node.children;
      DirectoryFacts(path, node);
      assert path !in entries;
      ok := RecordMetadata(path, Print(node));
      ghost var above := entries;
      for i := 0 to |children|
        invariant fileCount == old(fileCount) + LeavesAll(children[..i]) <= U64_MAX
        invariant uncompressedBytes == old(uncompressedBytes) + BytesAll(children[..i]) <= U64_MAX
        invariant entries == above + EntriesAll(path, children[..i])
        invariant forall j | 0 <= j < i :: Readable(children[j].node)
      {
        ChildFacts(path, children, i);
        UnionAssociates(above, EntriesAll(path, children[..i]), Entries(path + [children[i].name], children[i].node));
        assert forall p | p in above :: !(path + [children[i].name] <= p);
        var walked := WalkChild(path + [children[i].name], children[i].node);
        if !walked {
          TotalsGrow(children, i + 1);
          return false;
        }
      }
      assert children[..|children|] == children;
      ok := true;
    }

    /** Accounts for one child of a directory: a link or a file as it is, a directory by walking it. */
    method WalkChild(path: Path, node: Node) returns (ok: bool)
      requires Proper(node) && fileCount <= U64_MAX && uncompressedBytes <= U64_MAX
      requires forall p | p in entries :: !(path <= p)
      modifies this`fileCount, this`uncompressedBytes, this`entries
      ensures fileCount <= U64_MAX && uncompressedBytes <= U64_MAX
      ensures ok <==> Fits(old(fileCount), old(uncompressedBytes), node)
      ensures ok ==> Accounted(old(fileCount), old(uncompressedBytes), old(entries), fileCount, uncompressedBytes, entries,
                               path, node)
      decreases node, 1
    {
      if node.Special? || node.Unreadable? {
        return false;
      }
      if node.Directory? {
        ok := Walk(path, node);
        return;
      }
      assert path !in entries;
      ok := RecordMetadata(path, Print(node));
      ok := AddArchiveEntryStats(node.size);
    }
  }

  /** The tree can be read, and counting it overflows neither counter. */
  predicate Fits(files: nat, bytes: nat, node: Node) {
    Readable(node) && files + Leaves(node) <= U64_MAX && bytes + Bytes(node) <= U64_MAX
  }

  predicate Accounted(files: nat, bytes: nat, entries: map<Path, Fingerprint>, filesAfter: nat, bytesAfter: nat,
                      entriesAfter: map<Path, Fingerprint>, path: Path, node: Node)
  {
    && filesAfter == files + Leaves(node) && bytesAfter == bytes + Bytes(node)
    && entriesAfter == entries + Entries(path, node)
  }

  lemma UnionAssociates(a: map<Path, Fingerprint>, b: map<Path, Fingerprint>, c: map<Path, Fingerprint>)
    ensures (a + b) + c == a + (b + c)
  {
  }

  lemma DirectoryFacts(path: Path, node: Node)
    requires node.Directory? && Proper(node)
    ensures ProperAll(node.children)
    ensures Readable(node) <==> forall i | 0 <= i < |node.children| :: Readable(node.children[i].node)
    ensures Leaves(node) == LeavesAll(node.children) && Bytes(node) == BytesAll(node.children)
    ensures Entries(path, node) == EntriesAll(path, node.children)[path := Print(node)]
    ensures path !in EntriesAll(path, node.children)
    ensures LeavesAll(node.children[..0]) == 0 && BytesAll(node.children[..0]) == 0
    ensures EntriesAll(path, node.children[..0]) == map[]
  {
    EntriesAllAreBelow(path, node.children);
  }

  lemma ChildFacts(path: Path, children: seq<Child>, i: nat)
    requires ProperAll(children) && i < |children|
    ensures Proper(children[i].node)
    ensures LeavesAll(children[..i + 1]) == LeavesAll(children[..i]) + Leaves(children[i].node)
    ensures BytesAll(children[..i + 1]) == BytesAll(children[..i]) + Bytes(children[i].node)
    ensures EntriesAll(path, children[..i + 1])
            == EntriesAll(path, children[..i]) + Entries(path + [children[i].name], children[i].node)
    ensures forall p | p in EntriesAll(path, children[..i]) :: !(path + [children[i].name] <= p)
  {
    assert children[..i + 1][..i] == children[..i];
    NextChildIsNew(path, children, i);
  }

  lemma {:induction false} TotalsGrow(children: seq<Child>, i: nat)
    requires i <= |children|
    ensures LeavesAll(children[..i]) <= LeavesAll(children) && BytesAll(children[..i]) <= BytesAll(children)
    decreases |children|
  {
    if i < |children| {
      var init := children[..|children| - 1];
      assert init[..i] == children[..i];
      TotalsGrow(init, i);
    } else {
      assert children[..i] == children;
    }
  }

  // ---- Counters follow from entries ----------------------------------------

  type Listing = map<Path, Fingerprint>

  function LeafPaths(entries: Listing): set<Path> {
    set p | p in entries && !entries[p].kind.DirectoryKind?
  }

  function Weight(f: Fingerprint): nat {
    if f.kind.DirectoryKind? then 0 else f.size
  }

  ghost function LeafBytes(entries: Listing): nat {
    if entries == map[] then 0
    else
      var p :| p in entries;
      Weight(entries[p]) + LeafBytes(entries - {p})
  }

  lemma {:induction false} LeafBytesWithout(entries: Listing, p: Path)
    requires p in entries
    ensures LeafBytes(entries) == Weight(entries[p]) + LeafBytes(entries - {p})
    decreases |entries|
  {
    var q :| q in entries && LeafBytes(entries) == Weight(entries[q]) + LeafBytes(entries - {q});
    if p != q {
      LeafBytesWithout(entries - {q}, p);
      LeafBytesWithout(entries - {p}, q);
      assert entries - {q} - {p} == entries - {p} - {q};
    }
  }

  lemma NoBytes()
    ensures LeafBytes(map[]) == 0
  {
  }

  lemma MinusOfUnion(a: Listing, b: Listing, p: Path)
    requires a.Keys !! b.Keys && p in b
    ensures (a + b) - {p} == a + (b - {p}) && (a + b)[p] == b[p]
  {
  }

  lemma {:induction false} LeafBytesOfUnion(a: Listing, b: Listing)
    requires a.Keys !! b.Keys
    ensures LeafBytes(a + b) == LeafBytes(a) + LeafBytes(b)
    decreases |b|
  {
    hide LeafBytes, Weight;
    if b == map[] {
      NoBytes();
      assert a + b == a;
    } else {
      var p :| p in b;
      MinusOfUnion(a, b, p);
      LeafBytesWithout(a + b, p);
      LeafBytesWithout(b, p);
      LeafBytesOfUnion(a, b - {p});
    }
  }

  lemma LeafPathsOfUnion(a: Listing, b: Listing)
    requires a.Keys !! b.Keys
    ensures |LeafPaths(a + b)| == |LeafPaths(a)| + |LeafPaths(b)|
  {
    assert LeafPaths(a + b) == LeafPaths(a) + LeafPaths(b);
    assert LeafPaths(a) !! LeafPaths(b);
  }

  lemma SingleEntry(p: Path, f: Fingerprint)
    ensures |LeafPaths(map[p := f])| == (if f.kind.DirectoryKind? then 0 else 1)
    ensures LeafBytes(map[p := f]) == Weight(f)
  {
    var m: Listing := map[p := f];
    assert LeafPaths(m) == if f.kind.DirectoryKind? then {} else {p};
    LeafBytesWithout(m, p);
    assert m - {p} == map[];
  }

  /** The entries of a tree hold exactly its leaves and their bytes. */
  lemma {:induction false} EntriesCount(path: Path, node: Node)
    requires Proper(node) && Readable(node)
    ensures |LeafPaths(Entries(path, node))| == Leaves(node) && LeafBytes(Entries(path, node)) == Bytes(node)
    decreases node, 1
  {
    SingleEntry(path, Print(node));
    if node.Directory? {
      var below := EntriesAll(path, node.children);
      DirectoryFacts(path, node);
      EntriesAllCount(path, node.children);
      assert Entries(path, node) == below + map[path := Print(node)];
      LeafPathsOfUnion(below, map[path := Print(node)]);
      LeafBytesOfUnion(below, map[path := Print(node)]);
    }
  }

  lemma {:induction false} EntriesAllCount(path: Path, children: seq<Child>)
    requires ProperAll(children) && forall i | 0 <= i < |children| :: Readable(children[i].node)
    ensures |LeafPaths(EntriesAll(path, children))| == LeavesAll(children)
    ensures LeafBytes(EntriesAll(path, children)) == BytesAll(children)
    decreases children, 0
  {
    hide LeafPaths;
    if children == [] {
      assert LeafPaths(map[]) == {} by { NoLeaves(); }
    } else {
      var k := |children| - 1;
      var init, last := children[..k], children[k];
      var below := Entries(path + [last.name], last.node);
      EntriesAllCount(path, init);
      EntriesCount(path + [last.name], last.node);
      NextChildIsNew(path, children, k);
      EntriesAreBelow(path + [last.name], last.node);
      LeafPathsOfUnion(EntriesAll(path, init), below);
      LeafBytesOfUnion(EntriesAll(path, init), below);
    }
  }

  lemma NoLeaves()
    ensures LeafPaths(map[]) == {}
  {
  }

  // ---- The selected tree ---------------------------------------------------

  /** What is bundled of a session: four directories below its own. */
  datatype Session = Session(size: nat, rest: nat, staged: Node, artifacts: Node, control: Node, output: Node) {
    function Tree(): Node {
      Directory(size, rest, [Child("staged", staged), Child("artifacts", artifacts), Child("control", control),
                             Child("output", output)])
    }

    predicate Directories() {
      staged.Directory? && artifacts.Directory? && control.Directory? && output.Directory?
    }
  }

  lemma TreeParts(s: Session)
    ensures s.Tree().Directory? && |s.Tree().children| == 4
    ensures var c := s.Tree().children;
            && c[0].node == s.staged && c[1].node == s.artifacts && c[2].node == s.control && c[3].node == s.output
            && forall i | 0 <= i < 4 :: c[i].name == "artifacts" <==> i == 1
  {
  }

  method SnapshotSelected(s: Session) returns (snapshot: TreeSnapshot, ok: bool)
    requires Proper(s.Tree())
    ensures fresh(snapshot)
    ensures ok <==>
            && s.Directories() && Readable(s.Tree())
            && Leaves(s.Tree()) < 0x1_0000_0000_0000_0000 && Bytes(s.Tree()) < 0x1_0000_0000_0000_0000
    ensures ok ==>
              && snapshot.fileCount == Leaves(s.Tree()) && snapshot.uncompressedBytes == Bytes(s.Tree())
              && snapshot.entries == Entries([], s.Tree()) && snapshot.artifactsFileCount == Leaves(s.artifacts)
  {
    hide Proper, ProperAll, Readable, Leaves, Bytes, Entries, LeavesAll, BytesAll, EntriesAll, Session.Tree;
    TreeParts(s);
    snapshot := new TreeSnapshot();
    var tree := s.Tree();
    var selected := tree.children;
    DirectoryFacts([], tree);
    ok := snapshot.RecordMetadata([], Print(tree));
    ghost var above := snapshot.entries;
    for i := 0 to |selected|
      invariant snapshot.fileCount == LeavesAll(selected[..i]) <= U64_MAX
      invariant snapshot.uncompressedBytes == BytesAll(selected[..i]) <= U64_MAX
      invariant snapshot.entries == above + EntriesAll([], selected[..i])
      invariant snapshot.artifactsFileCount == if i > 1 then Leaves(s.artifacts) else 0
      invariant forall j | 0 <= j < i :: Readable(selected[j].node) && selected[j].node.Directory?
    {
      ChildFacts([], selected, i);
      assert [] + [selected[i].name] == [selected[i].name];
      UnionAssociates(above, EntriesAll([], selected[..i]), Entries([selected[i].name], selected[i].node));
      var before := snapshot.fileCount;
      var walked := snapshot.Walk([selected[i].name], selected[i].node);
      if !walked {
        TotalsGrow(selected, i + 1);
        return snapshot, false;
      }
      if selected[i].name == "artifacts" {
        snapshot.artifactsFileCount := snapshot.fileCount - before;
      }
    }
    assert selected[..|selected|] == selected;
    ok := true;
  }

  /** Sessions listed alike are counted alike, so that no change can show in the counters alone. */
  lemma EqualEntriesCountEqually(a: Session, b: Session)
    requires Proper(a.Tree()) && Readable(a.Tree()) && Proper(b.Tree()) && Readable(b.Tree())
    requires Entries([], a.Tree()) == Entries([], b.Tree())
    ensures Leaves(a.Tree()) == Leaves(b.Tree()) && Bytes(a.Tree()) == Bytes(b.Tree())
    ensures Leaves(a.artifacts) == Leaves(b.artifacts)
  {
    hide Leaves, Bytes, Entries, EntriesAll, Session.Tree, LeafPaths, Readable, Proper;
    EntriesCount([], a.Tree());
    EntriesCount([], b.Tree());
    ArtifactsAreThoseBelow(a);
    ArtifactsAreThoseBelow(b);
  }

  function Below(entries: Listing, top: Path): Listing {
    map p | p in entries && top <= p :: entries[p]
  }

  lemma ArtifactsAreThoseBelow(s: Session)
    requires Proper(s.Tree()) && Readable(s.Tree())
    ensures |LeafPaths(Below(Entries([], s.Tree()), ["artifacts"]))| == Leaves(s.artifacts)
  {
    hide Leaves, Bytes, Entries, EntriesAll, LeavesAll, BytesAll, Session.Tree, LeafPaths, Readable, Proper;
    TreeParts(s);
    var tree := s.Tree();
    DirectoryFacts([], tree);
    BelowChild([], tree.children, 1, Print(tree));
    assert [] + [tree.children[1].name] == ["artifacts"];
    ChildFacts([], tree.children, 1);
    EntriesCount(["artifacts"], s.artifacts);
  }

  // ---- What a listing tells ------------------------------------------------

  /** Of everything in a directory, what lies at or below one child is that child's own. */
  lemma BelowChild(path: Path, children: seq<Child>, k: nat, top: Fingerprint)
    requires ProperAll(children) && k < |children|
    ensures Below(EntriesAll(path, children)[path := top], path + [children[k].name])
            == Entries(path + [children[k].name], children[k].node)
  {
    hide ProperAll, Entries;
    assert children[..|children|] == children;
    OthersStayApart(path, children, k, |children|);
  }

  lemma {:induction false} OthersStayApart(path: Path, children: seq<Child>, k: nat, n: nat)
    requires ProperAll(children) && k < n <= |children|
    ensures Below(EntriesAll(path, children[..n]), path + [children[k].name])
            == Entries(path + [children[k].name], children[k].node)
    decreases n
  {
    hide Entries;
    var child := path + [children[k].name];
    var m := n - 1;
    var next := path + [children[m].name];
    ChildFacts(path, children, m);
    EntriesAreBelow(next, children[m].node);
    var before, last := EntriesAll(path, children[..m]), Entries(next, children[m].node);
    if m == k {
      assert Below(before + last, child) == last;
    } else {
      OthersStayApart(path, children, k, m);
      forall p | p in last ensures !(child <= p) {
        SiblingsAreApart(path, children[m].name, children[k].name, p);
      }
      assert Below(before + last, child) == Below(before, child);
    }
  }

  /** The same files, links and directories under the same names, in whatever order they are listed. */
  ghost predicate SameTree(a: Node, b: Node) {
    match (a, b)
    case (File(size, rest), File(_, _)) => size == b.size && rest == b.rest
    case (Link(size, rest, target), Link(_, _, _)) => size == b.size && rest == b.rest && target == b.target
    case (Directory(size, rest, children), Directory(_, _, _)) =>
      && size == b.size && rest == b.rest
      && (forall i | 0 <= i < |children| :: HasTwin(children[i], b.children))
      && (forall j | 0 <= j < |b.children| :: HasName(b.children[j].name, children))
    case _ => false
  }

  ghost predicate HasTwin(child: Child, others: seq<Child>) {
    exists j :: 0 <= j < |others| && others[j].name == child.name && SameTree(child.node, others[j].node)
  }

  predicate HasName(name: string, children: seq<Child>) {
    exists i :: 0 <= i < |children| && children[i].name == name
  }

  /** Each path of a directory's listing is its own or one of a child's, with that child's entry. */
  lemma ListedBelowAChild(path: Path, node: Node, p: Path) returns (i: nat)
    requires Proper(node) && node.Directory? && p in Entries(path, node) && p != path
    ensures i < |node.children|
    ensures var child := path + [node.children[i].name];
            && p in Entries(child, node.children[i].node)
            && Entries(child, node.children[i].node)[p] == Entries(path, node)[p]
  {
    hide Proper, ProperAll, Entries;
    DirectoryFacts(path, node);
    EntriesAllAreBelow(path, node.children);
    var k :| 0 <= k < |node.children| && path + [node.children[k].name] <= p;
    i := k;
    BelowChild(path, node.children, i, Print(node));
    assert p in Below(Entries(path, node), path + [node.children[i].name]);
  }

  lemma ChildIsListed(path: Path, node: Node, i: nat)
    requires Proper(node) && node.Directory? && i < |node.children|
    ensures var child := path + [node.children[i].name];
            && child in Entries(path, node)
            && Below(Entries(path, node), child) == Entries(child, node.children[i].node)
  {
    hide Proper, ProperAll;
    DirectoryFacts(path, node);
    BelowChild(path, node.children, i, Print(node));
    var child := path + [node.children[i].name];
    assert child in Entries(child, node.children[i].node);
    assert child in Below(Entries(path, node), child);
  }

  lemma TopIsListed(path: Path, node: Node)
    ensures path in Entries(path, node) && Entries(path, node)[path] == Print(node)
  {
  }

  lemma ChildIsProper(node: Node, i: nat)
    requires Proper(node) && Readable(node) && node.Directory? && i < |node.children|
    ensures Proper(node.children[i].node) && Readable(node.children[i].node)
  {
  }

  /** The premise of the induction: children of one name are listed alike exactly when they are the same. */
  ghost predicate ChildrenTell(path: Path, a: Node, b: Node)
    requires a.Directory? && b.Directory?
  {
    forall i, j | 0 <= i < |a.children| && 0 <= j < |b.children| && a.children[i].name == b.children[j].name ::
      Entries(path + [a.children[i].name], a.children[i].node) == Entries(path + [b.children[j].name], b.children[j].node)
      <==> SameTree(a.children[i].node, b.children[j].node)
  }

  /** A child of one of two directories that are listed alike is listed alike in the other. */
  lemma ChildOfBoth(path: Path, a: Node, b: Node, i: nat) returns (j: nat)
    requires Proper(a) && Proper(b) && a.Directory? && b.Directory? && i < |a.children|
    requires Entries(path, a) == Entries(path, b)
    ensures j < |b.children| && b.children[j].name == a.children[i].name
    ensures Entries(path + [a.children[i].name], a.children[i].node)
            == Entries(path + [b.children[j].name], b.children[j].node)
  {
    hide Proper, Entries;
    var child := path + [a.children[i].name];
    ChildIsListed(path, a, i);
    j := ListedBelowAChild(path, b, child);
    EntriesAreBelow(path + [b.children[j].name], b.children[j].node);
    assert child[|path|] == (path + [b.children[j].name])[|path|];
    ChildIsListed(path, b, j);
  }

  lemma SameListingSameTree(path: Path, a: Node, b: Node)
    requires Proper(a) && Proper(b) && a.Directory? && b.Directory? && Print(a) == Print(b)
    requires ChildrenTell(path, a, b) && Entries(path, a) == Entries(path, b)
    ensures SameTree(a, b)
  {
    hide Proper, Entries, ChildrenTell;
    forall i | 0 <= i < |a.children| ensures HasTwin(a.children[i], b.children) {
      var j := ChildOfBoth(path, a, b, i);
      ChildTells(path, a, b, i, j);
    }
    forall j | 0 <= j < |b.children| ensures HasName(b.children[j].name, a.children) {
      var i := ChildOfBoth(path, b, a, j);
    }
    hide HasTwin, HasName;
  }

  lemma ChildTells(path: Path, a: Node, b: Node, i: nat, j: nat)
    requires a.Directory? && b.Directory? && ChildrenTell(path, a, b)
    requires i < |a.children| && j < |b.children| && a.children[i].name == b.children[j].name
    ensures Entries(path + [a.children[i].name], a.children[i].node)
            == Entries(path + [b.children[j].name], b.children[j].node)
            <==> SameTree(a.children[i].node, b.children[j].node)
  {
    hide Entries, SameTree;
  }

  /** Same directories have the same children at and below each name. */
  lemma TwinOf(path: Path, a: Node, b: Node, i: nat) returns (j: nat)
    requires a.Directory? && b.Directory? && i < |a.children| && ChildrenTell(path, a, b) && SameTree(a, b)
    ensures j < |b.children| && b.children[j].name == a.children[i].name
    ensures Entries(path + [a.children[i].name], a.children[i].node)
            == Entries(path + [b.children[j].name], b.children[j].node)
  {
    hide Entries, ChildrenTell;
    assert HasTwin(a.children[i], b.children);
    var k :| 0 <= k < |b.children| && b.children[k].name == a.children[i].name
             && SameTree(a.children[i].node, b.children[k].node);
    j := k;
    ChildTells(path, a, b, i, j);
  }

  lemma NamesakeOf(a: Node, b: Node, j: nat) returns (i: nat)
    requires a.Directory? && b.Directory? && j < |b.children| && SameTree(a, b)
    ensures i < |a.children| && a.children[i].name == b.children[j].name
  {
    assert HasName(b.children[j].name, a.children);
    var k :| 0 <= k < |a.children| && a.children[k].name == b.children[j].name;
    i := k;
  }

  lemma OneOfAName(node: Node, j: nat, k: nat)
    requires Proper(node) && node.Directory? && j < |node.children| && k < |node.children|
    requires node.children[j].name == node.children[k].name
    ensures j == k
  {
  }

  lemma SameTreeSameListing(path: Path, a: Node, b: Node)
    requires Proper(a) && Proper(b) && a.Directory? && b.Directory?
    requires ChildrenTell(path, a, b) && SameTree(a, b)
    ensures Entries(path, a) == Entries(path, b)
  {
    hide Proper, Entries, ChildrenTell, HasTwin, HasName;
    TopIsListed(path, a);
    TopIsListed(path, b);
    forall p | p in Entries(path, a) ensures p in Entries(path, b) && Entries(path, b)[p] == Entries(path, a)[p] {
      if p != path {
        var i := ListedBelowAChild(path, a, p);
        var j := TwinOf(path, a, b, i);
        ListedInChild(path, b, j, p);
      }
    }
    forall p | p in Entries(path, b) ensures p in Entries(path, a) {
      if p != path {
        var j := ListedBelowAChild(path, b, p);
        var i := NamesakeOf(a, b, j);
        var k := TwinOf(path, a, b, i);
        OneOfAName(b, j, k);
        ListedInChild(path, a, i, p);
      }
    }
  }

  lemma ListedInChild(path: Path, node: Node, i: nat, p: Path)
    requires Proper(node) && node.Directory? && i < |node.children|
    requires p in Entries(path + [node.children[i].name], node.children[i].node)
    ensures p in Entries(path, node)
    ensures Entries(path, node)[p] == Entries(path + [node.children[i].name], node.children[i].node)[p]
  {
    hide Proper, Entries;
    ChildIsListed(path, node, i);
  }

  /** Unless both are directories, two entries are the same exactly when their fingerprints are. */
  lemma PrintsTell(a: Node, b: Node)
    requires Readable(a) && Readable(b)
    ensures SameTree(a, b) ==> Print(a) == Print(b)
    ensures !(a.Directory? && b.Directory?) && Print(a) == Print(b) ==> SameTree(a, b) && !a.Directory? && !b.Directory?
  {
  }

  /** Two trees are listed alike exactly when they are the same up to the order of their children. */
  lemma {:induction false} ListingsTellTrees(path: Path, a: Node, b: Node)
    requires Proper(a) && Readable(a) && Proper(b) && Readable(b)
    ensures Entries(path, a) == Entries(path, b) <==> SameTree(a, b)
    decreases a
  {
    hide Proper, Readable, EntriesAll;
    TopIsListed(path, a);
    TopIsListed(path, b);
    if a.Directory? && b.Directory? && Print(a) == Print(b) {
      forall i, j | 0 <= i < |a.children| && 0 <= j < |b.children| && a.children[i].name == b.children[j].name
        ensures Entries(path + [a.children[i].name], a.children[i].node)
                == Entries(path + [b.children[j].name], b.children[j].node)
                <==> SameTree(a.children[i].node, b.children[j].node)
      {
        ChildIsProper(a, i);
        ChildIsProper(b, j);
        ListingsTellTrees(path + [a.children[i].name], a.children[i].node, b.children[j].node);
      }
      if Entries(path, a) == Entries(path, b) {
        SameListingSameTree(path, a, b);
      }
      if SameTree(a, b) {
        SameTreeSameListing(path, a, b);
      }
    } else {
      assert Entries(path, a)[path] == Print(a) && Entries(path, b)[path] == Print(b);
      PrintsTell(a, b);
    }
  }

  // ---- The first difference ------------------------------------------------

  datatype Difference = Changed(path: Path) | Removed(path: Path) | Created(path: Path)

  predicate Describes(d: Difference, before: Listing, after: Listing) {
    match d
    case Changed(p) => p in before && p in after && before[p] != after[p]
    case Removed(p) => p in before && p !in after
    case Created(p) => p !in before && p in after
  }

  /** Looks through the paths of both listings; it finds nothing exactly when they are equal. */
  method FirstSnapshotDifference(before: Listing, after: Listing, befores: seq<Path>, afters: seq<Path>)
    returns (d: Option<Difference>)
    requires (forall p :: p in befores <==> p in before) && (forall p :: p in afters <==> p in after)
    ensures d.None? <==> before == after
    ensures d.Some? ==> Describes(d.value, before, after)
  {
    var paths := befores + afters;
    for i := 0 to |paths|
      invariant forall j | 0 <= j < i :: paths[j] in before && paths[j] in after && before[paths[j]] == after[paths[j]]
    {
      var p := paths[i];
      if p in before && p in after {
        if before[p] != after[p] {
          return Some(Changed(p));
        }
      } else if p in before {
        return Some(Removed(p));
      } else if p in after {
        return Some(Created(p));
      }
    }
    forall p | p in before || p in after ensures p in before && p in after && before[p] == after[p] {
      assert p in paths;
    }
    return None;
  }
}
