/** What may be removed from a host (scripts/collect.py), and what every removal leaves recoverable. */
module Retention {
  import opened Catalog
  import opened Wrappers

  type Releases = map<Name, Release>

  // ---- The release before another ------------------------------------------

  /** Stable insertion by the time of the cut. */
  function Insert(r: Release, sorted: seq<Release>): seq<Release> {
    if sorted == [] || sorted[|sorted| - 1].cutAt <= r.cutAt then sorted + [r]
    else Insert(r, sorted[..|sorted| - 1]) + [sorted[|sorted| - 1]]
  }

  function Sorted(releases: seq<Release>): seq<Release> {
    if releases == [] then [] else Insert(releases[|releases| - 1], Sorted(releases[..|releases| - 1]))
  }

  function IndexOf(r: Release, releases: seq<Release>): (i: nat)
    requires r in releases
    ensures i < |releases| && releases[i] == r
  {
    if releases[0] == r then 0 else 1 + IndexOf(r, releases[1..])
  }

  predicate Distinct(releases: seq<Release>) {
    forall i, j | 0 <= i < j < |releases| :: releases[i] != releases[j]
  }

  /** `p` was cut before `r`: earlier, or at the same time and listed before it. */
  predicate CutBefore(releases: seq<Release>, p: Release, r: Release)
    requires p in releases && r in releases
  {
    p.cutAt < r.cutAt || (p.cutAt == r.cutAt && exists i, j | 0 <= i < j < |releases| :: releases[i] == p && releases[j] == r)
  }

  /** `sorted` lists the releases in the order of their cuts. */
  ghost predicate InOrder(releases: seq<Release>, sorted: seq<Release>) {
    && (forall q :: q in sorted <==> q in releases)
    && (forall i, j | 0 <= i < j < |sorted| :: CutBefore(releases, sorted[i], sorted[j]))
  }

  /** The entries of `sorted` are listed among `releases`, in order. */
  ghost predicate PartlyInOrder(releases: seq<Release>, sorted: seq<Release>) {
    && (forall q | q in sorted :: q in releases)
    && (forall i, j | 0 <= i < j < |sorted| :: CutBefore(releases, sorted[i], sorted[j]))
  }

  lemma {:induction false} InsertKeepsOrder(releases: seq<Release>, r: Release, sorted: seq<Release>)
    requires r in releases && PartlyInOrder(releases, sorted)
    requires forall q | q in sorted && q.cutAt <= r.cutAt :: CutBefore(releases, q, r)
    ensures PartlyInOrder(releases, Insert(r, sorted))
    ensures forall q :: q in Insert(r, sorted) <==> q == r || q in sorted
    decreases |sorted|
  {
    if sorted != [] {
      var init, last := sorted[..|sorted| - 1], sorted[|sorted| - 1];
      assert sorted == init + [last];
      if last.cutAt <= r.cutAt {
        forall i | 0 <= i < |sorted| ensures CutBefore(releases, sorted[i], r) {
          assert i < |sorted| - 1 ==> CutBefore(releases, sorted[i], last);
        }
      } else {
        hide CutBefore;
        InsertKeepsOrder(releases, r, init);
        AppendKeepsOrder(releases, r, init, last);
      }
    }
  }

  lemma AppendKeepsOrder(releases: seq<Release>, r: Release, init: seq<Release>, last: Release)
    requires last in releases && r in releases && r.cutAt < last.cutAt
    requires PartlyInOrder(releases, init + [last]) && PartlyInOrder(releases, Insert(r, init))
    requires forall q :: q in Insert(r, init) <==> q == r || q in init
    ensures PartlyInOrder(releases, Insert(r, init) + [last])
  {
    hide Insert;
    var inserted := Insert(r, init);
    forall i | 0 <= i < |inserted| ensures CutBefore(releases, inserted[i], last) {
      assert inserted[i] in inserted;
      if inserted[i] != r {
        var k :| 0 <= k < |init| && init[k] == inserted[i];
        assert (init + [last])[k] == init[k] && (init + [last])[|init|] == last;
      }
    }
  }

  lemma {:induction false} PrefixInOrder(releases: seq<Release>, k: nat)
    requires Distinct(releases) && k <= |releases|
    ensures PartlyInOrder(releases, Sorted(releases[..k]))
    ensures forall q :: q in Sorted(releases[..k]) <==> q in releases[..k]
  {
    if k > 0 {
      var last := releases[k - 1];
      PrefixInOrder(releases, k - 1);
      assert releases[..k][..k - 1] == releases[..k - 1];
      assert releases[..k] == releases[..k - 1] + [last];
      InsertKeepsOrder(releases, last, Sorted(releases[..k - 1]));
    }
  }

  lemma SortedIsOrdered(releases: seq<Release>)
    requires Distinct(releases)
    ensures InOrder(releases, Sorted(releases))
  {
    PrefixInOrder(releases, |releases|);
    assert releases[..|releases|] == releases;
  }

  function Before(releases: seq<Release>, r: Release): Option<Release> {
    var sorted := Sorted(releases);
    if r !in sorted || IndexOf(r, sorted) == 0 then None else Some(sorted[IndexOf(r, sorted) - 1])
  }

  /** `p` is the last of the releases cut before `r`. */
  predicate LastCutBefore(releases: seq<Release>, p: Release, r: Release) {
    && r in releases && p in releases && CutBefore(releases, p, r)
    && forall q | q in releases && CutBefore(releases, q, r) :: q == p || CutBefore(releases, q, p)
  }

  /** Of two releases one was cut before the other, and not both. */
  lemma CutsAreOrdered(releases: seq<Release>, p: Release, q: Release)
    requires Distinct(releases) && p in releases && q in releases
    ensures p != q ==> (CutBefore(releases, p, q) <==> !CutBefore(releases, q, p))
    ensures !CutBefore(releases, p, p)
  {
    var i :| 0 <= i < |releases| && releases[i] == p;
    var j :| 0 <= j < |releases| && releases[j] == q;
  }

  /**
   * The release before another is the last one cut before it: never itself, and one cut strictly
   * earlier unless a release cut at the same time is listed between. There is none before the first.
   */
  lemma BeforeIsTheLatestEarlier(releases: seq<Release>, r: Release)
    requires Distinct(releases)
    ensures forall p :: Before(releases, r) == Some(p) <==> LastCutBefore(releases, p, r)
    ensures Before(releases, r).None? <==> r !in releases || forall q | q in releases :: !CutBefore(releases, q, r)
    ensures match Before(releases, r)
            case Some(p) => p != r && (p.cutAt < r.cutAt || exists q :: q in releases && q != r && q.cutAt == r.cutAt)
            case None => r in releases ==> forall q | q in releases :: r.cutAt <= q.cutAt
  {
    hide Sorted;
    SortedIsOrdered(releases);
    var sorted := Sorted(releases);
    if r in releases {
      var i := IndexOf(r, sorted);
      CutsAreOrdered(releases, r, r);
      forall q | q in releases && CutBefore(releases, q, r)
        ensures i > 0 && (q == sorted[i - 1] || CutBefore(releases, q, sorted[i - 1]))
      {
        var k :| 0 <= k < |sorted| && sorted[k] == q;
        CutsAreOrdered(releases, q, r);
        assert k < i;
      }
      if i > 0 {
        hide CutBefore;
        var before := sorted[i - 1];
        assert before in sorted;
        assert LastCutBefore(releases, before, r);
        forall p | LastCutBefore(releases, p, r) ensures p == before {
          CutsAreOrdered(releases, p, before);
        }
      }
    }
  }

  // ---- Archives ------------------------------------------------------------

  /** A file whose name is a release's own or an old fixed one; `owners` are the releases it may be of. */
  datatype Candidate = Candidate(path: string, inode: nat, derived: bool, legacy: bool, owners: seq<Name>)

  /** A file proved to be the archive of `release`. */
  datatype ArchiveFile = ArchiveFile(path: string, inode: nat, derived: bool, release: Name)

  ghost predicate OneOwner(releases: Releases) {
    forall a, b, h | a in releases && b in releases && h in releases[a].archives && h in releases[b].archives :: a == b
  }

  /** Two catalogs that share no hash and no name give each hash one owner. */
  lemma CatalogsHaveOneOwner(service: seq<Pin>, backend: seq<Pin>, s: Releases, b: Releases)
    requires Records(service, s) && Grounded(service, s) && Records(backend, b) && Grounded(backend, b)
    requires s.Keys !! b.Keys
    requires forall x, y, h | x in s && y in b && h in s[x].archives :: h !in b[y].archives
    ensures OneOwner(s + b)
  {
    hide Records, Grounded;
    forall x, y, h | x in s + b && y in s + b && h in (s + b)[x].archives && h in (s + b)[y].archives ensures x == y {
      if x in s && y in s {
        ArchivesHaveOneOwner(service, s, x, y, h);
      } else if x in b && y in b {
        ArchivesHaveOneOwner(backend, b, x, y, h);
      }
    }
  }

  function OwnerOf(owners: seq<Name>, digest: Hash, releases: Releases): (r: Option<Name>)
    ensures r.Some? ==> r.value in owners && r.value in releases && digest in releases[r.value].archives
    ensures r.None? ==> forall n | n in owners && n in releases :: digest !in releases[n].archives
  {
    if owners == [] then None
    else if owners[0] in releases && digest in releases[owners[0]].archives then Some(owners[0])
    else OwnerOf(owners[1..], digest, releases)
  }

  /** Every archive's bytes are a hash pinned for its release. */
  ghost predicate Verified(archives: seq<ArchiveFile>, digests: map<nat, Hash>, releases: Releases) {
    forall a | a in archives ::
      a.inode in digests && a.release in releases && digests[a.inode] in releases[a.release].archives
  }

  /** The archive a candidate proves to be. */
  function FileOf(c: Candidate, digests: map<nat, Hash>, releases: Releases): Option<ArchiveFile>
    requires c.inode in digests
  {
    match OwnerOf(c.owners, digests[c.inode], releases)
    case Some(release) => Some(ArchiveFile(c.path, c.inode, c.derived, release))
    case None => None
  }

  /** Reads every candidate; a file that carries a release's name but none of its bytes is refused. */
  method IdentifyArchives(candidates: seq<Candidate>, digests: map<nat, Hash>, releases: Releases)
    returns (archives: Option<seq<ArchiveFile>>)
    requires forall c | c in candidates :: c.inode in digests
    ensures archives.None? <==> exists c :: c in candidates && !c.legacy && FileOf(c, digests, releases).None?
    ensures archives.Some? ==> Verified(archives.value, digests, releases)
    ensures archives.Some? ==> forall a ::
              a in archives.value <==> exists c :: c in candidates && FileOf(c, digests, releases) == Some(a)
  {
    var found: seq<ArchiveFile> := [];
    for i := 0 to |candidates|
      invariant Verified(found, digests, releases)
      invariant forall j | 0 <= j < i :: candidates[j].legacy || FileOf(candidates[j], digests, releases).Some?
      invariant forall j | 0 <= j < i && FileOf(candidates[j], digests, releases).Some? ::
                  FileOf(candidates[j], digests, releases).value in found
      invariant forall a | a in found :: exists c :: c in candidates && FileOf(c, digests, releases) == Some(a)
    {
      var c := candidates[i];
      match FileOf(c, digests, releases) {
        case Some(file) =>
          assert c in candidates && FileOf(c, digests, releases) == Some(file);
          found := found + [file];
        case None =>
          if !c.legacy {
            return None;
          }
      }
    }
    return Some(found);
  }

  /** The names of one file are archives of one release. */
  lemma SameFileSameRelease(archives: seq<ArchiveFile>, digests: map<nat, Hash>, releases: Releases,
                            a: ArchiveFile, b: ArchiveFile)
    requires Verified(archives, digests, releases) && OneOwner(releases)
    requires a in archives && b in archives && a.inode == b.inode
    ensures a.release == b.release
  {
    assert digests[a.inode] in releases[a.release].archives && digests[b.inode] in releases[b.release].archives;
  }

  /** The names of one file, in the order in which they are listed. */
  function Group(archives: seq<ArchiveFile>, inode: nat): (g: seq<ArchiveFile>)
    ensures forall a :: a in g <==> a in archives && a.inode == inode
  {
    if archives == [] then []
    else
      var init, last := archives[..|archives| - 1], archives[|archives| - 1];
      assert forall a :: a in archives <==> a in init || a == last;
      Group(init, inode) + (if last.inode == inode then [last] else [])
  }

  function Derived(group: seq<ArchiveFile>): (d: seq<ArchiveFile>)
    ensures forall a :: a in d <==> a in group && a.derived
  {
    if group == [] then []
    else
      assert forall a :: a in group <==> a == group[0] || a in group[1..];
      (if group[0].derived then [group[0]] else []) + Derived(group[1..])
  }

  /** The name under which a file is decided: one a lock derives, if it has such a name. */
  function Primary(group: seq<ArchiveFile>): (p: ArchiveFile)
    requires group != []
    ensures p in group
    ensures (exists a :: a in group && a.derived) ==> p.derived
    ensures !p.derived ==> p == group[0]
  {
    if Derived(group) != [] then Derived(group)[0] else group[0]
  }

  /** One name of each file stays, if the release of the file is held. */
  predicate Stays(archives: seq<ArchiveFile>, held: set<Name>, a: ArchiveFile) {
    var group := Group(archives, a.inode);
    group != [] && a == Primary(group) && group[0].release in held
  }

  ghost predicate Grouped(done: seq<ArchiveFile>, order: seq<nat>, groups: map<nat, seq<ArchiveFile>>) {
    && (forall n: nat :: n in order <==> n in groups)
    && (forall n | n in groups :: groups[n] == Group(done, n) && groups[n] != [])
    && (forall a | a in done :: a.inode in groups)
  }

  lemma GroupGrows(archives: seq<ArchiveFile>, k: nat, n: nat)
    requires k < |archives|
    ensures Group(archives[..k + 1], n) ==
              if archives[k].inode == n then Group(archives[..k], n) + [archives[k]] else Group(archives[..k], n)
  {
    var longer := archives[..k + 1];
    assert longer[..|longer| - 1] == archives[..k];
  }

  lemma GroupEmptyExactly(archives: seq<ArchiveFile>, n: nat)
    ensures Group(archives, n) == [] <==> forall a | a in archives :: a.inode != n
  {
    if Group(archives, n) != [] {
      var a := Group(archives, n)[0];
      assert a in Group(archives, n);
    }
  }

  lemma GroupedStep(archives: seq<ArchiveFile>, k: nat, order: seq<nat>, groups: map<nat, seq<ArchiveFile>>)
    requires k < |archives| && Grouped(archives[..k], order, groups)
    ensures var n := archives[k].inode;
            Grouped(archives[..k + 1], if n in groups then order else order + [n],
                    groups[n := if n in groups then groups[n] + [archives[k]] else [archives[k]]])
  {
    hide Group;
    var n := archives[k].inode;
    var after := groups[n := if n in groups then groups[n] + [archives[k]] else [archives[k]]];
    forall m | m in after ensures after[m] == Group(archives[..k + 1], m) && after[m] != [] {
      GroupGrows(archives, k, m);
      GroupEmptyExactly(archives[..k], m);
    }
    assert forall a :: a in archives[..k + 1] <==> a in archives[..k] || a == archives[k];
  }

  predicate Carries(releases: Releases, a: ArchiveFile, image: Image) {
    a.release in releases && image in releases[a.release].images.Values
  }

  /** The images of the releases whose archives stay. */
  ghost predicate Contents(archives: seq<ArchiveFile>, releases: Releases, stays: set<ArchiveFile>, images: set<Image>) {
    && (forall a | a in stays :: Group(archives, a.inode) != [])
    && forall image :: image in images <==>
         exists a :: a in stays && Carries(releases, Group(archives, a.inode)[0], image)
  }

  function ImagesOf(releases: Releases, n: Name): set<Image> {
    if n in releases then releases[n].images.Values else {}
  }

  lemma LeadImages(releases: Releases, a: ArchiveFile, image: Image)
    ensures image in ImagesOf(releases, a.release) <==> Carries(releases, a, image)
  {
  }

  lemma ContentsStep(archives: seq<ArchiveFile>, releases: Releases, stays: set<ArchiveFile>, images: set<Image>, n: nat)
    requires Contents(archives, releases, stays, images) && Group(archives, n) != []
    ensures var group := Group(archives, n);
            Contents(archives, releases, stays + {Primary(group)}, images + ImagesOf(releases, group[0].release))
  {
    hide Group, Primary, Carries, ImagesOf;
    var group := Group(archives, n);
    var p := Primary(group);
    assert p in group && p.inode == n;
    var more := images + ImagesOf(releases, group[0].release);
    forall image
      ensures image in more <==>
                exists a :: a in stays + {p} && Carries(releases, Group(archives, a.inode)[0], image)
    {
      LeadImages(releases, group[0], image);
      if image in images {
        var a :| a in stays && Carries(releases, Group(archives, a.inode)[0], image);
        assert a in stays + {p};
      } else if image in more {
        assert Carries(releases, Group(archives, p.inode)[0], image);
      }
    }
  }

  predicate Decided(archives: seq<ArchiveFile>, held: set<Name>, inodes: seq<nat>, stays: set<ArchiveFile>) {
    && (forall a | a in stays :: a.inode in inodes && Stays(archives, held, a))
    && (forall a | a in archives && a.inode in inodes && Stays(archives, held, a) :: a in stays)
  }

  lemma DecidedStep(archives: seq<ArchiveFile>, held: set<Name>, inodes: seq<nat>, stays: set<ArchiveFile>, n: nat)
    requires Decided(archives, held, inodes, stays) && Group(archives, n) != []
    ensures var group := Group(archives, n);
            Decided(archives, held, inodes + [n],
                    if group[0].release in held then stays + {Primary(group)} else stays)
  {
    hide Group, Primary;
    var group := Group(archives, n);
    assert Primary(group) in group;
    assert forall a: ArchiveFile | a.inode == n ::
        Stays(archives, held, a) <==> a == Primary(group) && group[0].release in held;
  }

  /** Decides every file by one of its names; the other names go, and cost nothing. */
  method DecideArchives(archives: seq<ArchiveFile>, held: set<Name>, releases: Releases)
    returns (stays: set<ArchiveFile>, restorable: set<Image>)
    ensures forall a :: a in stays <==> a in archives && Stays(archives, held, a)
    ensures Contents(archives, releases, stays, restorable)
  {
    hide Stays, Grouped, Decided, Group, Primary, Contents, ImagesOf;
    var order: seq<nat>, groups: map<nat, seq<ArchiveFile>> := [], map[];
    NothingYet(archives, held, releases);
    for k := 0 to |archives|
      invariant Grouped(archives[..k], order, groups)
    {
      GroupedStep(archives, k, order, groups);
      var n := archives[k].inode;
      if n !in groups {
        order := order + [n];
        groups := groups[n := [archives[k]]];
      } else {
        groups := groups[n := groups[n] + [archives[k]]];
      }
    }
    assert archives[..|archives|] == archives;
    stays, restorable := {}, {};
    for i := 0 to |order|
      invariant Decided(archives, held, order[..i], stays) && Contents(archives, releases, stays, restorable)
    {
      GroupOf(archives, order, groups, i);
      var group := groups[order[i]];
      DecidedStep(archives, held, order[..i], stays, order[i]);
      ContentsStep(archives, releases, stays, restorable, order[i]);
      assert order[..i + 1] == order[..i] + [order[i]];
      if group[0].release in held {
        stays := stays + {Primary(group)};
        restorable := restorable + ImagesOf(releases, group[0].release);
      }
    }
    assert order[..|order|] == order;
    AllDecided(archives, held, order, groups, stays);
  }

  lemma NothingYet(archives: seq<ArchiveFile>, held: set<Name>, releases: Releases)
    ensures Contents(archives, releases, {}, {})
    ensures Grouped(archives[..0], [], map[]) && Decided(archives, held, [], {})
  {
  }

  lemma GroupOf(archives: seq<ArchiveFile>, order: seq<nat>, groups: map<nat, seq<ArchiveFile>>, i: nat)
    requires Grouped(archives, order, groups) && i < |order|
    ensures order[i] in groups && groups[order[i]] == Group(archives, order[i]) != []
  {
  }

  lemma AllDecided(archives: seq<ArchiveFile>, held: set<Name>, order: seq<nat>, groups: map<nat, seq<ArchiveFile>>,
                   stays: set<ArchiveFile>)
    requires Grouped(archives, order, groups) && Decided(archives, held, order, stays)
    ensures forall a :: a in stays <==> a in archives && Stays(archives, held, a)
  {
    forall a | a in stays ensures a in archives {
      assert Stays(archives, held, a);
      assert Primary(Group(archives, a.inode)) in archives;
    }
  }

  // ---- Evidence ------------------------------------------------------------

  /** The hashes evidence names, and the time of the newest record that names no release. */
  datatype Evidence = Evidence(tokens: set<string>, newest: Option<int>)

  /** `more` names all that `less` names, and bounds its unresolved records no earlier. */
  predicate Extends(less: Evidence, more: Evidence) {
    && less.tokens <= more.tokens
    && (less.newest.Some? ==> more.newest.Some? && less.newest.value <= more.newest.value)
  }

  function DefiningImage(r: Release): Image {
    r.name.image
  }

  function TokensOf(r: Release): seq<string> {
    (match r.name case ServiceName(implementation, _) => [implementation] case BackendName(_, _) => [])
    + r.archives + [DefiningImage(r)]
  }

  predicate Earlier(when: Option<int>, evidence: Evidence) {
    when.Some? && evidence.newest.Some? && when.value < evidence.newest.value
  }

  function FirstPinned(firstPin: map<Image, int>, image: Image): Option<int> {
    if image in firstPin then Some(firstPin[image]) else None
  }

  /** Whether evidence references a release by itself; `available` is when its defining image was first pinned. */
  predicate Referencing(r: Release, available: map<Name, int>, evidence: Evidence) {
    || (exists t :: t in TokensOf(r) && t in evidence.tokens)
    || Earlier(if r.name in available then Some(available[r.name]) else None, evidence)
  }

  /** The releases evidence references, and the backends that its service releases run on. */
  function Referenced(releases: Releases, available: map<Name, int>, evidence: Evidence): set<Name> {
    var named := set n | n in releases && Referencing(releases[n], available, evidence);
    named + set b | b in releases && b.BackendName?
                    && exists s :: s in named && s.ServiceName? && releases[s].backendImage == Some(b.image)
  }

  /** Evidence holds a hash of the release `n`, or a record that names no release and is newer than it. */
  predicate NamedBy(evidence: Evidence, releases: Releases, available: map<Name, int>, n: Name)
    requires n in releases
  {
    || (exists a :: a in releases[n].archives && a in evidence.tokens)
    || n.image in evidence.tokens
    || (n.ServiceName? && n.implementation in evidence.tokens)
    || (n in available && evidence.newest.Some? && available[n] < evidence.newest.value)
  }

  /** Evidence needs the releases it names, and the backends of the service releases it names. */
  predicate NeededBy(evidence: Evidence, releases: Releases, available: map<Name, int>, n: Name)
    requires n in releases
  {
    || NamedBy(evidence, releases, available, n)
    || (n.BackendName? && exists s :: s in releases && s.ServiceName? && releases[s].backendImage == Some(n.image)
                                      && NamedBy(evidence, releases, available, s))
  }

  predicate UnderTheirNames(releases: Releases) {
    forall n | n in releases :: releases[n].name == n
  }

  lemma ReferencedExactly(releases: Releases, available: map<Name, int>, evidence: Evidence, n: Name)
    requires UnderTheirNames(releases)
    ensures n in Referenced(releases, available, evidence) <==>
            n in releases && NeededBy(evidence, releases, available, n)
  {
    forall m | m in releases
      ensures Referencing(releases[m], available, evidence) <==> NamedBy(evidence, releases, available, m)
    {
      ReferencingExactly(releases, available, evidence, m);
    }
    hide Referencing, NamedBy;
  }

  lemma ReferencingExactly(releases: Releases, available: map<Name, int>, evidence: Evidence, n: Name)
    requires n in releases && releases[n].name == n
    ensures Referencing(releases[n], available, evidence) <==> NamedBy(evidence, releases, available, n)
  {
    var tokens := TokensOf(releases[n]);
    var lead := match n case ServiceName(implementation, _) => [implementation] case BackendName(_, _) => [];
    assert tokens == lead + releases[n].archives + [n.image];
    assert forall t :: t in tokens <==> t in lead || t in releases[n].archives || t == n.image;
  }

  lemma MoreEvidenceReferencesMore(releases: Releases, available: map<Name, int>, less: Evidence, more: Evidence)
    requires Extends(less, more)
    ensures Referenced(releases, available, less) <= Referenced(releases, available, more)
  {
    forall n | n in releases && Referencing(releases[n], available, less)
      ensures Referencing(releases[n], available, more)
    {
    }
  }

  // ---- Images --------------------------------------------------------------

  /** Everything an evaluation reads but the evidence. `ours` are the images it decides about. */
  datatype Host = Host(releases: Releases, kept: set<Name>, available: map<Name, int>, firstPin: map<Image, int>,
                       images: set<Image>, ours: set<Image>, inUse: set<Image>, base: set<Image>, archives: seq<ArchiveFile>)

  function Owners(h: Host, image: Image): set<Name> {
    set n | n in h.releases && image in h.releases[n].images.Values
  }

  function Held(h: Host, evidence: Evidence): set<Name> {
    h.kept + Referenced(h.releases, h.available, evidence)
  }

  predicate Restorable(h: Host, evidence: Evidence, image: Image) {
    exists a :: a in h.archives && Stays(h.archives, Held(h, evidence), a)
                && Carries(h.releases, Group(h.archives, a.inode)[0], image)
  }

  datatype Decision = Keep | Collect

  /** The rules in the order in which they are tried; `restorable` says that a kept archive carries the image. */
  function DecideGiven(h: Host, evidence: Evidence, image: Image, restorable: bool): Decision {
    var owners := Owners(h, image);
    if image in h.inUse || image in h.base then Keep
    else if owners * h.kept != {} then Keep
    else if restorable then Collect
    else if owners * Referenced(h.releases, h.available, evidence) != {} then Keep
    else if owners != {} then Collect
    else if image in h.firstPin then
      if image in evidence.tokens || Earlier(FirstPinned(h.firstPin, image), evidence) then Keep else Collect
    else Collect
  }

  function DecideImage(h: Host, evidence: Evidence, image: Image): Decision {
    DecideGiven(h, evidence, image, Restorable(h, evidence, image))
  }

  predicate Collectable(h: Host, evidence: Evidence, image: Image) {
    image in h.images && image in h.ours && DecideImage(h, evidence, image).Collect?
  }

  predicate Has(h: Host, n: Name, image: Image) {
    n in h.releases && image in h.releases[n].images.Values
  }

  /** No release has the image, but evidence holds its hash or may be about it. */
  predicate NamedAlone(h: Host, evidence: Evidence, image: Image) {
    && (forall n | n in h.releases :: !Has(h, n, image))
    && image in h.firstPin
    && (image in evidence.tokens || (evidence.newest.Some? && h.firstPin[image] < evidence.newest.value))
  }

  /**
   * Which images are kept: those in use, the base images and those of kept releases; what no kept
   * archive carries and evidence needs, or names by itself when no release has it; nothing else.
   */
  lemma ImageIsKeptExactly(h: Host, evidence: Evidence, image: Image)
    requires UnderTheirNames(h.releases)
    ensures DecideImage(h, evidence, image).Keep? <==>
              || image in h.inUse || image in h.base
              || (exists n :: n in h.kept && Has(h, n, image))
              || (!Restorable(h, evidence, image)
                  && (NamedAlone(h, evidence, image)
                      || exists n :: Has(h, n, image) && NeededBy(evidence, h.releases, h.available, n)))
  {
    hide Restorable, Referenced, NeededBy;
    var owners, referenced := Owners(h, image), Referenced(h.releases, h.available, evidence);
    forall n
      ensures n in owners * h.kept <==> n in h.kept && Has(h, n, image)
      ensures n in owners * referenced <==> Has(h, n, image) && NeededBy(evidence, h.releases, h.available, n)
    {
      ReferencedExactly(h.releases, h.available, evidence, n);
    }
    SetIsEmptyExactly(owners);
    SetIsEmptyExactly(owners * h.kept);
    SetIsEmptyExactly(owners * referenced);
    assert owners == {} <==> forall n | n in h.releases :: !Has(h, n, image);
    hide Owners;
    if n :| n in h.kept && Has(h, n, image) {
      assert n in owners * h.kept;
    } else if n :| Has(h, n, image) && NeededBy(evidence, h.releases, h.available, n) {
      assert n in owners * referenced;
    }
  }

  lemma SetIsEmptyExactly(names: set<Name>)
    ensures names != {} <==> exists n :: n in names
  {
    if names != {} {
      var n :| n in names;
    }
  }

  /** Decides about every archive and every image of ours. */
  method Evaluate(h: Host, evidence: Evidence) returns (stays: set<ArchiveFile>, collect: set<Image>)
    ensures forall a :: a in stays <==> a in h.archives && Stays(h.archives, Held(h, evidence), a)
    ensures forall i :: i in collect <==> Collectable(h, evidence, i)
    ensures collect <= h.images
  {
    hide Stays, Referenced, Owners, DecideGiven, Group;
    var restorable;
    stays, restorable := DecideArchives(h.archives, Held(h, evidence), h.releases);
    collect := {};
    var todo := h.images * h.ours;
    while todo != {}
      invariant todo <= h.images * h.ours
      invariant forall i :: i in collect <==> i in h.images * h.ours - todo && DecideImage(h, evidence, i).Collect?
      decreases |todo|
    {
      var image :| image in todo;
      todo := todo - {image};
      RestorableIsContents(h, evidence, stays, restorable, image);
      if DecideGiven(h, evidence, image, image in restorable).Collect? {
        collect := collect + {image};
      }
    }
  }

  lemma RestorableIsContents(h: Host, evidence: Evidence, stays: set<ArchiveFile>, restorable: set<Image>, image: Image)
    requires forall a :: a in stays <==> a in h.archives && Stays(h.archives, Held(h, evidence), a)
    requires Contents(h.archives, h.releases, stays, restorable)
    ensures image in restorable <==> Restorable(h, evidence, image)
  {
    hide Group, Stays, Held, Carries;
    if image in restorable {
      var a :| a in stays && Carries(h.releases, Group(h.archives, a.inode)[0], image);
      assert a in h.archives && Stays(h.archives, Held(h, evidence), a);
    }
  }

  /** What is left after a delete removed some of what was collectable, stopping wherever it did. */
  predicate Deleted(h: Host, evidence: Evidence, images: set<Image>, files: set<ArchiveFile>) {
    && (forall i | i in h.images && !Collectable(h, evidence, i) :: i in images)
    && (forall a | a in h.archives && Stays(h.archives, Held(h, evidence), a) :: a in files)
    && images <= h.images && (forall a | a in files :: a in h.archives)
  }

  ghost predicate Sound(h: Host, digests: map<nat, Hash>) {
    Verified(h.archives, digests, h.releases) && OneOwner(h.releases)
  }

  predicate Recoverable(h: Host, images: set<Image>, files: set<ArchiveFile>, image: Image) {
    image in images || exists a :: a in files && Carries(h.releases, a, image)
  }

  /** Any file of a held release has one name that stays, and it is an archive of the same release. */
  lemma OneNameStays(h: Host, digests: map<nat, Hash>, held: set<Name>, a: ArchiveFile) returns (p: ArchiveFile)
    requires Sound(h, digests) && a in h.archives && a.release in held
    ensures p in h.archives && Stays(h.archives, held, p) && p.release == a.release && p.inode == a.inode
    ensures forall q | q in h.archives && q.inode == a.inode && Stays(h.archives, held, q) :: q == p
  {
    var group := Group(h.archives, a.inode);
    assert a in group;
    p := Primary(group);
    SameFileSameRelease(h.archives, digests, h.releases, a, p);
    SameFileSameRelease(h.archives, digests, h.releases, a, group[0]);
  }

  /** No file of any other release stays. */
  lemma OnlyHeldStays(h: Host, digests: map<nat, Hash>, held: set<Name>, a: ArchiveFile)
    requires Sound(h, digests) && Stays(h.archives, held, a)
    ensures a in h.archives && a.release in held
  {
    SameFileSameRelease(h.archives, digests, h.releases, a, Group(h.archives, a.inode)[0]);
  }

  /** An image some kept archive carries is carried by the name of it that stays. */
  lemma RestorableIsCarried(h: Host, digests: map<nat, Hash>, evidence: Evidence, image: Image) returns (p: ArchiveFile)
    requires Sound(h, digests) && Restorable(h, evidence, image)
    ensures p in h.archives && Stays(h.archives, Held(h, evidence), p) && Carries(h.releases, p, image)
  {
    p :| p in h.archives && Stays(h.archives, Held(h, evidence), p)
         && Carries(h.releases, Group(h.archives, p.inode)[0], image);
    SameFileSameRelease(h.archives, digests, h.releases, p, Group(h.archives, p.inode)[0]);
  }

  /**
   * Wherever a delete stops, each image of a kept or referenced release that was on the host, or
   * in an archive of that release, is still on the host or in a surviving verified archive.
   */
  lemma NothingHeldIsLost(h: Host, digests: map<nat, Hash>, evidence: Evidence, images: set<Image>, files: set<ArchiveFile>,
                          r: Name, image: Image)
    requires Sound(h, digests) && Deleted(h, evidence, images, files)
    requires r in h.releases && r in Held(h, evidence) && image in h.releases[r].images.Values
    requires image in h.images || exists a :: a in h.archives && a.release == r
    ensures Recoverable(h, images, files, image)
  {
    hide Stays, Referenced, Restorable, Sound;
    if image !in images {
      if a :| a in h.archives && a.release == r {
        var p := OneNameStays(h, digests, Held(h, evidence), a);
        assert p in files && Carries(h.releases, p, image);
      } else {
        assert Collectable(h, evidence, image);
        HeldIsCollectedOnlyIfRestorable(h, evidence, r, image);
        var p := RestorableIsCarried(h, digests, evidence, image);
        assert p in files && Carries(h.releases, p, image);
      }
    }
  }

  lemma HeldIsCollectedOnlyIfRestorable(h: Host, evidence: Evidence, r: Name, image: Image)
    requires r in h.releases && r in Held(h, evidence) && image in h.releases[r].images.Values
    requires DecideImage(h, evidence, image).Collect?
    ensures Restorable(h, evidence, image)
  {
    hide Restorable, Referenced;
    assert r in Owners(h, image);
    assert r in h.kept ==> r in Owners(h, image) * h.kept;
    var referenced := Referenced(h.releases, h.available, evidence);
    assert r in referenced ==> r in Owners(h, image) * referenced;
  }

  // ---- More evidence -------------------------------------------------------

  /** What a delete is bound to leave: the images it may not collect, and the contents of the archives that stay. */
  predicate Guaranteed(h: Host, evidence: Evidence, image: Image) {
    (image in h.images && !Collectable(h, evidence, image)) || Restorable(h, evidence, image)
  }

  /** An image is guaranteed exactly if it is recoverable wherever a delete stops. */
  lemma GuaranteedExactly(h: Host, digests: map<nat, Hash>, evidence: Evidence, image: Image)
    requires Sound(h, digests)
    ensures Guaranteed(h, evidence, image) <==>
            forall images, files | Deleted(h, evidence, images, files) :: Recoverable(h, images, files, image)
  {
    hide Stays, Collectable, Held, Carries, Restorable, Sound;
    if Guaranteed(h, evidence, image) {
      forall images, files | Deleted(h, evidence, images, files) ensures Recoverable(h, images, files, image) {
        if Restorable(h, evidence, image) {
          var p := RestorableIsCarried(h, digests, evidence, image);
        }
      }
    } else {
      var images := set i | i in h.images && !Collectable(h, evidence, i);
      var files := set a | a in h.archives && Stays(h.archives, Held(h, evidence), a);
      assert Deleted(h, evidence, images, files);
      if Recoverable(h, images, files, image) {
        var a :| a in files && Carries(h.releases, a, image);
        CarriedIsRestorable(h, digests, evidence, a, image);
        assert false;
      }
    }
  }

  lemma CarriedIsRestorable(h: Host, digests: map<nat, Hash>, evidence: Evidence, a: ArchiveFile, image: Image)
    requires Sound(h, digests) && a in h.archives && Stays(h.archives, Held(h, evidence), a)
    requires Carries(h.releases, a, image)
    ensures Restorable(h, evidence, image)
  {
    var lead := Group(h.archives, a.inode)[0];
    SameFileSameRelease(h.archives, digests, h.releases, a, lead);
    assert Carries(h.releases, lead, image);
  }

  lemma RestorableGrows(h: Host, less: Evidence, more: Evidence, image: Image)
    requires Extends(less, more) && Restorable(h, less, image)
    ensures Restorable(h, more, image)
  {
    MoreEvidenceReferencesMore(h.releases, h.available, less, more);
    hide Referenced, Group, Primary;
    var a :| a in h.archives && Stays(h.archives, Held(h, less), a)
             && Carries(h.releases, Group(h.archives, a.inode)[0], image);
    assert Stays(h.archives, Held(h, more), a);
  }

  /** More evidence never leaves less recoverable, although an image it keeps otherwise may become collectable. */
  lemma MoreEvidenceLeavesMore(h: Host, less: Evidence, more: Evidence, image: Image)
    requires Extends(less, more) && Guaranteed(h, less, image)
    ensures Guaranteed(h, more, image)
  {
    hide Referenced, Restorable;
    MoreEvidenceReferencesMore(h.releases, h.available, less, more);
    if Restorable(h, less, image) {
      RestorableGrows(h, less, more, image);
    } else if !Restorable(h, more, image) {
      var owners := Owners(h, image);
      var before, after := Referenced(h.releases, h.available, less), Referenced(h.releases, h.available, more);
      assert owners * before <= owners * after;
    }
  }

  /** An image that was kept becomes collectable exactly when an archive that carries it became kept. */
  lemma VerdictFlipsExactly(h: Host, less: Evidence, more: Evidence, image: Image)
    requires Extends(less, more) && DecideImage(h, less, image).Keep?
    ensures DecideImage(h, more, image).Collect? <==>
              && image !in h.inUse && image !in h.base && Owners(h, image) * h.kept == {}
              && !Restorable(h, less, image) && Restorable(h, more, image)
  {
    hide Referenced, Restorable;
    MoreEvidenceReferencesMore(h.releases, h.available, less, more);
    var owners := Owners(h, image);
    var before, after := Referenced(h.releases, h.available, less), Referenced(h.releases, h.available, more);
    assert owners * before <= owners * after;
    if Restorable(h, less, image) {
      RestorableGrows(h, less, more, image);
    }
  }

  // ---- Removing ------------------------------------------------------------

  datatype Removal = RemoveFile(file: ArchiveFile) | RemoveImage(image: Image)

  predicate Marked(h: Host, evidence: Evidence, r: Removal) {
    match r
    case RemoveFile(a) => a in h.archives && !Stays(h.archives, Held(h, evidence), a)
    case RemoveImage(i) => Collectable(h, evidence, i)
  }

  function RemovedImages(removals: seq<Removal>): set<Image> {
    set r | r in removals && r.RemoveImage? :: r.image
  }

  function RemovedFiles(removals: seq<Removal>): set<ArchiveFile> {
    set r | r in removals && r.RemoveFile? :: r.file
  }

  class Machine {
    var images: set<Image>
    var files: set<ArchiveFile>

    constructor (h: Host)
      ensures images == h.images && files == (set a | a in h.archives)
    {
      images := h.images;
      files := set a | a in h.archives;
    }

    /** Removes what is marked, one object after another, and stops at the first that has changed. */
    method Delete(h: Host, evidence: Evidence, marked: seq<Removal>, changed: Removal -> bool)
      returns (ghost done: nat)
      requires images == h.images && files == (set a | a in h.archives)
      requires forall r | r in marked :: Marked(h, evidence, r)
      modifies this
      ensures Deleted(h, evidence, images, files)
      ensures done <= |marked| && forall k | 0 <= k < done :: !changed(marked[k])
      ensures done < |marked| ==> changed(marked[done])
      ensures images == h.images - RemovedImages(marked[..done])
      ensures files == (set a | a in h.archives) - RemovedFiles(marked[..done])
    {
      hide Stays, Collectable, Held;
      done := 0;
      for k := 0 to |marked|
        invariant done == k && forall j | 0 <= j < k :: !changed(marked[j])
        invariant images == h.images - RemovedImages(marked[..k])
        invariant files == (set a | a in h.archives) - RemovedFiles(marked[..k])
        invariant Deleted(h, evidence, images, files)
      {
        if changed(marked[k]) {
          return;
        }
        assert marked[..k + 1] == marked[..k] + [marked[k]];
        assert Marked(h, evidence, marked[k]);
        match marked[k] {
          case RemoveFile(file) => files := files - {file};
          case RemoveImage(image) => images := images - {image};
        }
        done := k + 1;
      }
    }
  }

  // ---- Kept whole ----------------------------------------------------------

  function WithBefore(releases: seq<Release>, anchors: set<Release>): set<Release> {
    anchors + set a, p | a in anchors && p in releases && Before(releases, a) == Some(p) :: p
  }

  predicate RunsOn(service: Release, backend: Release) {
    service.backendImage == Some(backend.name.image)
  }

  /** The releases kept whole: those that run or are checked out, the ones before them, and their backends. */
  function KeptWhole(services: seq<Release>, backends: seq<Release>, running: set<Release>, backing: set<Release>)
    : set<Release>
  {
    var kept := WithBefore(services, running);
    kept + WithBefore(backends, backing + set b | b in backends && exists s :: s in kept && RunsOn(s, b))
  }

  lemma WithBeforeExactly(releases: seq<Release>, anchors: set<Release>, r: Release)
    requires Distinct(releases)
    ensures r in WithBefore(releases, anchors) <==>
            r in anchors || exists a :: a in anchors && LastCutBefore(releases, r, a)
  {
    hide Before;
    forall a | a in anchors
      ensures LastCutBefore(releases, r, a) <==> r in releases && Before(releases, a) == Some(r)
    {
      BeforeIsTheLatestEarlier(releases, a);
    }
  }

  /** `r` is one of the anchors, or the last release cut before one. */
  predicate AnchorOrBefore(releases: seq<Release>, anchors: set<Release>, r: Release) {
    r in anchors || exists a :: a in anchors && LastCutBefore(releases, r, a)
  }

  /** A backend that anchors: it backs now, or a kept service release runs on it. */
  ghost predicate BackendAnchor(services: seq<Release>, backends: seq<Release>, running: set<Release>, backing: set<Release>,
                          b: Release)
  {
    || b in backing
    || (b in backends && exists s :: AnchorOrBefore(services, running, s) && s.backendImage == Some(b.name.image))
  }

  /** Exactly the anchors, the releases cut last before them, and the backends that kept service releases run on. */
  lemma KeptExactly(services: seq<Release>, backends: seq<Release>, running: set<Release>, backing: set<Release>, r: Release)
    requires Distinct(services) && Distinct(backends)
    ensures r in KeptWhole(services, backends, running, backing) <==>
              || AnchorOrBefore(services, running, r)
              || BackendAnchor(services, backends, running, backing, r)
              || exists a :: BackendAnchor(services, backends, running, backing, a) && LastCutBefore(backends, r, a)
  {
    hide LastCutBefore, WithBefore;
    var kept := WithBefore(services, running);
    var anchors := backing + set b | b in backends && exists s :: s in kept && RunsOn(s, b);
    forall x ensures x in kept <==> AnchorOrBefore(services, running, x) {
      WithBeforeExactly(services, running, x);
    }
    forall x ensures x in anchors <==> BackendAnchor(services, backends, running, backing, x) {
      if x in backends && exists s :: s in kept && RunsOn(s, x) {
        var s :| s in kept && RunsOn(s, x);
        assert AnchorOrBefore(services, running, s);
      }
    }
    hide AnchorOrBefore, BackendAnchor;
    WithBeforeExactly(backends, anchors, r);
  }

  /** With a kept service release, the last release cut before it and every backend it runs on are kept too. */
  lemma KeptTogether(services: seq<Release>, backends: seq<Release>, running: set<Release>, backing: set<Release>,
                     s: Release, b: Release)
    requires Distinct(services) && Distinct(backends)
    requires s in running && s in services && b in backends && s.backendImage == Some(b.name.image)
    ensures var kept := KeptWhole(services, backends, running, backing);
            && s in kept && b in kept
            && ((exists q :: q in services && q.cutAt < s.cutAt) ==>
                  exists p :: p in kept && p != s && LastCutBefore(services, p, s))
            && ((exists q :: q in backends && q.cutAt < b.cutAt) ==>
                  exists p :: p in kept && p != b && LastCutBefore(backends, p, b))
  {
    hide Before, LastCutBefore, KeptWhole;
    BeforeIsTheLatestEarlier(services, s);
    BeforeIsTheLatestEarlier(backends, b);
    assert AnchorOrBefore(services, running, s);
    assert BackendAnchor(services, backends, running, backing, b);
    forall r {:trigger r in KeptWhole(services, backends, running, backing)}
      ensures AnchorOrBefore(services, running, r) ==> r in KeptWhole(services, backends, running, backing)
      ensures BackendAnchor(services, backends, running, backing, r) || LastCutBefore(backends, r, b) ==>
                r in KeptWhole(services, backends, running, backing)
    {
      KeptExactly(services, backends, running, backing, r);
    }
    if Before(services, s).Some? {
      assert LastCutBefore(services, Before(services, s).value, s);
      assert Before(services, s).value in KeptWhole(services, backends, running, backing);
    }
    if Before(backends, b).Some? {
      assert LastCutBefore(backends, Before(backends, b).value, b);
      assert Before(backends, b).value in KeptWhole(services, backends, running, backing);
    }
  }

  // ---- From the histories to the last removal ------------------------------

  /** What was read of the machine besides its archives and its evidence. */
  datatype Inventory = Inventory(images: set<Image>, ours: set<Image>, inUse: set<Image>, base: set<Image>)

  predicate PinsOf(service: seq<Pin>, backend: seq<Pin>) {
    && (forall p | p in service :: p.name.ServiceName?) && (forall p | p in backend :: p.name.BackendName?)
    && (forall p, q | p in service && q in backend && p.archive.Some? :: p.archive != q.archive)
  }

  lemma HashIsPinned(history: seq<Pin>, byName: Releases, n: Name, h: Hash) returns (p: Pin)
    requires Grounded(history, byName) && n in byName && h in byName[n].archives
    ensures p in history && p.name == n && p.archive == Some(h)
  {
    var i :| 0 <= i < |history| && First(history, i) && history[i].name == n && history[i].archive == Some(h);
    p := history[i];
  }

  lemma NameIsPinned(history: seq<Pin>, byName: Releases, n: Name) returns (p: Pin)
    requires Grounded(history, byName) && n in byName
    ensures p in history && p.name == n
  {
    assert byName[n].archives[0] in byName[n].archives;
    p := HashIsPinned(history, byName, n, byName[n].archives[0]);
  }

  lemma SeparateCatalogs(service: seq<Pin>, backend: seq<Pin>, s: Releases, b: Releases)
    requires PinsOf(service, backend)
    requires Records(service, s) && Grounded(service, s) && Records(backend, b) && Grounded(backend, b)
    ensures OneOwner(s + b) && s.Keys !! b.Keys && UnderTheirNames(s + b)
  {
    hide Records, Grounded, OneOwner;
    forall n | n in s ensures n.ServiceName? {
      var p := NameIsPinned(service, s, n);
    }
    forall n | n in b ensures n.BackendName? {
      var p := NameIsPinned(backend, b, n);
    }
    forall x, y, h | x in s && y in b && h in s[x].archives ensures h !in b[y].archives {
      if h in b[y].archives {
        var p := HashIsPinned(service, s, x, h);
        var q := HashIsPinned(backend, b, y, h);
        assert false;
      }
    }
    CatalogsHaveOneOwner(service, backend, s, b);
    NamesAreTheirOwn(service, s);
    NamesAreTheirOwn(backend, b);
  }

  lemma NamesAreTheirOwn(history: seq<Pin>, byName: Releases)
    requires Grounded(history, byName)
    ensures UnderTheirNames(byName)
  {
  }

  /** The images of every release that is kept or that evidence needs are recoverable, if they were at all. */
  ghost predicate NothingLost(h: Host, evidence: Evidence, images: set<Image>, files: set<ArchiveFile>) {
    forall r, image | r in h.releases && (r in h.kept || NeededBy(evidence, h.releases, h.available, r))
                      && image in h.releases[r].images.Values
                      && (image in h.images || exists a :: a in h.archives && a.release == r) ::
      Recoverable(h, images, files, image)
  }

  function MarkedImages(h: Host, evidence: Evidence, collect: seq<Image>): (m: seq<Removal>)
    requires forall i | i in collect :: Collectable(h, evidence, i)
    ensures forall r :: r in m <==> r.RemoveImage? && r.image in collect
    ensures forall r | r in m :: Marked(h, evidence, r)
  {
    if collect == [] then [] else [RemoveImage(collect[0])] + MarkedImages(h, evidence, collect[1..])
  }

  function MarkedFiles(h: Host, evidence: Evidence, archives: seq<ArchiveFile>): (m: seq<Removal>)
    requires forall a | a in archives :: a in h.archives
    ensures forall r :: r in m <==> r.RemoveFile? && r.file in archives && !Stays(h.archives, Held(h, evidence), r.file)
    ensures forall r | r in m :: Marked(h, evidence, r)
  {
    if archives == [] then []
    else
      var rest := MarkedFiles(h, evidence, archives[1..]);
      if Stays(h.archives, Held(h, evidence), archives[0]) then rest else [RemoveFile(archives[0])] + rest
  }

  /** Some state first pins the archive `h` under the name `n`. */
  ghost predicate PinnedFor(history: seq<Pin>, n: Name, h: Hash) {
    exists i | 0 <= i < |history| :: First(history, i) && history[i].name == n && history[i].archive == Some(h)
  }

  /** A file that carries the name of a release none of whose pins is its hash. */
  ghost predicate Unexplained(service: seq<Pin>, backend: seq<Pin>, c: Candidate, digests: map<nat, Hash>)
    requires c.inode in digests
  {
    !c.legacy && forall n | n in c.owners ::
      !PinnedFor(service, n, digests[c.inode]) && !PinnedFor(backend, n, digests[c.inode])
  }

  lemma ArchivesArePinned(history: seq<Pin>, byName: Releases, n: Name, h: Hash)
    requires Records(history, byName) && Grounded(history, byName)
    ensures n in byName && h in byName[n].archives <==> PinnedFor(history, n, h)
  {
    if PinnedFor(history, n, h) {
      var i :| 0 <= i < |history| && First(history, i) && history[i].name == n && history[i].archive == Some(h);
      assert history[i].archive.value in byName[history[i].name].archives;
    }
  }

  lemma UnexplainedHasNoOwner(service: seq<Pin>, backend: seq<Pin>, s: Releases, b: Releases, c: Candidate,
                              digests: map<nat, Hash>)
    requires Records(service, s) && Grounded(service, s) && Records(backend, b) && Grounded(backend, b)
    requires s.Keys !! b.Keys && c.inode in digests
    ensures Unexplained(service, backend, c, digests) <==> !c.legacy && FileOf(c, digests, s + b).None?
  {
    hide Records, Grounded, PinnedFor;
    var h := digests[c.inode];
    forall n | n in c.owners
      ensures n in s + b && h in (s + b)[n].archives <==> PinnedFor(service, n, h) || PinnedFor(backend, n, h)
    {
      ArchivesArePinned(service, s, n, h);
      ArchivesArePinned(backend, b, n, h);
    }
  }

  /** When each release's defining image was first pinned, in the history that records the release. */
  function Availability(s: Catalog, b: Catalog): (available: map<Name, int>)
    ensures forall n :: n in available <==> (n in s.byName && n.image in s.firstPin) || (n in b.byName && n.image in b.firstPin)
    ensures forall n | n in s.byName && n !in b.byName && n.image in s.firstPin :: available[n] == s.firstPin[n.image]
    ensures forall n | n in b.byName && n !in s.byName && n.image in b.firstPin :: available[n] == b.firstPin[n.image]
  {
    (map n | n in s.byName && n.image in s.firstPin :: s.firstPin[n.image])
    + map n | n in b.byName && n.image in b.firstPin :: b.firstPin[n.image]
  }

  /** The host's releases and first pins are those of the two catalogs, and its archives those of the candidates. */
  ghost predicate Gathered(service: seq<Pin>, backend: seq<Pin>, skip: set<Image>, candidates: seq<Candidate>,
                           digests: map<nat, Hash>, inventory: Inventory, kept: set<Name>, s: Catalog, b: Catalog, h: Host)
    requires forall c | c in candidates :: c.inode in digests
  {
    && Records(service, s.byName) && Grounded(service, s.byName) && PinsFirst(service, s.firstPin, skip)
    && Records(backend, b.byName) && Grounded(backend, b.byName) && PinsFirst(backend, b.firstPin, {})
    && CutBy(service, s.byName) && CutBy(backend, b.byName)
    && h == Host(s.byName + b.byName, kept, Availability(s, b), b.firstPin + s.firstPin, inventory.images, inventory.ours,
                 inventory.inUse, inventory.base, h.archives)
    && forall a :: a in h.archives <==> exists c :: c in candidates && FileOf(c, digests, h.releases) == Some(a)
  }

  /**
   * A whole collection, from the lock histories to the last removal, loses nothing that a kept or
   * referenced release needs. It is refused exactly when a history is, or when some file carries a
   * release's name without its bytes; if nothing changed meanwhile, it removes all it may.
   * `order` is the order in which the images are gone through.
   */
  method CollectHost(service: seq<Pin>, backend: seq<Pin>, skip: set<Image>, candidates: seq<Candidate>,
                     digests: map<nat, Hash>, inventory: Inventory, kept: set<Name>, evidence: Evidence,
                     order: seq<Image>, changed: Removal -> bool)
    returns (h: Option<Host>, machine: Machine?, ghost s: Catalog, ghost b: Catalog)
    requires PinsOf(service, backend)
    requires forall c | c in candidates :: c.inode in digests
    requires forall i :: i in order <==> i in inventory.images
    ensures h.Some? <==> machine != null
    ensures h.None? <==> Refused(service) || Refused(backend)
                         || exists c :: c in candidates && Unexplained(service, backend, c, digests)
    ensures h.Some? ==>
              && Gathered(service, backend, skip, candidates, digests, inventory, kept, s, b, h.value)
              && Sound(h.value, digests)
              && Deleted(h.value, evidence, machine.images, machine.files)
              && NothingLost(h.value, evidence, machine.images, machine.files)
    ensures h.Some? && (forall r :: !changed(r)) ==>
              && (forall i :: i in machine.images <==> i in inventory.images && !Collectable(h.value, evidence, i))
              && (forall a :: a in machine.files <==>
                    a in h.value.archives && Stays(h.value.archives, Held(h.value, evidence), a))
  {
    hide Records, Grounded, PinsFirst, CutBy, Verified, Deleted, Stays, Collectable, Held, Recoverable, Referenced, Marked,
      UnderTheirNames, Availability, PinnedFor, Unexplained, NothingLost, OneOwner, FileOf;
    s, b := Catalog([], map[], map[]), Catalog([], map[], map[]);
    var services := BuildCatalog(service, skip);
    var backends := BuildCatalog(backend, {});
    if services.None? || backends.None? {
      return None, null, s, b;
    }
    s, b := services.value, backends.value;
    var releases := services.value.byName + backends.value.byName;
    SeparateCatalogs(service, backend, services.value.byName, backends.value.byName);
    forall c | c in candidates {
      UnexplainedHasNoOwner(service, backend, s.byName, b.byName, c, digests);
    }
    var archives := IdentifyArchives(candidates, digests, releases);
    if archives.None? {
      return None, null, s, b;
    }
    var host := Host(releases, kept, Availability(services.value, backends.value),
                     backends.value.firstPin + services.value.firstPin, inventory.images, inventory.ours,
                     inventory.inUse, inventory.base, archives.value);
    var stays, collect := Evaluate(host, evidence);
    var chosen: seq<Image> := [];
    for k := 0 to |order|
      invariant forall i :: i in chosen <==> i in order[..k] && i in collect
    {
      if order[k] in collect {
        chosen := chosen + [order[k]];
      }
    }
    assert order[..|order|] == order;
    var marked := MarkedFiles(host, evidence, host.archives) + MarkedImages(host, evidence, chosen);
    machine := new Machine(host);
    ghost var done := machine.Delete(host, evidence, marked, changed);
    AllOfNothingLost(host, digests, evidence, machine.images, machine.files);
    if forall r :: !changed(r) {
      assert marked[..done] == marked;
      AllRemoved(host, evidence, chosen);
    }
    h := Some(host);
  }

  lemma AllRemoved(h: Host, evidence: Evidence, chosen: seq<Image>)
    requires forall i :: i in chosen <==> Collectable(h, evidence, i)
    ensures var marked := MarkedFiles(h, evidence, h.archives) + MarkedImages(h, evidence, chosen);
            && (forall i :: i in h.images - RemovedImages(marked) <==> i in h.images && !Collectable(h, evidence, i))
            && (forall a :: a in (set a | a in h.archives) - RemovedFiles(marked) <==>
                  a in h.archives && Stays(h.archives, Held(h, evidence), a))
  {
    hide Stays, Collectable, Held, Marked;
    var marked := MarkedFiles(h, evidence, h.archives) + MarkedImages(h, evidence, chosen);
    forall i | i in chosen ensures i in RemovedImages(marked) {
      assert RemoveImage(i) in marked;
    }
    forall a | a in h.archives && !Stays(h.archives, Held(h, evidence), a) ensures a in RemovedFiles(marked) {
      assert RemoveFile(a) in marked;
    }
  }

  lemma AllOfNothingLost(h: Host, digests: map<nat, Hash>, evidence: Evidence, images: set<Image>, files: set<ArchiveFile>)
    requires Sound(h, digests) && Deleted(h, evidence, images, files) && UnderTheirNames(h.releases)
    ensures NothingLost(h, evidence, images, files)
  {
    hide Sound, Deleted, Recoverable, Referenced, NeededBy;
    forall r, image | r in h.releases && (r in h.kept || NeededBy(evidence, h.releases, h.available, r))
                      && image in h.releases[r].images.Values
                      && (image in h.images || exists a :: a in h.archives && a.release == r)
      ensures Recoverable(h, images, files, image)
    {
      ReferencedExactly(h.releases, h.available, evidence, r);
      NothingHeldIsLost(h, digests, evidence, images, files, r, image);
    }
  }
}
