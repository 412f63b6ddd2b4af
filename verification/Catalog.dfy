/** Releases, as the lock histories record them (scripts/collect.py). */
module Catalog {
  import opened Wrappers

  type Hash = string
  type Image = string

  /** The identity a release's archive name and tags carry. */
  datatype Name = ServiceName(implementation: string, image: Image) | BackendName(version: string, image: Image)

  /**
   * One recorded lock state. `malformed` states are refused outright, and a state that is not
   * `complete` is refused where it pins a new archive.
   */
  datatype Pin = Pin(when: int, commit: string, archive: Option<Hash>, malformed: bool, complete: bool, name: Name,
                     images: map<string, Image>, backendImage: Option<Image>)

  datatype Release = Release(name: Name, images: map<string, Image>, archives: seq<Hash>, cutAt: int, cutCommit: string,
                             backendImage: Option<Image>)

  datatype Catalog = Catalog(order: seq<Name>, byName: map<Name, Release>, firstPin: map<Image, int>)

  /** The state at which an archive hash first appears; later ones carry the pin forward. */
  predicate First(history: seq<Pin>, i: nat) {
    && i < |history| && history[i].archive.Some?
    && forall j | 0 <= j < i :: history[j].archive != history[i].archive
  }

  /** States `i` and `j` first pin archives under one identity, but for different images. */
  predicate Clash(history: seq<Pin>, i: nat, j: nat) {
    && First(history, i) && First(history, j) && history[i].name == history[j].name
    && history[i].images != history[j].images
  }

  predicate Refused(history: seq<Pin>) {
    || (exists i | 0 <= i < |history| :: history[i].malformed)
    || (exists i | 0 <= i < |history| :: First(history, i) && !history[i].complete)
    || (exists i, j | 0 <= i < j < |history| :: Clash(history, i, j))
  }

  /** Every first pin is recorded in the release of its name, with exactly the images it pinned. */
  predicate Records(history: seq<Pin>, byName: map<Name, Release>) {
    forall i | 0 <= i < |history| && First(history, i) ::
      && history[i].name in byName
      && history[i].archive.value in byName[history[i].name].archives
      && byName[history[i].name].images == history[i].images
  }

  /** Every recorded archive comes from a first pin under its release's name. */
  ghost predicate Grounded(history: seq<Pin>, byName: map<Name, Release>) {
    forall n | n in byName ::
      && byName[n].name == n && byName[n].archives != []
      && forall h | h in byName[n].archives ::
           exists i | 0 <= i < |history| :: First(history, i) && history[i].name == n && history[i].archive == Some(h)
  }

  /** The first state that pins an archive under its name: the cut of that release. */
  predicate Cuts(history: seq<Pin>, i: nat) {
    First(history, i) && forall j | 0 <= j < i && First(history, j) :: history[j].name != history[i].name
  }

  /** `r` has the time, the commit, the backend and the first archive of `pin`. */
  predicate CutAs(r: Release, pin: Pin) {
    && r.cutAt == pin.when && r.cutCommit == pin.commit && r.backendImage == pin.backendImage
    && r.archives != [] && Some(r.archives[0]) == pin.archive
  }

  /** Every release is as its cut says. */
  ghost predicate CutBy(history: seq<Pin>, byName: map<Name, Release>) {
    forall i | 0 <= i < |history| && Cuts(history, i) ::
      history[i].name in byName && CutAs(byName[history[i].name], history[i])
  }

  /** The names of the releases, in the order of their cuts. */
  function CutNames(history: seq<Pin>): seq<Name> {
    if history == [] then []
    else
      var k := |history| - 1;
      CutNames(history[..k]) + if Cuts(history, k) then [history[k].name] else []
  }

  /** The first state whose images include `image`. */
  predicate FirstWith(history: seq<Pin>, i: nat, image: Image) {
    && i < |history| && image in history[i].images.Values
    && forall j | 0 <= j < i :: image !in history[j].images.Values
  }

  ghost predicate PinsFirst(history: seq<Pin>, firstPin: map<Image, int>, skip: set<Image>) {
    && (forall image | image in firstPin ::
          && image !in skip
          && exists i | 0 <= i < |history| :: FirstWith(history, i, image) && firstPin[image] == history[i].when)
    && (forall i, image | 0 <= i < |history| && image in history[i].images.Values && image !in skip :: image in firstPin)
  }

  ghost predicate Ordered(order: seq<Name>, byName: map<Name, Release>) {
    && (forall n :: n in order <==> n in byName)
    && (forall i, j | 0 <= i < j < |order| :: order[i] != order[j])
  }

  function WithPin(r: Release, h: Hash): Release {
    r.(archives := r.archives + [h])
  }

  lemma FirstOfPrefix(history: seq<Pin>, i: nat, k: nat)
    requires i < k <= |history|
    ensures First(history[..k], i) <==> First(history, i)
  {
    assert forall j | 0 <= j <= i :: history[..k][j] == history[j];
  }

  lemma CutOfPrefix(history: seq<Pin>, i: nat, k: nat)
    requires i < k <= |history|
    ensures Cuts(history[..k], i) <==> Cuts(history, i)
  {
    forall j | 0 <= j <= i ensures First(history[..k], j) <==> First(history, j) {
      FirstOfPrefix(history, j, k);
    }
  }

  /** A state cuts a release exactly when it pins a new archive under a name not recorded yet. */
  lemma CutsExactly(history: seq<Pin>, k: nat, byName: map<Name, Release>)
    requires k < |history| && Records(history[..k], byName) && Grounded(history[..k], byName)
    ensures Cuts(history, k) <==> First(history, k) && history[k].name !in byName
  {
    hide Records, Grounded;
    KnownImages(history, k, byName);
  }

  lemma CutByStep(history: seq<Pin>, k: nat, before: map<Name, Release>)
    requires k < |history| && CutBy(history[..k], before)
    requires Cuts(history, k) <==> First(history, k) && history[k].name !in before
    ensures CutBy(history[..k + 1], if First(history, k) then Enter(before, history[k]) else before)
  {
    hide Cuts;
    var longer := history[..k + 1];
    CutOfPrefix(history, k, k + 1);
    var after := if First(history, k) then Enter(before, history[k]) else before;
    forall i | 0 <= i <= k && Cuts(longer, i) ensures longer[i].name in after && CutAs(after[longer[i].name], longer[i]) {
      if i < k {
        CutOfPrefix(history, i, k);
        CutOfPrefix(history, i, k + 1);
        assert Cuts(history[..k], i) && history[..k][i] == longer[i];
      }
    }
  }

  lemma CutNamesStep(history: seq<Pin>, k: nat)
    requires k < |history|
    ensures CutNames(history[..k + 1]) == CutNames(history[..k]) + if Cuts(history, k) then [history[k].name] else []
  {
    hide Cuts;
    CutOfPrefix(history, k, k + 1);
    assert history[..k + 1][..k] == history[..k];
  }

  lemma CutStep(history: seq<Pin>, k: nat, before: map<Name, Release>, after: map<Name, Release>)
    requires k < |history| && CutBy(history[..k], before)
    requires Records(history[..k], before) && Grounded(history[..k], before)
    requires First(history, k) ==> after == Enter(before, history[k])
    requires !First(history, k) ==> after == before
    ensures CutBy(history[..k + 1], after)
    ensures CutNames(history[..k + 1])
            == CutNames(history[..k]) + if First(history, k) && history[k].name !in before then [history[k].name] else []
  {
    hide *;
    CutsExactly(history, k, before);
    CutByStep(history, k, before);
    CutNamesStep(history, k);
  }

  lemma RecordsStep(history: seq<Pin>, k: nat, before: map<Name, Release>, after: map<Name, Release>)
    requires k < |history| && Records(history[..k], before)
    requires forall n | n in before ::
               && n in after && after[n].images == before[n].images
               && forall h | h in before[n].archives :: h in after[n].archives
    requires First(history, k) ==>
               && history[k].name in after && history[k].archive.value in after[history[k].name].archives
               && after[history[k].name].images == history[k].images
    ensures Records(history[..k + 1], after)
  {
    forall i | 0 <= i < k + 1 && First(history[..k + 1], i)
      ensures history[i].name in after && history[i].archive.value in after[history[i].name].archives
              && after[history[i].name].images == history[i].images
    {
      FirstOfPrefix(history, i, k + 1);
      if i < k {
        FirstOfPrefix(history, i, k);
        assert First(history[..k], i) && history[..k][i] == history[i];
      }
    }
  }

  lemma GroundedStep(history: seq<Pin>, k: nat, before: map<Name, Release>, after: map<Name, Release>)
    requires k < |history| && Grounded(history[..k], before)
    requires forall n | n in after ::
               && after[n].name == n && after[n].archives != []
               && forall h | h in after[n].archives ::
                    || (n in before && h in before[n].archives)
                    || (First(history, k) && history[k].name == n && history[k].archive == Some(h))
    ensures Grounded(history[..k + 1], after)
  {
    var longer := history[..k + 1];
    forall n, h | n in after && h in after[n].archives
      ensures exists i | 0 <= i < |longer| :: First(longer, i) && longer[i].name == n && longer[i].archive == Some(h)
    {
      if n in before && h in before[n].archives {
        var i :| 0 <= i < k && First(history[..k], i) && history[..k][i].name == n && history[..k][i].archive == Some(h);
        FirstOfPrefix(history, i, k);
        FirstOfPrefix(history, i, k + 1);
        assert First(longer, i) && longer[i].name == n && longer[i].archive == Some(h);
      } else {
        FirstOfPrefix(history, k, k + 1);
        assert First(longer, k) && longer[k].name == n && longer[k].archive == Some(h);
      }
    }
  }

  function NewPins(pin: Pin, skip: set<Image>): map<Image, int> {
    map image | image in pin.images.Values && image !in skip :: pin.when
  }

  lemma PinsStep(history: seq<Pin>, k: nat, firstPin: map<Image, int>, skip: set<Image>)
    requires k < |history| && PinsFirst(history[..k], firstPin, skip)
    ensures PinsFirst(history[..k + 1], NewPins(history[k], skip) + firstPin, skip)
  {
    var longer := history[..k + 1];
    var pins := NewPins(history[k], skip) + firstPin;
    forall image | image in pins
      ensures image !in skip
              && exists i | 0 <= i < |longer| :: FirstWith(longer, i, image) && pins[image] == longer[i].when
    {
      if image in firstPin {
        var i :| 0 <= i < k && FirstWith(history[..k], i, image) && firstPin[image] == history[..k][i].when;
        assert forall j | 0 <= j <= i :: longer[j] == history[..k][j];
        assert FirstWith(longer, i, image);
      } else {
        assert forall j | 0 <= j < k :: history[..k][j] == longer[j];
        assert FirstWith(longer, k, image);
      }
    }
    forall i, image | 0 <= i < |longer| && image in longer[i].images.Values && image !in skip ensures image in pins {
      if i < k {
        assert longer[i] == history[..k][i];
      }
    }
  }

  /** A state that pins nothing new leaves the releases as they are. */
  lemma Carried(history: seq<Pin>, k: nat, byName: map<Name, Release>)
    requires k < |history| && !First(history, k)
    requires Records(history[..k], byName) && Grounded(history[..k], byName)
    ensures Records(history[..k + 1], byName) && Grounded(history[..k + 1], byName)
  {
    RecordsStep(history, k, byName, byName);
    assert forall n | n in byName :: byName[n].name == n && byName[n].archives != [];
    GroundedStep(history, k, byName, byName);
  }

  /** The images of a known name are those of the first pins under it, and there is one. */
  lemma KnownImages(history: seq<Pin>, k: nat, byName: map<Name, Release>)
    requires k < |history| && Records(history[..k], byName) && Grounded(history[..k], byName)
    ensures forall j | 0 <= j < k && First(history, j) ::
              history[j].name in byName && byName[history[j].name].images == history[j].images
    ensures history[k].name in byName ==>
              exists j | 0 <= j < k :: First(history, j) && history[j].name == history[k].name
  {
    forall j | 0 <= j < k && First(history, j)
      ensures history[j].name in byName && byName[history[j].name].images == history[j].images
    {
      FirstOfPrefix(history, j, k);
      assert First(history[..k], j) && history[..k][j] == history[j];
    }
    var n := history[k].name;
    if n in byName {
      var h := byName[n].archives[0];
      assert h in byName[n].archives;
      var i :| 0 <= i < k && First(history[..k], i) && history[..k][i].name == n && history[..k][i].archive == Some(h);
      FirstOfPrefix(history, i, k);
      assert First(history, i) && history[i].name == n;
    }
  }

  /** The releases once `pin`, which pins a new archive, has been entered. */
  function Enter(byName: map<Name, Release>, pin: Pin): map<Name, Release>
    requires pin.archive.Some?
  {
    if pin.name in byName then byName[pin.name := WithPin(byName[pin.name], pin.archive.value)]
    else byName[pin.name := Release(pin.name, pin.images, [pin.archive.value], pin.when, pin.commit, pin.backendImage)]
  }

  lemma EnterKeeps(history: seq<Pin>, k: nat, byName: map<Name, Release>)
    requires First(history, k) && Records(history[..k], byName) && Grounded(history[..k], byName)
    requires history[k].name in byName ==> byName[history[k].name].images == history[k].images
    ensures Records(history[..k + 1], Enter(byName, history[k]))
    ensures Grounded(history[..k + 1], Enter(byName, history[k]))
  {
    var pin := history[k];
    var after := Enter(byName, pin);
    RecordsStep(history, k, byName, after);
    assert forall n | n in byName :: byName[n].name == n && byName[n].archives != [];
    GroundedStep(history, k, byName, after);
  }

  /** What the pins before `k` do not do: they are well-formed, and no two of them clash. */
  ghost predicate Sound(history: seq<Pin>, k: nat) {
    && k <= |history|
    && (forall i | 0 <= i < k :: !history[i].malformed && (First(history, i) ==> history[i].complete))
    && (forall i, j | 0 <= i < j < k :: !Clash(history, i, j))
  }

  lemma SoundStep(history: seq<Pin>, k: nat, byName: map<Name, Release>)
    requires k < |history| && Sound(history, k) && !history[k].malformed && (First(history, k) ==> history[k].complete)
    requires Records(history[..k], byName) && Grounded(history[..k], byName)
    ensures First(history, k) && history[k].name in byName && byName[history[k].name].images != history[k].images ==>
              Refused(history)
    ensures !(First(history, k) && history[k].name in byName && byName[history[k].name].images != history[k].images) ==>
              Sound(history, k + 1)
  {
    KnownImages(history, k, byName);
    if First(history, k) && history[k].name in byName && byName[history[k].name].images != history[k].images {
      var j :| 0 <= j < k && First(history, j) && history[j].name == history[k].name;
      assert Clash(history, j, k);
    }
  }

  ghost predicate Seen(history: seq<Pin>, k: nat, seen: set<Hash>) {
    k <= |history| && forall h :: h in seen <==> exists j | 0 <= j < k :: history[j].archive == Some(h)
  }

  lemma SeenStep(history: seq<Pin>, k: nat, seen: set<Hash>)
    requires k < |history| && Seen(history, k, seen)
    ensures First(history, k) <==> history[k].archive.Some? && history[k].archive.value !in seen
    ensures history[k].archive.Some? ==> Seen(history, k + 1, seen + {history[k].archive.value})
    ensures history[k].archive.None? ==> Seen(history, k + 1, seen)
  {
    if history[k].archive.Some? {
      var h := history[k].archive.value;
      assert history[k].archive == Some(h);
      if h in seen {
        var j :| 0 <= j < k && history[j].archive == Some(h);
      }
      var after := seen + {h};
      forall g ensures g in after <==> exists j | 0 <= j < k + 1 :: history[j].archive == Some(g) {
        if g in seen {
          var j :| 0 <= j < k && history[j].archive == Some(g);
        }
      }
    }
  }

  lemma OrderedStep(order: seq<Name>, byName: map<Name, Release>, pin: Pin)
    requires Ordered(order, byName) && pin.archive.Some?
    ensures Ordered(if pin.name in byName then order else order + [pin.name], Enter(byName, pin))
  {
  }

  /** Builds the catalog, or refuses a history whose pins are incomplete or contradict each other. */
  method BuildCatalog(history: seq<Pin>, skip: set<Image>) returns (r: Option<Catalog>)
    ensures r.None? <==> Refused(history)
    ensures r.Some? ==>
              && Records(history, r.value.byName) && Grounded(history, r.value.byName)
              && Ordered(r.value.order, r.value.byName) && PinsFirst(history, r.value.firstPin, skip)
              && CutBy(history, r.value.byName) && r.value.order == CutNames(history)
  {
    hide Records, Grounded, PinsFirst, Ordered, Seen, Sound, Enter, CutBy, Cuts, CutNames;
    var order: seq<Name>, byName: map<Name, Release>, firstPin: map<Image, int>, seen: set<Hash> := [], map[], map[], {};
    EmptyCatalog(history, skip);
    for k := 0 to |history|
      invariant Records(history[..k], byName) && Grounded(history[..k], byName) && Ordered(order, byName)
      invariant PinsFirst(history[..k], firstPin, skip) && Seen(history, k, seen) && Sound(history, k)
      invariant CutBy(history[..k], byName) && order == CutNames(history[..k])
    {
      var pin := history[k];
      if pin.malformed {
        return None;
      }
      PinsStep(history, k, firstPin, skip);
      SeenStep(history, k, seen);
      firstPin := NewPins(pin, skip) + firstPin;
      if pin.archive.None? || pin.archive.value in seen {
        Carried(history, k, byName);
        CutStep(history, k, byName, byName);
        SoundStep(history, k, byName);
        if pin.archive.Some? {
          assert seen + {pin.archive.value} == seen;
        }
      } else {
        seen := seen + {pin.archive.value};
        if !pin.complete {
          return None;
        }
        SoundStep(history, k, byName);
        if pin.name in byName && byName[pin.name].images != pin.images {
          return None;
        }
        EnterKeeps(history, k, byName);
        OrderedStep(order, byName, pin);
        CutStep(history, k, byName, Enter(byName, pin));
        if pin.name !in byName {
          order := order + [pin.name];
        }
        byName := Enter(byName, pin);
      }
    }
    assert history[..|history|] == history;
    SoundIsNotRefused(history);
    return Some(Catalog(order, byName, firstPin));
  }

  lemma SoundIsNotRefused(history: seq<Pin>)
    requires Sound(history, |history|)
    ensures !Refused(history)
  {
  }

  lemma EmptyCatalog(history: seq<Pin>, skip: set<Image>)
    ensures Records(history[..0], map[]) && Grounded(history[..0], map[]) && PinsFirst(history[..0], map[], skip)
    ensures Ordered([], map[]) && Seen(history, 0, {}) && Sound(history, 0)
    ensures CutBy(history[..0], map[]) && CutNames(history[..0]) == []
  {
  }

  /** No archive hash belongs to two releases, and each stands for the images it was first pinned with. */
  lemma ArchivesHaveOneOwner(history: seq<Pin>, byName: map<Name, Release>, a: Name, b: Name, h: Hash)
    requires Records(history, byName) && Grounded(history, byName)
    requires a in byName && b in byName && h in byName[a].archives && h in byName[b].archives
    ensures a == b
  {
    var i :| 0 <= i < |history| && First(history, i) && history[i].name == a && history[i].archive == Some(h);
    var j :| 0 <= j < |history| && First(history, j) && history[j].name == b && history[j].archive == Some(h);
    assert !(i < j) && !(j < i);
  }
}
