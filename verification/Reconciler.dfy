// The orchestrator and the container manager it drives (orchestrator.go,
// app.go:279-313, container.go).
module Reconciler {
  import opened Text
  import opened Images
  import opened Deployment
  import opened Diffing
  import opened Positions

  const UNMANAGED_PREFIX := "/carisma-keep-"

  predicate Up(c: Container) {
    HasPrefix(c.status, "Up")
  }

  predicate Managed(c: Container) {
    !HasPrefix(c.firstName, UNMANAGED_PREFIX) && Up(c)
  }

  // The managed containers of a list, in its order.
  function ManagedOf(cs: seq<Container>): seq<Container> {
    if cs == [] then []
    else ManagedOf(cs[..|cs| - 1]) + if Managed(cs[|cs| - 1]) then [cs[|cs| - 1]] else []
  }

  // The images the managed containers run, and the containers the filter drops.
  function ManagedImages(cs: seq<Container>): multiset<Image> {
    if cs == [] then multiset{}
    else
      var c := cs[|cs| - 1];
      ManagedImages(cs[..|cs| - 1]) + if Managed(c) then multiset{ParseImageName(c.image)} else multiset{}
  }

  function Others(cs: seq<Container>): multiset<Container> {
    if cs == [] then multiset{}
    else Others(cs[..|cs| - 1]) + if Managed(cs[|cs| - 1]) then multiset{} else multiset{cs[|cs| - 1]}
  }

  lemma {:induction false} ManagedImagesListed(cs: seq<Container>)
    ensures ManagedImages(cs) == multiset(ImagesOf(ManagedOf(cs)))
  {
    if cs != [] {
      var before, c := ManagedOf(cs[..|cs| - 1]), cs[|cs| - 1];
      ManagedImagesListed(cs[..|cs| - 1]);
      if Managed(c) {
        assert ImagesOf(before + [c]) == ImagesOf(before) + [ParseImageName(c.image)];
      } else {
        assert ManagedOf(cs) == before;
      }
    }
  }

  lemma {:induction false} ContentsOfConcat(a: seq<Container>, b: seq<Container>)
    ensures ManagedImages(a + b) == ManagedImages(a) + ManagedImages(b)
    ensures Others(a + b) == Others(a) + Others(b)
  {
    if b == [] {
      assert a + b == a;
    } else {
      assert (a + b)[..|a + b| - 1] == a + b[..|b| - 1];
      ContentsOfConcat(a, b[..|b| - 1]);
    }
  }

  // One container more, anywhere in the list.
  lemma AddContainer(a: seq<Container>, c: Container, b: seq<Container>)
    ensures Managed(c) ==>
      ManagedImages(a + [c] + b) == ManagedImages(a + b) + multiset{ParseImageName(c.image)} && Others(a + [c] + b) == Others(a + b)
    ensures !Managed(c) ==> c in Others(a + [c] + b)
  {
    ContentsOfConcat(a, b);
    ContentsOfConcat(a + [c], b);
    ContentsOfConcat(a, [c]);
    assert [c][..0] == [];
  }

  // What the two prefix tests decide, in terms of the texts.
  ghost predicate UpAndOurs(c: Container) {
    (exists rest: string :: c.status == "Up" + rest) && !exists rest: string :: c.firstName == "/carisma-keep-" + rest
  }

  lemma ManagedIs(c: Container)
    ensures Managed(c) <==> UpAndOurs(c)
  {
    PrefixIs(c.status, "Up");
    PrefixIs(c.firstName, "/carisma-keep-");
  }

  lemma {:induction false} ManagedInOrder(cs: seq<Container>) returns (at: seq<nat>)
    ensures Selects(ManagedOf(cs), cs, at)
    ensures forall t: nat :: t in at <==> t < |cs| && UpAndOurs(cs[t])
  {
    at := [];
    if cs != [] {
      var before, last := cs[..|cs| - 1], cs[|cs| - 1];
      at := ManagedInOrder(before);
      ManagedIs(last);
      at := SelectNext(ManagedOf(before), before, at, last, Managed(last));
      assert before + [last] == cs;
    }
  }

  // The filter loop of process and of the actual-state report: an in-place,
  // stable compaction. A container stays exactly if its status begins with
  // "Up" and its name does not begin with "/carisma-keep-".
  method CompactManaged(a: array<Container>) returns (idx: nat, ghost at: seq<nat>)
    modifies a
    ensures idx <= a.Length && a[..idx] == ManagedOf(old(a[..]))
    ensures Selects(a[..idx], old(a[..]), at)
    ensures forall t :: 0 <= t < a.Length ==> (t in at <==> UpAndOurs(old(a[..])[t]))
  {
    idx := 0;
    assert old(a[..])[..0] == [];
    for k := 0 to a.Length
      invariant idx <= k
      invariant a[..idx] == ManagedOf(old(a[..])[..k])
      invariant forall j :: k <= j < a.Length ==> a[j] == old(a[j])
    {
      var c := a[k];
      assert old(a[..])[..k + 1][..k] == old(a[..])[..k];
      if !HasPrefix(c.firstName, UNMANAGED_PREFIX) && HasPrefix(c.status, "Up") {
        a[idx] := c;
        idx := idx + 1;
      }
    }
    assert old(a[..])[..a.Length] == old(a[..]);
    at := ManagedInOrder(old(a[..]));
  }

  // ------------------------------------------------------- the manager

  // A call that returned without an error, with its results.
  datatype Call = Remove(name: string, bundleID: string, port: int) | Pull(name: string, bundleID: string, port: int)

  // No running container outside of the orchestrator's care has the image.
  ghost predicate Exclusive(others: multiset<Container>, i: Image) {
    forall c :: c in others && Up(c) ==> ParseImageName(c.image) != i
  }

  predicate Runs(c: Container, i: Image) {
    Up(c) && ParseImageName(c.image) == i
  }

  lemma {:induction false} NoManagedImage(cs: seq<Container>, i: Image)
    requires forall k :: 0 <= k < |cs| ==> !Runs(cs[k], i)
    ensures i !in ManagedImages(cs)
  {
    if cs != [] {
      assert !Runs(cs[|cs| - 1], i);
      assert forall k :: 0 <= k < |cs| - 1 ==> cs[..|cs| - 1][k] == cs[k];
      NoManagedImage(cs[..|cs| - 1], i);
    }
  }

  // One container less: if only managed ones run the image, a managed one.
  lemma TakeContainer(a: seq<Container>, c: Container, b: seq<Container>, i: Image)
    requires Runs(c, i) && Exclusive(Others(a + [c] + b), i)
    ensures ManagedImages(a + b) == ManagedImages(a + [c] + b) - multiset{i}
    ensures Others(a + b) == Others(a + [c] + b)
  {
    AddContainer(a, c, b);
  }

  // An abstract container engine. A reliable one answers without errors;
  // otherwise a call may fail and leave any state behind.
  class ContainerManager {
    const reliable: bool
    var containers: seq<Container>
    var calls: seq<Call>

    constructor (reliable: bool, containers: seq<Container>)
      ensures this.reliable == reliable && this.containers == containers && calls == []
    {
      this.reliable, this.containers, calls := reliable, containers, [];
    }

    method Containers() returns (r: array?<Container>)
      ensures reliable ==> r != null
      ensures r != null ==> fresh(r) && r[..] == containers
    {
      var fails: bool := *;
      if !reliable && fails {
        return null;
      }
      var list := containers;
      r := new Container[|list|](k requires 0 <= k < |list| => list[k]);
    }

    // Some new container of the image runs, listed at any place.
    method PullImageAndCreateContainer(name: string) returns (bundleID: string, port: int, ok: bool)
      modifies this
      ensures reliable ==> ok
      ensures calls == old(calls) + if ok then [Pull(name, bundleID, port)] else []
      ensures ok ==> ManagedImages(containers) == old(ManagedImages(containers)) + multiset{ParseImageName(name)}
      ensures ok ==> Others(containers) == old(Others(containers))
    {
      bundleID, port, ok := *, *, true;
      var fails: bool := *;
      if !reliable && fails {
        ok, containers := false, *;
        return;
      }
      var pos :| 0 <= pos <= |containers|;
      assert Managed(Container("", "", name, "", "Up"));
      var c: Container :| Managed(c) && c.image == name;
      AddContainer(containers[..pos], c, containers[pos..]);
      assert containers[..pos] + containers[pos..] == containers;
      containers := containers[..pos] + [c] + containers[pos..];
      calls := calls + [Pull(name, bundleID, port)];
    }

    // Some running container of the image is gone.
    method RemoveImageAndContainer(name: string, verifyBundleConfig: bool) returns (bundleID: string, port: int, ok: bool)
      modifies this
      ensures reliable && ParseImageName(name) in old(ManagedImages(containers)) ==> ok
      ensures calls == old(calls) + if ok then [Remove(name, bundleID, port)] else []
      ensures ok && Exclusive(old(Others(containers)), ParseImageName(name)) ==>
        ManagedImages(containers) == old(ManagedImages(containers)) - multiset{ParseImageName(name)}
        && Others(containers) == old(Others(containers))
      ensures reliable && !ok ==> containers == old(containers)
    {
      bundleID, port, ok := *, *, true;
      var fails: bool := *;
      if !reliable && fails {
        ok, containers := false, *;
        return;
      }
      var k := FindRunning(ParseImageName(name));
      if k.None? {
        NoManagedImage(containers, ParseImageName(name));
        bundleID, port, ok := "", -1, false;
        return;
      }
      Drop(k.value, ParseImageName(name));
      calls := calls + [Remove(name, bundleID, port)];
    }

    // Some running container of the image, if there is one.
    method FindRunning(image: Image) returns (k: Option<nat>)
      ensures match k
        case Some(i) => i < |containers| && Runs(containers[i], image)
        case None => forall i :: 0 <= i < |containers| ==> !Runs(containers[i], image)
    {
      if i :| 0 <= i < |containers| && Runs(containers[i], image) {
        return Some(i);
      }
      return None;
    }

    method Drop(k: nat, ghost image: Image)
      requires k < |containers| && Runs(containers[k], image)
      modifies this`containers
      ensures Exclusive(old(Others(containers)), image) ==>
        && ManagedImages(containers) == old(ManagedImages(containers)) - multiset{image}
        && Others(containers) == old(Others(containers))
    {
      var a, c, b := containers[..k], containers[k], containers[k + 1..];
      assert containers == a + [c] + b;
      if Exclusive(Others(containers), image) {
        TakeContainer(a, c, b, image);
      }
      containers := a + b;
    }
  }

  // ------------------------------------------------------- the orchestrator

  // What hReg and hUnreg send to the service registry.
  datatype Notice = Notice(registered: bool, bundleID: string, port: int)

  function NoticesOf(calls: seq<Call>): seq<Notice> {
    if calls == [] then []
    else
      var c := calls[|calls| - 1];
      NoticesOf(calls[..|calls| - 1]) + [Notice(c.Pull?, c.bundleID, c.port)]
  }

  // What a sequence of calls asks for: remove (false) or pull (true) a name.
  function Orders(calls: seq<Call>): seq<(bool, string)> {
    if calls == [] then []
    else
      var c := calls[|calls| - 1];
      Orders(calls[..|calls| - 1]) + [(c.Pull?, c.name)]
  }

  function OrdersFor(pull: bool, images: seq<Image>): seq<(bool, string)> {
    if images == [] then []
    else OrdersFor(pull, images[..|images| - 1]) + [(pull, PrintImage(images[|images| - 1]))]
  }

  // The orders of one pass: removals, then pulls.
  function PassOrders(envoy: string, want: seq<Image>, curr: seq<Image>): seq<(bool, string)> {
    OrdersFor(false, Removals(envoy, want, curr)) + OrdersFor(true, Additions(want, curr))
  }

  // By position: every call is announced with its own results, ...
  lemma {:induction false} NoticesAt(calls: seq<Call>)
    ensures |NoticesOf(calls)| == |calls|
    ensures forall k :: 0 <= k < |calls| ==> NoticesOf(calls)[k] == Notice(calls[k].Pull?, calls[k].bundleID, calls[k].port)
  {
    if calls != [] {
      NoticesAt(calls[..|calls| - 1]);
    }
  }

  lemma {:induction false} OrdersAt(calls: seq<Call>)
    ensures |Orders(calls)| == |calls| && forall k :: 0 <= k < |calls| ==> Orders(calls)[k] == (calls[k].Pull?, calls[k].name)
  {
    if calls != [] {
      OrdersAt(calls[..|calls| - 1]);
    }
  }

  lemma {:induction false} OrdersForAt(pull: bool, images: seq<Image>)
    ensures |OrdersFor(pull, images)| == |images|
    ensures forall k :: 0 <= k < |images| ==> OrdersFor(pull, images)[k] == (pull, images[k].name + ":" + images[k].version)
  {
    if images != [] {
      OrdersForAt(pull, images[..|images| - 1]);
    }
  }

  // ... and the calls of a pass remove, then pull, one image each.
  ghost predicate CallsFor(done: seq<Call>, removals: seq<Image>, additions: seq<Image>) {
    && |done| == |removals| + |additions|
    && (forall k :: 0 <= k < |removals| ==> done[k].Remove? && done[k].name == removals[k].name + ":" + removals[k].version)
    && forall k :: 0 <= k < |additions| ==>
      done[|removals| + k].Pull? && done[|removals| + k].name == additions[k].name + ":" + additions[k].version
  }

  ghost predicate AnnouncedFrom(before: seq<Notice>, after: seq<Notice>, done: seq<Call>) {
    && |after| == |before| + |done| && before <= after
    && forall k :: 0 <= k < |done| ==> after[|before| + k] == Notice(done[k].Pull?, done[k].bundleID, done[k].port)
  }

  lemma CallsByPosition(done: seq<Call>, removals: seq<Image>, additions: seq<Image>)
    requires Orders(done) == OrdersFor(false, removals) + OrdersFor(true, additions)
    ensures CallsFor(done, removals, additions)
  {
    OrdersAt(done);
    OrdersForAt(false, removals);
    OrdersForAt(true, additions);
    forall k | 0 <= k < |removals| ensures (done[k].Pull?, done[k].name) == OrdersFor(false, removals)[k] {
      assert Orders(done)[k] == OrdersFor(false, removals)[k];
    }
    forall k | 0 <= k < |additions|
      ensures (done[|removals| + k].Pull?, done[|removals| + k].name) == OrdersFor(true, additions)[k]
    {
      assert Orders(done)[|removals| + k] == OrdersFor(true, additions)[k];
    }
  }

  lemma NoticesByPosition(before: seq<Notice>, done: seq<Call>)
    ensures AnnouncedFrom(before, before + NoticesOf(done), done)
  {
    NoticesAt(done);
  }

  lemma CallAppended(calls: seq<Call>, c: Call)
    ensures NoticesOf(calls + [c]) == NoticesOf(calls) + [Notice(c.Pull?, c.bundleID, c.port)]
    ensures Orders(calls + [c]) == Orders(calls) + [(c.Pull?, c.name)]
  {
    assert (calls + [c])[..|calls|] == calls;
  }

  lemma OrderAppended(pull: bool, images: seq<Image>, i: Image)
    ensures OrdersFor(pull, images + [i]) == OrdersFor(pull, images) + [(pull, PrintImage(i))]
  {
    assert (images + [i])[..|images|] == images;
  }

  lemma Regroup<T>(a: seq<T>, b: seq<T>, c: seq<T>)
    ensures (a + b) + c == a + (b + c)
  {
  }

  lemma {:induction false} CallsJoined(a: seq<Call>, b: seq<Call>)
    ensures NoticesOf(a + b) == NoticesOf(a) + NoticesOf(b)
    ensures Orders(a + b) == Orders(a) + Orders(b)
  {
    if b == [] {
      assert a + b == a;
    } else {
      assert (a + b)[..|a + b| - 1] == a + b[..|b| - 1];
      CallsJoined(a, b[..|b| - 1]);
    }
  }

  // ParseFQIN with the configured default domain: an arbitrary partial
  // normalization of image names.
  type Normalizer = string -> Option<string>

  // The desired images of a config: parsed, then normalized; an error in any
  // name makes the whole config fail.
  function Desired(normalize: Normalizer, names: seq<string>): Option<seq<Image>> {
    if names == [] then Some([])
    else
      var i := ParseImageName(names[|names| - 1]);
      match (Desired(normalize, names[..|names| - 1]), normalize(i.name))
      case (Some(images), Some(name)) => Some(images + [Image(name, i.version)])
      case _ => None
  }

  // By position: every name parsed and normalized, the version kept; or one
  // of them has no normal form.
  ghost predicate Normalized(normalize: Normalizer, names: seq<string>, r: Option<seq<Image>>) {
    match r
    case None => exists k :: 0 <= k < |names| && normalize(ParseImageName(names[k]).name).None?
    case Some(images) =>
      |images| == |names| && forall k :: 0 <= k < |names| ==>
        && normalize(ParseImageName(names[k]).name) == Some(images[k].name)
        && images[k].version == ParseImageName(names[k]).version
  }

  lemma {:induction false} DesiredAt(normalize: Normalizer, names: seq<string>)
    ensures Normalized(normalize, names, Desired(normalize, names))
  {
    if names != [] {
      var before := names[..|names| - 1];
      DesiredAt(normalize, before);
      assert forall k :: 0 <= k < |before| ==> before[k] == names[k];
    }
  }

  lemma DesiredStep(normalize: Normalizer, names: seq<string>, k: nat)
    requires k < |names|
    ensures Desired(normalize, names[..k + 1]) ==
      match (Desired(normalize, names[..k]), normalize(ParseImageName(names[k]).name))
      case (Some(images), Some(name)) => Some(images + [Image(name, ParseImageName(names[k]).version)])
      case _ => None
  {
    assert names[..k + 1][..k] == names[..k];
  }

  lemma {:induction false} DesiredPrintable(normalize: Normalizer, names: seq<string>)
    requires Desired(normalize, names).Some?
    ensures |Desired(normalize, names).value| == |names|
    ensures forall i :: i in Desired(normalize, names).value ==> ':' !in i.version
  {
    if names != [] {
      DesiredPrintable(normalize, names[..|names| - 1]);
    }
  }

  lemma {:induction false} DesiredFailsEarly(normalize: Normalizer, names: seq<string>, k: nat)
    requires k <= |names| && Desired(normalize, names[..k]).None?
    ensures Desired(normalize, names).None?
    decreases |names|
  {
    if k < |names| {
      assert names[..|names| - 1][..k] == names[..k];
      DesiredFailsEarly(normalize, names[..|names| - 1], k);
    } else {
      assert names[..k] == names;
    }
  }

  ghost predicate AllExclusive(others: multiset<Container>, curr: seq<Image>) {
    forall i :: i in curr ==> Exclusive(others, i)
  }

  lemma CountGrows(s: seq<Image>, k: nat)
    requires k < |s|
    ensures multiset(s[..k])[s[k]] < multiset(s)[s[k]]
  {
    assert s[..k + 1] == s[..k] + [s[k]];
    assert s == s[..k + 1] + s[k + 1..];
  }

  lemma TakeOneMore(s: seq<Image>, k: nat)
    requires k < |s|
    ensures multiset(s[..k + 1]) == multiset(s[..k]) + multiset{s[k]}
  {
    assert s[..k + 1] == s[..k] + [s[k]];
  }

  // The images left running when the first k removals are done.
  ghost function Left(envoy: string, curr: seq<Image>, removed: seq<Image>, k: nat): multiset<Image>
    requires k <= |removed|
  {
    multiset(curr) - multiset(WithoutEnvoy(envoy, removed[..k]))
  }

  // Before the k-th removal its image still runs, ...
  lemma StillRunning(envoy: string, curr: seq<Image>, removed: seq<Image>, k: nat)
    requires k < |removed| && !IsEnvoy(envoy, removed[k])
    requires multiset(WithoutEnvoy(envoy, removed)) <= multiset(curr)
    ensures removed[k] in curr
    ensures multiset(WithoutEnvoy(envoy, removed[..k]))[removed[k]] < multiset(curr)[removed[k]]
  {
    var i := removed[k];
    WithoutEnvoyCounts(envoy, removed, i);
    WithoutEnvoyCounts(envoy, removed[..k], i);
    CountGrows(removed, k);
    assert multiset(WithoutEnvoy(envoy, removed))[i] <= multiset(curr)[i];
    assert multiset(curr)[i] > 0;
  }

  // ... and one container of it goes.
  lemma OneGoes(envoy: string, curr: seq<Image>, removed: seq<Image>, k: nat)
    requires k < |removed| && !IsEnvoy(envoy, removed[k])
    requires multiset(WithoutEnvoy(envoy, removed)) <= multiset(curr)
    ensures removed[k] in curr && removed[k] in Left(envoy, curr, removed, k)
    ensures Left(envoy, curr, removed, k + 1) == Left(envoy, curr, removed, k) - multiset{removed[k]}
  {
    StillRunning(envoy, curr, removed, k);
    assert removed[..k + 1][..k] == removed[..k];
    var gone := WithoutEnvoy(envoy, removed[..k]);
    assert WithoutEnvoy(envoy, removed[..k + 1]) == gone + [removed[k]];
    TakeFrom(multiset(curr), multiset(gone), removed[k]);
  }

  lemma TakeFrom(all: multiset<Image>, gone: multiset<Image>, i: Image)
    requires gone[i] < all[i]
    ensures all - (gone + multiset{i}) == all - gone - multiset{i}
    ensures i in all - gone
  {
  }

  lemma EnvoyStays(envoy: string, removed: seq<Image>, k: nat)
    requires k < |removed| && IsEnvoy(envoy, removed[k])
    ensures WithoutEnvoy(envoy, removed[..k + 1]) == WithoutEnvoy(envoy, removed[..k])
  {
    assert removed[..k + 1][..k] == removed[..k];
  }

  // How far the removal loop has come after k entries of `removed`.
  ghost predicate RemovedSoFar(envoy: string, curr: seq<Image>, removed: seq<Image>, k: nat, images: multiset<Image>,
      calls0: seq<Call>, calls: seq<Call>, notices0: seq<Notice>, notices: seq<Notice>, done: seq<Call>)
    requires k <= |removed|
  {
    && images == Left(envoy, curr, removed, k)
    && calls == calls0 + done
    && notices == notices0 + NoticesOf(done)
    && Orders(done) == OrdersFor(false, WithoutEnvoy(envoy, removed[..k]))
  }

  lemma RemovalStep(envoy: string, curr: seq<Image>, removed: seq<Image>, k: nat, images: multiset<Image>,
      calls0: seq<Call>, calls: seq<Call>, calls': seq<Call>,
      notices0: seq<Notice>, notices: seq<Notice>, notices': seq<Notice>, done: seq<Call>, step: seq<Call>)
    requires k < |removed| && !IsEnvoy(envoy, removed[k])
    requires multiset(WithoutEnvoy(envoy, removed)) <= multiset(curr)
    requires RemovedSoFar(envoy, curr, removed, k, Left(envoy, curr, removed, k), calls0, calls, notices0, notices, done)
    requires images == Left(envoy, curr, removed, k) - multiset{removed[k]}
    requires calls' == calls + step && notices' == notices + NoticesOf(step)
    requires Orders(step) == [(false, PrintImage(removed[k]))]
    ensures RemovedSoFar(envoy, curr, removed, k + 1, images, calls0, calls', notices0, notices', done + step)
  {
    OneGoes(envoy, curr, removed, k);
    CallsJoined(done, step);
    Regroup(calls0, done, step);
    Regroup(notices0, NoticesOf(done), NoticesOf(step));
    RemovalOrdered(envoy, removed, k);
  }

  lemma RemovalStart(envoy: string, curr: seq<Image>, removed: seq<Image>, calls: seq<Call>, notices: seq<Notice>)
    ensures RemovedSoFar(envoy, curr, removed, 0, multiset(curr), calls, calls, notices, notices, [])
  {
    assert removed[..0] == [];
  }

  lemma RemovalSkip(envoy: string, curr: seq<Image>, removed: seq<Image>, k: nat, images: multiset<Image>,
      calls0: seq<Call>, calls: seq<Call>, notices0: seq<Notice>, notices: seq<Notice>, done: seq<Call>)
    requires k < |removed| && IsEnvoy(envoy, removed[k])
    requires RemovedSoFar(envoy, curr, removed, k, images, calls0, calls, notices0, notices, done)
    ensures RemovedSoFar(envoy, curr, removed, k + 1, images, calls0, calls, notices0, notices, done)
  {
    EnvoyStays(envoy, removed, k);
  }

  lemma RemovalEnd(envoy: string, curr: seq<Image>, removed: seq<Image>, images: multiset<Image>,
      calls0: seq<Call>, calls: seq<Call>, notices0: seq<Notice>, notices: seq<Notice>, done: seq<Call>)
    requires RemovedSoFar(envoy, curr, removed, |removed|, images, calls0, calls, notices0, notices, done)
    ensures images == multiset(curr) - multiset(WithoutEnvoy(envoy, removed))
    ensures Orders(done) == OrdersFor(false, WithoutEnvoy(envoy, removed))
  {
    assert removed[..|removed|] == removed;
  }

  lemma RemovalOrdered(envoy: string, removed: seq<Image>, k: nat)
    requires k < |removed| && !IsEnvoy(envoy, removed[k])
    ensures OrdersFor(false, WithoutEnvoy(envoy, removed[..k + 1]))
      == OrdersFor(false, WithoutEnvoy(envoy, removed[..k])) + [(false, PrintImage(removed[k]))]
  {
    assert removed[..k + 1][..k] == removed[..k];
    OrderAppended(false, WithoutEnvoy(envoy, removed[..k]), removed[k]);
  }

  lemma RemovalsFit(envoy: string, want: seq<Image>, curr: seq<Image>)
    requires forall i :: i in curr ==> ':' !in i.version
    ensures multiset(Removals(envoy, want, curr)) <= multiset(curr)
    ensures forall i :: i in Diff(want, curr) ==> ':' !in i.version
  {
    forall i ensures multiset(Removals(envoy, want, curr))[i] <= multiset(curr)[i] {
      RemovalCounts(envoy, want, curr, i);
    }
    DiffOccurs(want, curr);
  }

  lemma {:induction false} DiffOccurs(a: seq<Image>, b: seq<Image>)
    ensures forall i :: i in Diff(a, b) ==> i in b
  {
    if b != [] {
      DiffOccurs(a, b[..|b| - 1]);
    }
  }

  class Orchestrator {
    const host: string
    const envoy: string
    const normalize: Normalizer
    const cntMgr: ContainerManager
    var notices: seq<Notice>

    constructor (host: string, normalize: Normalizer, cntMgr: ContainerManager)
      ensures this.host == host && this.normalize == normalize && this.cntMgr == cntMgr && notices == []
      ensures envoy == "envoyproxy/envoy"
    {
      EnvoyNameParsed();
      envoy := ParseImageName(ENVOY_NAME + ":" + ENVOY_VERSION).name;
      this.host, this.normalize, this.cntMgr, notices := host, normalize, cntMgr, [];
    }

    // The parsing loop of process ...
    method ParseNames(names: seq<string>) returns (images: array<Image>)
      ensures fresh(images) && images.Length == |names|
      ensures forall k :: 0 <= k < |names| ==> images[k] == ParseImageName(names[k])
    {
      images := new Image[|names|](_ => Image("", ""));
      for idx := 0 to |names|
        invariant forall k :: 0 <= k < idx ==> images[k] == ParseImageName(names[k])
      {
        images[idx] := ParseImageName(names[idx]);
      }
    }

    // ... and the loop that normalizes the names by index.
    method ParseDesired(names: seq<string>) returns (r: Option<seq<Image>>)
      ensures r == Desired(normalize, names)
      ensures Normalized(normalize, names, r)
    {
      var images := ParseNames(names);
      assert names[..0] == [];
      for idx := 0 to |names|
        invariant Desired(normalize, names[..idx]) == Some(images[..idx])
        invariant forall k :: idx <= k < |names| ==> images[k] == ParseImageName(names[k])
      {
        DesiredStep(normalize, names, idx);
        var fqin := normalize(images[idx].name);
        if fqin.None? {
          DesiredFailsEarly(normalize, names, idx + 1);
          DesiredAt(normalize, names);
          return None;
        }
        images[idx] := images[idx].(name := fqin.value);
        assert images[..idx + 1] == images[..idx] + [images[idx]];
      }
      assert names[..|names|] == names && images[..|names|] == images[..];
      DesiredAt(normalize, names);
      r := Some(images[..]);
    }

    // The body of the removal loop, for an image that is not Envoy's.
    method RemoveOne(i: Image) returns (ghost done: seq<Call>)
      requires ':' !in i.version
      modifies this, cntMgr
      ensures cntMgr.reliable && i in old(ManagedImages(cntMgr.containers)) && Exclusive(old(Others(cntMgr.containers)), i) ==>
        && ManagedImages(cntMgr.containers) == old(ManagedImages(cntMgr.containers)) - multiset{i}
        && Others(cntMgr.containers) == old(Others(cntMgr.containers))
        && cntMgr.calls == old(cntMgr.calls) + done
        && notices == old(notices) + NoticesOf(done)
        && Orders(done) == [(false, PrintImage(i))]
    {
      done := [];
      ParseOfPrint(i);
      var bundleID, servicePort, ok := cntMgr.RemoveImageAndContainer(PrintImage(i), true);
      if !ok {
        var _, _, _ := cntMgr.RemoveImageAndContainer(PrintImage(i), false);
        return;
      }
      notices := notices + [Notice(false, bundleID, servicePort)];
      done := [Remove(PrintImage(i), bundleID, servicePort)];
      CallAppended([], done[0]);
      assert [] + [done[0]] == done;
    }

    // The removal loop of process.
    method RemoveAll(removed: seq<Image>, ghost curr: seq<Image>) returns (ghost done: seq<Call>)
      requires forall i :: i in removed ==> ':' !in i.version
      requires ManagedImages(cntMgr.containers) == multiset(curr)
      requires multiset(WithoutEnvoy(envoy, removed)) <= multiset(curr)
      modifies this, cntMgr
      ensures cntMgr.reliable && AllExclusive(old(Others(cntMgr.containers)), curr) ==>
        && ManagedImages(cntMgr.containers) == multiset(curr) - multiset(WithoutEnvoy(envoy, removed))
        && Others(cntMgr.containers) == old(Others(cntMgr.containers))
        && cntMgr.calls == old(cntMgr.calls) + done
        && notices == old(notices) + NoticesOf(done)
        && Orders(done) == OrdersFor(false, WithoutEnvoy(envoy, removed))
    {
      ghost var others := Others(cntMgr.containers);
      ghost var good := cntMgr.reliable && AllExclusive(others, curr);
      done := [];
      RemovalStart(envoy, curr, removed, cntMgr.calls, notices);
      for k := 0 to |removed|
        invariant good ==> Others(cntMgr.containers) == others
        invariant good ==> RemovedSoFar(envoy, curr, removed, k, ManagedImages(cntMgr.containers),
                                        old(cntMgr.calls), cntMgr.calls, old(notices), notices, done)
      {
        var i := removed[k];
        ghost var calls, noticed := cntMgr.calls, notices;
        if IsEnvoy(envoy, i) {
          if good {
            RemovalSkip(envoy, curr, removed, k, ManagedImages(cntMgr.containers),
                        old(cntMgr.calls), calls, old(notices), noticed, done);
          }
          continue;
        }
        OneGoes(envoy, curr, removed, k);
        assert good ==> Exclusive(others, i);
        ghost var step := RemoveOne(i);
        if good {
          RemovalStep(envoy, curr, removed, k, ManagedImages(cntMgr.containers),
                      old(cntMgr.calls), calls, cntMgr.calls, old(notices), noticed, notices, done, step);
        }
        done := done + step;
      }
      if good {
        RemovalEnd(envoy, curr, removed, ManagedImages(cntMgr.containers),
                   old(cntMgr.calls), cntMgr.calls, old(notices), notices, done);
      }
    }

    // The body of the installation loop.
    method PullOne(i: Image) returns (ghost done: seq<Call>)
      requires ':' !in i.version
      modifies this, cntMgr
      ensures cntMgr.reliable ==>
        && ManagedImages(cntMgr.containers) == old(ManagedImages(cntMgr.containers)) + multiset{i}
        && Others(cntMgr.containers) == old(Others(cntMgr.containers))
        && cntMgr.calls == old(cntMgr.calls) + done
        && notices == old(notices) + NoticesOf(done)
        && Orders(done) == [(true, PrintImage(i))]
    {
      done := [];
      ParseOfPrint(i);
      var bundleID, servicePort, ok := cntMgr.PullImageAndCreateContainer(PrintImage(i));
      if !ok {
        return;
      }
      notices := notices + [Notice(true, bundleID, servicePort)];
      done := [Pull(PrintImage(i), bundleID, servicePort)];
      CallAppended([], done[0]);
      assert [] + [done[0]] == done;
    }

    // The installation loop of process.
    method PullAll(added: seq<Image>) returns (ghost done: seq<Call>)
      requires forall i :: i in added ==> ':' !in i.version
      modifies this, cntMgr
      ensures cntMgr.reliable ==>
        && ManagedImages(cntMgr.containers) == old(ManagedImages(cntMgr.containers)) + multiset(added)
        && Others(cntMgr.containers) == old(Others(cntMgr.containers))
        && cntMgr.calls == old(cntMgr.calls) + done
        && notices == old(notices) + NoticesOf(done)
        && Orders(done) == OrdersFor(true, added)
    {
      ghost var images := ManagedImages(cntMgr.containers);
      done := [];
      assert added[..0] == [];
      for k := 0 to |added|
        invariant cntMgr.reliable ==> ManagedImages(cntMgr.containers) == images + multiset(added[..k])
        invariant cntMgr.reliable ==> Others(cntMgr.containers) == old(Others(cntMgr.containers))
        invariant cntMgr.reliable ==> cntMgr.calls == old(cntMgr.calls) + done
        invariant cntMgr.reliable ==> notices == old(notices) + NoticesOf(done)
        invariant cntMgr.reliable ==> Orders(done) == OrdersFor(true, added[..k])
      {
        var i := added[k];
        TakeOneMore(added, k);
        assert added[..k + 1] == added[..k] + [i];
        ghost var step := PullOne(i);
        CallsJoined(done, step);
        Regroup(old(cntMgr.calls), done, step);
        Regroup(old(notices), NoticesOf(done), NoticesOf(step));
        OrderAppended(true, added[..k], i);
        done := done + step;
      }
      assert added[..|added|] == added;
    }

    // The running images the orchestrator looks after, in listing order.
    ghost function RunningImages(): seq<Image>
      reads this, cntMgr
    {
      ImagesOf(ManagedOf(cntMgr.containers))
    }

    // One pass. `done` are the manager calls it made; everything else follows
    // from the desired images and the images that were running.
    method Process(dplmCfg: DeploymentConfig) returns (ok: bool, ghost done: seq<Call>)
      modifies this, cntMgr
      ensures host !in dplmCfg || Desired(normalize, dplmCfg[host].images).None? ==>
        cntMgr.calls == old(cntMgr.calls) && cntMgr.containers == old(cntMgr.containers) && notices == old(notices)
      ensures cntMgr.reliable ==> (ok <==> (host in dplmCfg ==> Desired(normalize, dplmCfg[host].images).Some?))
      ensures cntMgr.reliable && AllExclusive(old(Others(cntMgr.containers)), old(RunningImages())) && host in dplmCfg ==>
        match Desired(normalize, dplmCfg[host].images)
        case None => true
        case Some(want) =>
          && multiset(RunningImages()) == AfterPass(envoy, want, old(RunningImages()))
          && Others(cntMgr.containers) == old(Others(cntMgr.containers))
          && cntMgr.calls == old(cntMgr.calls) + done
          && notices == old(notices) + NoticesOf(done)
          && Orders(done) == PassOrders(envoy, want, old(RunningImages()))
          && CallsFor(done, Removals(envoy, want, old(RunningImages())), Additions(want, old(RunningImages())))
          && AnnouncedFrom(old(notices), notices, done)
    {
      done := [];
      if host !in dplmCfg {
        return true, done;
      }
      var currContainers := cntMgr.Containers();
      if currContainers == null {
        return false, done;
      }
      var idx, _ := CompactManaged(currContainers);
      var currImages := ExtractImageList(currContainers[..idx]);
      var curr := currImages[..];
      var newImages := ParseDesired(dplmCfg[host].images);
      if newImages.None? {
        return false, done;
      }
      var want := newImages.value;
      DesiredPrintable(normalize, dplmCfg[host].images);
      ManagedImagesListed(cntMgr.containers);
      RemovalsFit(envoy, want, curr);
      var removed, _ := ComputeDiff(want, curr);
      ghost var removals := RemoveAll(removed, curr);
      var added, _ := ComputeDiff(curr, want);
      DiffOccurs(curr, want);
      ghost var pulls := PullAll(added);
      ok, done := true, removals + pulls;
      ManagedImagesListed(cntMgr.containers);
      CallsJoined(removals, pulls);
      Regroup(old(cntMgr.calls), removals, pulls);
      Regroup(old(notices), NoticesOf(removals), NoticesOf(pulls));
      if cntMgr.reliable && AllExclusive(old(Others(cntMgr.containers)), old(RunningImages())) {
        CallsByPosition(done, Removals(envoy, want, curr), Additions(want, curr));
        NoticesByPosition(old(notices), done);
      }
    }

    // The printing loop of the actual-state report ...
    method PrintAll(currImages: array<Image>) returns (images: array<string>)
      ensures fresh(images) && images[..] == Echo(currImages[..])
    {
      images := new string[currImages.Length](_ => "");
      ghost var curr := currImages[..];
      assert curr[..0] == [];
      for k := 0 to currImages.Length
        invariant currImages[..] == curr
        invariant images[..k] == Echo(curr[..k])
      {
        assert curr[..k + 1][..k] == curr[..k];
        images[k] := PrintImage(currImages[k]);
        assert images[..k + 1] == images[..k] + [images[k]];
      }
      assert curr[..|curr|] == curr && images[..|curr|] == images[..];
    }

    // ... and one tick of it.
    method ReportActual() returns (r: Option<DeploymentConfig>, ghost at: seq<nat>)
      ensures cntMgr.reliable ==> r.Some?
      ensures r.Some? ==> r.value == map[host := NodeConfig(Running, Echo(RunningImages()))]
      ensures r.Some? ==> ReportsUp(cntMgr.containers, r.value[host].images, at)
    {
      at := [];
      var currContainers := cntMgr.Containers();
      if currContainers == null {
        return None, [];
      }
      var idx, _ := CompactManaged(currContainers);
      var currImages := ExtractImageList(currContainers[..idx]);
      var images := PrintAll(currImages);
      r := Some(map[host := NodeConfig(Running, images[..])]);
      at := EchoInOrder(cntMgr.containers);
    }

    // A pass converges on the object: the images running afterwards are the
    // desired ones and the Envoy images found, if and only if no desired image
    // clashes.
    method ConvergingPass(dplmCfg: DeploymentConfig, ghost want: seq<Image>) returns (ok: bool)
      requires cntMgr.reliable && host in dplmCfg && Desired(normalize, dplmCfg[host].images) == Some(want)
      requires AllExclusive(Others(cntMgr.containers), RunningImages())
      modifies this, cntMgr
      ensures ok && Others(cntMgr.containers) == old(Others(cntMgr.containers))
      ensures multiset(RunningImages()) == AfterPass(envoy, want, old(RunningImages()))
      ensures Became(envoy, want, old(RunningImages()), RunningImages())
        <==> forall d :: d in want ==> !Clash(envoy, want, old(RunningImages()), d)
      ensures forall i: Image, front: string :: i.name == front + envoy ==>
        multiset(old(RunningImages()))[i] <= multiset(RunningImages())[i]
    {
      ghost var curr := RunningImages();
      ghost var done;
      ok, done := Process(dplmCfg);
      BecameIsExact(envoy, want, curr, RunningImages());
      forall i: Image, front: string | i.name == front + envoy ensures multiset(curr)[i] <= multiset(RunningImages())[i] {
        EnvoySurvives(envoy, want, curr, i, front);
      }
    }

    // Two passes with one config: the second makes no manager call, and no
    // announcement, if and only if the desired images have one version per
    // name and the Envoy images among them are listed last. `calls`,
    // `announced` and `next` are what there was between the passes.
    method ProcessTwice(dplmCfg: DeploymentConfig, ghost want: seq<Image>)
        returns (ghost calls: seq<Call>, ghost announced: seq<Notice>, ghost next: seq<Image>)
      requires cntMgr.reliable && host in dplmCfg && Desired(normalize, dplmCfg[host].images) == Some(want)
      requires AllExclusive(Others(cntMgr.containers), RunningImages()) && AllExclusive(Others(cntMgr.containers), want)
      modifies this, cntMgr
      ensures calls <= cntMgr.calls && announced <= notices
      ensures multiset(next) == AfterPass(envoy, want, old(RunningImages()))
      ensures cntMgr.calls == calls <==> OneVersionPerName(want) && EnvoyListedLast(envoy, want, next)
      ensures notices == announced <==> OneVersionPerName(want) && EnvoyListedLast(envoy, want, next)
      ensures OneVersionPerName(want) ==> Became(envoy, want, old(RunningImages()), RunningImages())
    {
      ghost var curr := RunningImages();
      var ok := ConvergingPass(dplmCfg, want);
      calls, announced := cntMgr.calls, notices;
      next := RunningImages();
      StillExclusive(envoy, want, curr, next, Others(cntMgr.containers));
      ghost var done;
      ok, done := Process(dplmCfg);
      StabilityIsExact(envoy, want, curr, next);
      QuietPassIsSilent(envoy, want, next, done);
      if OneVersionPerName(want) {
        StableImages(envoy, want, curr, next, RunningImages());
      }
    }

    // Echo: what a tick reports, fed back as the desired config, makes no call
    // and no announcement if and only if one version per name is running -
    // names being fixed points of the normalization.
    method EchoPass() returns (ok: bool)
      requires cntMgr.reliable && AllExclusive(Others(cntMgr.containers), RunningImages())
      requires forall i :: i in RunningImages() ==> normalize(i.name) == Some(i.name)
      modifies this, cntMgr
      ensures ok
      ensures cntMgr.calls == old(cntMgr.calls) <==> OneVersionPerName(old(RunningImages()))
      ensures notices == old(notices) <==> OneVersionPerName(old(RunningImages()))
    {
      var report, _ := ReportActual();
      ghost var curr := RunningImages();
      EchoDesired(normalize, curr);
      ghost var done;
      ok, done := Process(report.value);
      SelfDiffIsExact(envoy, curr);
      QuietPassIsSilent(envoy, curr, curr, done);
    }
  }

  // ------------------------------------------------------- echo, quiet passes

  // The image names of the actual-state report.
  function Echo(images: seq<Image>): seq<string> {
    if images == [] then [] else Echo(images[..|images| - 1]) + [PrintImage(images[|images| - 1])]
  }

  // The report lists, in their order, the image of every container whose
  // status begins with "Up" and whose name does not begin with
  // "/carisma-keep-", with the default tag where it has none.
  ghost predicate ReportsUp(cs: seq<Container>, images: seq<string>, at: seq<nat>) {
    && |at| == |images|
    && (forall i, j :: 0 <= i < j < |at| ==> at[i] < at[j])
    && (forall k :: 0 <= k < |at| ==> at[k] < |cs| && images[k] == Tagged(cs[at[k]].image))
    && forall t: nat :: t in at <==> t < |cs| && UpAndOurs(cs[t])
  }

  function Tagged(image: string): string {
    if ':' in image then image else image + ":latest"
  }

  lemma {:induction false} EchoAt(images: seq<Image>)
    ensures |Echo(images)| == |images| && forall k :: 0 <= k < |images| ==> Echo(images)[k] == PrintImage(images[k])
  {
    if images != [] {
      EchoAt(images[..|images| - 1]);
    }
  }

  lemma EchoInOrder(cs: seq<Container>) returns (at: seq<nat>)
    ensures ReportsUp(cs, Echo(ImagesOf(ManagedOf(cs))), at)
  {
    at := ManagedInOrder(cs);
    EchoAt(ImagesOf(ManagedOf(cs)));
    forall k | 0 <= k < |at| ensures Echo(ImagesOf(ManagedOf(cs)))[k] == Tagged(cs[at[k]].image) {
      PrintOfParse(cs[at[k]].image);
    }
  }

  lemma DesiredAppended(normalize: Normalizer, names: seq<string>, images: seq<Image>, i: Image)
    requires ':' !in i.version && normalize(i.name) == Some(i.name)
    requires Desired(normalize, names) == Some(images)
    ensures Desired(normalize, names + [PrintImage(i)]) == Some(images + [i])
  {
    ParseOfPrint(i);
    assert (names + [PrintImage(i)])[..|names|] == names;
  }

  ghost predicate FixedPoint(normalize: Normalizer, i: Image) {
    ':' !in i.version && normalize(i.name) == Some(i.name)
  }

  lemma {:induction false} EchoDesired(normalize: Normalizer, curr: seq<Image>)
    requires forall k :: 0 <= k < |curr| ==> FixedPoint(normalize, curr[k])
    ensures Desired(normalize, Echo(curr)) == Some(curr)
  {
    if curr != [] {
      var front, last := curr[..|curr| - 1], curr[|curr| - 1];
      EchoDesired(normalize, front);
      assert FixedPoint(normalize, last);
      DesiredAppended(normalize, Echo(front), front, last);
      assert front + [last] == curr;
    }
  }

  // A pass makes no call, and so announces nothing, exactly when it is quiet.
  lemma QuietPassIsSilent(envoy: string, want: seq<Image>, curr: seq<Image>, done: seq<Call>)
    requires Orders(done) == PassOrders(envoy, want, curr)
    ensures done == [] <==> Quiet(envoy, want, curr)
    ensures done == [] <==> NoticesOf(done) == []
  {
    var removals, additions := Removals(envoy, want, curr), Additions(want, curr);
    assert |OrdersFor(false, removals)| == 0 <==> removals == [];
    assert |OrdersFor(true, additions)| == 0 <==> additions == [];
  }

  // ------------------------------------------------------- two passes

  // The images running after a pass are the desired ones and the Envoy images
  // that ran before.
  ghost predicate Became(envoy: string, want: seq<Image>, curr: seq<Image>, next: seq<Image>) {
    forall i :: i in next <==> i in want || (i in curr && IsEnvoy(envoy, i))
  }

  // An image whose name ends in Envoy's loses no container.
  lemma EnvoySurvives(envoy: string, want: seq<Image>, curr: seq<Image>, i: Image, front: string)
    requires i.name == front + envoy
    ensures multiset(curr)[i] <= AfterPass(envoy, want, curr)[i]
  {
    EnvoySuffix(envoy, i);
    RemovalCounts(envoy, want, curr, i);
  }

  lemma BecameIsExact(envoy: string, want: seq<Image>, curr: seq<Image>, next: seq<Image>)
    requires multiset(next) == AfterPass(envoy, want, curr)
    ensures Became(envoy, want, curr, next) <==> forall d :: d in want ==> !Clash(envoy, want, curr, d)
  {
    ConvergenceIsExact(envoy, want, curr);
    assert forall i :: i in next <==> i in multiset(next);
  }

  // What runs after a pass ran before or was desired.
  lemma StillExclusive(envoy: string, want: seq<Image>, curr: seq<Image>, next: seq<Image>, others: multiset<Container>)
    requires multiset(next) == AfterPass(envoy, want, curr)
    requires AllExclusive(others, curr) && AllExclusive(others, want)
    ensures AllExclusive(others, next)
  {
    forall i | i in next ensures Exclusive(others, i) {
      assert i in multiset(next);
      RunsAfterPass(envoy, want, curr, i);
    }
  }

  // A second pass leaves the images that the first one has left.
  lemma StableImages(envoy: string, want: seq<Image>, curr: seq<Image>, next: seq<Image>, last: seq<Image>)
    requires OneVersionPerName(want)
    requires multiset(next) == AfterPass(envoy, want, curr) && multiset(last) == AfterPass(envoy, want, next)
    ensures Became(envoy, want, curr, last)
  {
    OnePassConverges(envoy, want, curr);
    OnePassConverges(envoy, want, next);
    assert forall i :: i in last <==> i in multiset(last);
    assert forall i :: i in next <==> i in multiset(next);
  }
}
