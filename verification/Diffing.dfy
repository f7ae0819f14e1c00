// The two asymmetric last-wins diffs of the reconciler and what one pass makes
// of a container list (orchestrator.go).
module Diffing {
  import opened Text
  import opened Images
  import opened Positions

  const ENVOY_NAME := "envoyproxy/envoy"
  const ENVOY_VERSION := "distroless-v1.27-latest"

  // The suffix test of process; `envoy` is the name of the Envoy image.
  predicate IsEnvoy(envoy: string, i: Image) {
    HasSuffix(i.name, envoy)
  }

  // These are the images whose names end in Envoy's, whatever stands in front.
  lemma EnvoySuffix(envoy: string, i: Image)
    ensures IsEnvoy(envoy, i) <==> exists front: string :: i.name == front + envoy
  {
    SuffixIs(i.name, envoy);
  }

  // envoyContainerImageName, parsed
  lemma EnvoyNameParsed()
    ensures ParseImageName(ENVOY_NAME + ":" + ENVOY_VERSION) == Image(ENVOY_NAME, ENVOY_VERSION)
  {
    ParseOfPrint(Image(ENVOY_NAME, ENVOY_VERSION));
  }

  // The version `memory` holds for a name after all of `a` has been stored.
  function LastVersion(a: seq<Image>, name: string): Option<string> {
    if a == [] then None
    else if a[|a| - 1].name == name then Some(a[|a| - 1].version)
    else LastVersion(a[..|a| - 1], name)
  }

  // Position k holds the last image of this name.
  ghost predicate LastAt(a: seq<Image>, k: nat, name: string) {
    k < |a| && a[k].name == name && forall l :: k < l < |a| ==> a[l].name != name
  }

  // By position: the version at the greatest index with that name.
  lemma {:induction false} LastVersionAt(a: seq<Image>, name: string)
    ensures forall v :: LastVersion(a, name) == Some(v) <==> exists k: nat :: LastAt(a, k, name) && a[k].version == v
    ensures LastVersion(a, name).None? <==> forall k :: 0 <= k < |a| ==> a[k].name != name
  {
    if a != [] {
      var before := a[..|a| - 1];
      LastVersionAt(before, name);
      assert forall k :: 0 <= k < |before| ==> before[k] == a[k];
      if a[|a| - 1].name == name {
        assert LastAt(a, |a| - 1, name);
      } else {
        assert forall k: nat :: LastAt(before, k, name) <==> LastAt(a, k, name);
      }
    }
  }

  lemma MissingAt(a: seq<Image>, i: Image)
    ensures LastVersion(a, i.name) != Some(i.version) <==>
      || (forall l :: 0 <= l < |a| ==> a[l].name != i.name)
      || exists l: nat :: l < |a| && a[l].name == i.name && a[l].version != i.version && forall m :: l < m < |a| ==> a[m].name != i.name
  {
    LastVersionAt(a, i.name);
    if LastVersion(a, i.name).Some? {
      var l: nat :| LastAt(a, l, i.name) && a[l].version == LastVersion(a, i.name).value;
      assert forall m: nat :: LastAt(a, m, i.name) ==> m == l;
    }
  }

  // The elements of b whose name a does not hold in that version.
  function Diff(a: seq<Image>, b: seq<Image>): seq<Image> {
    if b == [] then []
    else
      var i := b[|b| - 1];
      Diff(a, b[..|b| - 1]) + if LastVersion(a, i.name) != Some(i.version) then [i] else []
  }

  function WithoutEnvoy(envoy: string, a: seq<Image>): seq<Image> {
    if a == [] then []
    else WithoutEnvoy(envoy, a[..|a| - 1]) + if IsEnvoy(envoy, a[|a| - 1]) then [] else [a[|a| - 1]]
  }

  // By position: the missing images keep the order of b.
  lemma {:induction false} DiffInOrder(a: seq<Image>, b: seq<Image>) returns (at: seq<nat>)
    ensures Selects(Diff(a, b), b, at)
    ensures forall t: nat :: t in at <==> t < |b| && LastVersion(a, b[t].name) != Some(b[t].version)
  {
    at := [];
    if b != [] {
      var before, last := b[..|b| - 1], b[|b| - 1];
      at := DiffInOrder(a, before);
      at := SelectNext(Diff(a, before), before, at, last, LastVersion(a, last.name) != Some(last.version));
      assert before + [last] == b;
    }
  }

  // The loop answers those images of b, in the order of b, whose name no image
  // of a has, or the last image of that name in another version.
  method ComputeDiff(a: seq<Image>, b: seq<Image>) returns (missing: seq<Image>, ghost at: seq<nat>)
    ensures missing == Diff(a, b)
    ensures Selects(missing, b, at)
    ensures forall t :: 0 <= t < |b| ==> (t in at <==>
      || (forall l :: 0 <= l < |a| ==> a[l].name != b[t].name)
      || exists l: nat :: l < |a| && a[l].name == b[t].name && a[l].version != b[t].version && forall m :: l < m < |a| ==> a[m].name != b[t].name)
  {
    var memory: map<string, string> := map[];
    assert a[..0] == [];
    for k := 0 to |a|
      invariant forall n :: LastVersion(a[..k], n) == if n in memory then Some(memory[n]) else None
    {
      assert a[..k + 1][..k] == a[..k];
      memory := memory[a[k].name := a[k].version];
    }
    assert a[..|a|] == a;
    missing := [];
    for k := 0 to |b|
      invariant missing == Diff(a, b[..k])
    {
      assert b[..k + 1][..k] == b[..k];
      var i := b[k];
      if i.name !in memory || memory[i.name] != i.version {
        missing := missing + [i];
      }
    }
    assert b[..|b|] == b;
    at := DiffInOrder(a, b);
    forall t | 0 <= t < |b| { MissingAt(a, b[t]); }
  }

  // Diff keeps or drops all occurrences of a value together.
  lemma {:induction false} DiffCounts(a: seq<Image>, b: seq<Image>, i: Image)
    ensures multiset(Diff(a, b))[i] == if LastVersion(a, i.name) != Some(i.version) then multiset(b)[i] else 0
  {
    if b != [] {
      DiffCounts(a, b[..|b| - 1], i);
      assert b == b[..|b| - 1] + [b[|b| - 1]];
    }
  }

  lemma {:induction false} WithoutEnvoyCounts(envoy: string, a: seq<Image>, i: Image)
    ensures multiset(WithoutEnvoy(envoy, a))[i] == if IsEnvoy(envoy, i) then 0 else multiset(a)[i]
  {
    if a != [] {
      WithoutEnvoyCounts(envoy, a[..|a| - 1], i);
      assert a == a[..|a| - 1] + [a[|a| - 1]];
    }
  }

  // By position: what is left when the images with Envoy's suffix are skipped.
  lemma {:induction false} WithoutEnvoyInOrder(envoy: string, a: seq<Image>) returns (at: seq<nat>)
    ensures Selects(WithoutEnvoy(envoy, a), a, at)
    ensures forall t: nat :: t in at <==> t < |a| && !exists front: string :: a[t].name == front + envoy
  {
    at := [];
    if a != [] {
      var before, last := a[..|a| - 1], a[|a| - 1];
      at := WithoutEnvoyInOrder(envoy, before);
      EnvoySuffix(envoy, last);
      at := SelectNext(WithoutEnvoy(envoy, before), before, at, last, !IsEnvoy(envoy, last));
      assert before + [last] == a;
    }
  }

  lemma {:induction false} LastVersionOccurs(a: seq<Image>, name: string)
    ensures match LastVersion(a, name)
      case Some(v) => Image(name, v) in a
      case None => forall i :: i in a ==> i.name != name
  {
    if a != [] {
      LastVersionOccurs(a[..|a| - 1], name);
      assert a == a[..|a| - 1] + [a[|a| - 1]];
    }
  }

  // ------------------------------------------------------- one pass

  // What `process` removes from, and adds to, the running images `curr` when
  // the desired images are `want`.
  function Removals(envoy: string, want: seq<Image>, curr: seq<Image>): seq<Image> {
    WithoutEnvoy(envoy, Diff(want, curr))
  }

  function Additions(want: seq<Image>, curr: seq<Image>): seq<Image> {
    Diff(curr, want)
  }

  function AfterPass(envoy: string, want: seq<Image>, curr: seq<Image>): multiset<Image> {
    multiset(curr) - multiset(Removals(envoy, want, curr)) + multiset(Additions(want, curr))
  }

  lemma RemovalCounts(envoy: string, want: seq<Image>, curr: seq<Image>, i: Image)
    ensures multiset(Removals(envoy, want, curr))[i] ==
      if LastVersion(want, i.name) != Some(i.version) && !IsEnvoy(envoy, i) then multiset(curr)[i] else 0
    ensures multiset(Additions(want, curr))[i] ==
      if LastVersion(curr, i.name) != Some(i.version) then multiset(want)[i] else 0
  {
    WithoutEnvoyCounts(envoy, Diff(want, curr), i);
    DiffCounts(want, curr, i);
    DiffCounts(curr, want, i);
  }

  lemma PassMembers(envoy: string, want: seq<Image>, curr: seq<Image>, i: Image)
    ensures i in Removals(envoy, want, curr) <==> i in curr && LastVersion(want, i.name) != Some(i.version) && !IsEnvoy(envoy, i)
    ensures i in Additions(want, curr) <==> i in want && LastVersion(curr, i.name) != Some(i.version)
  {
    RemovalCounts(envoy, want, curr, i);
    assert multiset(curr)[i] > 0 <==> i in curr;
    assert multiset(want)[i] > 0 <==> i in want;
    assert multiset(Removals(envoy, want, curr))[i] > 0 <==> i in Removals(envoy, want, curr);
    assert multiset(Additions(want, curr))[i] > 0 <==> i in Additions(want, curr);
  }

  // An image runs after the pass iff it was added, or ran and was not removed.
  lemma RunsAfterPass(envoy: string, want: seq<Image>, curr: seq<Image>, i: Image)
    ensures i in AfterPass(envoy, want, curr) <==>
      || (i in want && LastVersion(curr, i.name) != Some(i.version))
      || (i in curr && (LastVersion(want, i.name) == Some(i.version) || IsEnvoy(envoy, i)))
  {
    RemovalCounts(envoy, want, curr, i);
    assert multiset(want)[i] > 0 <==> i in want;
    assert multiset(curr)[i] > 0 <==> i in curr;
  }

  ghost predicate OneVersionPerName(a: seq<Image>) {
    forall i, j :: i in a && j in a && i.name == j.name ==> i.version == j.version
  }

  lemma OneVersionIsLast(a: seq<Image>, i: Image)
    requires OneVersionPerName(a) && i in a
    ensures LastVersion(a, i.name) == Some(i.version)
  {
    LastVersionOccurs(a, i.name);
  }

  // The running images are the desired ones and the Envoy images found.
  ghost predicate Converged(envoy: string, want: seq<Image>, curr: seq<Image>) {
    forall i :: i in AfterPass(envoy, want, curr) <==> i in want || (i in curr && IsEnvoy(envoy, i))
  }

  // A desired image that the desired list itself supersedes by a later entry
  // of the same name, while it is the version that runs last.
  ghost predicate Clash(envoy: string, want: seq<Image>, curr: seq<Image>, d: Image) {
    && d in want && !IsEnvoy(envoy, d)
    && (exists l: nat :: LastAt(want, l, d.name) && want[l] != d)
    && exists l: nat :: LastAt(curr, l, d.name) && curr[l] == d
  }

  lemma ClashByVersion(envoy: string, want: seq<Image>, curr: seq<Image>, d: Image)
    ensures Clash(envoy, want, curr, d) <==>
      (d in want && !IsEnvoy(envoy, d) && LastVersion(want, d.name) != Some(d.version) && LastVersion(curr, d.name) == Some(d.version))
  {
    LastVersionAt(want, d.name);
    LastVersionAt(curr, d.name);
    LastIsUnique(want, d.name);
    LastIsUnique(curr, d.name);
    LastVersionOccurs(want, d.name);
  }

  lemma LastIsUnique(a: seq<Image>, name: string)
    ensures forall k: nat, l: nat :: LastAt(a, k, name) && LastAt(a, l, name) ==> k == l
    ensures forall k: nat :: LastAt(a, k, name) ==> a[k] == Image(name, a[k].version)
  {
  }

  // One pass converges if and only if there is no such clash, even if the
  // current list has duplicates or several versions of a name.
  lemma ConvergenceIsExact(envoy: string, want: seq<Image>, curr: seq<Image>)
    ensures Converged(envoy, want, curr) <==> forall d :: d in want ==> !Clash(envoy, want, curr, d)
  {
    if forall d :: d in want ==> !Clash(envoy, want, curr, d) {
      forall i ensures i in AfterPass(envoy, want, curr) <==> i in want || (i in curr && IsEnvoy(envoy, i)) {
        RunsAfterPass(envoy, want, curr, i);
        LastVersionOccurs(want, i.name);
        LastVersionOccurs(curr, i.name);
        ClashByVersion(envoy, want, curr, i);
      }
    } else {
      var d :| d in want && Clash(envoy, want, curr, d);
      ClashByVersion(envoy, want, curr, d);
      RunsAfterPass(envoy, want, curr, d);
    }
  }

  // In particular with one version per desired name.
  lemma OnePassConverges(envoy: string, want: seq<Image>, curr: seq<Image>)
    requires OneVersionPerName(want)
    ensures Converged(envoy, want, curr)
  {
    forall d | d in want ensures !Clash(envoy, want, curr, d) {
      ClashByVersion(envoy, want, curr, d);
      OneVersionIsLast(want, d);
    }
    ConvergenceIsExact(envoy, want, curr);
  }

  // ------------------------------------------------------- stability

  // A pass that issues no manager call.
  predicate Quiet(envoy: string, want: seq<Image>, curr: seq<Image>) {
    Removals(envoy, want, curr) == [] && Additions(want, curr) == []
  }

  lemma QuietMeans(envoy: string, want: seq<Image>, curr: seq<Image>)
    ensures Quiet(envoy, want, curr) <==>
      && (forall i :: i in curr ==> LastVersion(want, i.name) == Some(i.version) || IsEnvoy(envoy, i))
      && (forall i :: i in want ==> LastVersion(curr, i.name) == Some(i.version))
  {
    forall i
      ensures i in Removals(envoy, want, curr) <==> i in curr && LastVersion(want, i.name) != Some(i.version) && !IsEnvoy(envoy, i)
      ensures i in Additions(want, curr) <==> i in want && LastVersion(curr, i.name) != Some(i.version)
    {
      PassMembers(envoy, want, curr, i);
    }
    assert Removals(envoy, want, curr) != [] ==> Removals(envoy, want, curr)[0] in Removals(envoy, want, curr);
    assert Additions(want, curr) != [] ==> Additions(want, curr)[0] in Additions(want, curr);
  }

  // No pass is ever quiet when a desired name has two versions: the list
  // cannot hold both as its last one.
  lemma QuietNeedsOneVersion(envoy: string, want: seq<Image>, curr: seq<Image>)
    requires Quiet(envoy, want, curr)
    ensures OneVersionPerName(want)
  {
    QuietMeans(envoy, want, curr);
  }

  // Every desired Envoy image is the version of its name that is listed last.
  // Other versions may be listed too, as Envoy images are never removed.
  ghost predicate EnvoyListedLast(envoy: string, want: seq<Image>, next: seq<Image>) {
    forall i :: i in want && IsEnvoy(envoy, i) ==> exists l: nat :: LastAt(next, l, i.name) && next[l] == i
  }

  lemma EnvoyLastByVersion(envoy: string, want: seq<Image>, next: seq<Image>)
    ensures EnvoyListedLast(envoy, want, next) <==>
      forall i :: i in want && IsEnvoy(envoy, i) ==> LastVersion(next, i.name) == Some(i.version)
  {
    forall i | i in want && IsEnvoy(envoy, i)
      ensures LastVersion(next, i.name) == Some(i.version) <==> exists l: nat :: LastAt(next, l, i.name) && next[l] == i
    {
      LastVersionAt(next, i.name);
      LastIsUnique(next, i.name);
    }
  }

  // Stability: with the containers listed as `next` after a pass, the next
  // pass with the same desired images issues no call - if and only if they
  // have one version per name, and the Envoy images among them are listed last.
  lemma StabilityIsExact(envoy: string, want: seq<Image>, curr: seq<Image>, next: seq<Image>)
    requires multiset(next) == AfterPass(envoy, want, curr)
    ensures Quiet(envoy, want, next) <==> OneVersionPerName(want) && EnvoyListedLast(envoy, want, next)
  {
    EnvoyLastByVersion(envoy, want, next);
    if OneVersionPerName(want) && EnvoyListedLast(envoy, want, next) {
      OnePassConverges(envoy, want, curr);
      assert forall i :: i in next <==> i in multiset(next);
      forall i | i in next ensures LastVersion(want, i.name) == Some(i.version) || IsEnvoy(envoy, i) {
        if i in want { OneVersionIsLast(want, i); }
      }
      forall i | i in want ensures LastVersion(next, i.name) == Some(i.version) {
        LastVersionOccurs(next, i.name);
        assert i in next;
        var running := Image(i.name, LastVersion(next, i.name).value);
        assert running in want || IsEnvoy(envoy, running);
        assert IsEnvoy(envoy, running) ==> IsEnvoy(envoy, i);
      }
      QuietMeans(envoy, want, next);
    } else if Quiet(envoy, want, next) {
      QuietNeedsOneVersion(envoy, want, next);
      QuietMeans(envoy, want, next);
    }
  }

  // No other version of a desired Envoy image was running.
  ghost predicate EnvoyAgrees(envoy: string, want: seq<Image>, curr: seq<Image>) {
    forall i, j :: i in want && j in curr && IsEnvoy(envoy, i) && i.name == j.name ==> i.version == j.version
  }

  // The same before the first pass: whatever order the containers are listed
  // in after it, the next pass issues no call - if and only if the desired
  // images have one version per name and no other version of a desired Envoy
  // image was running.
  lemma StableInEveryOrder(envoy: string, want: seq<Image>, curr: seq<Image>)
    ensures (forall next: seq<Image> | multiset(next) == AfterPass(envoy, want, curr) :: Quiet(envoy, want, next))
      <==> OneVersionPerName(want) && EnvoyAgrees(envoy, want, curr)
  {
    if OneVersionPerName(want) && EnvoyAgrees(envoy, want, curr) {
      forall next: seq<Image> | multiset(next) == AfterPass(envoy, want, curr) ensures Quiet(envoy, want, next) {
        AgreeingEnvoyLast(envoy, want, curr, next);
        StabilityIsExact(envoy, want, curr, next);
      }
    } else if i, j :| i in want && j in curr && IsEnvoy(envoy, i) && i.name == j.name && i.version != j.version {
      var next := OtherListedLast(envoy, want, curr, i, j);
      StabilityIsExact(envoy, want, curr, next);
    } else {
      var next := Listing(AfterPass(envoy, want, curr));
      StabilityIsExact(envoy, want, curr, next);
    }
  }

  // The containers may be listed with the other version last.
  lemma OtherListedLast(envoy: string, want: seq<Image>, curr: seq<Image>, i: Image, j: Image) returns (next: seq<Image>)
    requires i in want && j in curr && IsEnvoy(envoy, i) && i.name == j.name && i.version != j.version
    ensures multiset(next) == AfterPass(envoy, want, curr) && !EnvoyListedLast(envoy, want, next)
  {
    RunsAfterPass(envoy, want, curr, j);
    var front := Listing(AfterPass(envoy, want, curr) - multiset{j});
    next := front + [j];
    EnvoyLastByVersion(envoy, want, next);
  }

  lemma AgreeingEnvoyLast(envoy: string, want: seq<Image>, curr: seq<Image>, next: seq<Image>)
    requires OneVersionPerName(want) && EnvoyAgrees(envoy, want, curr) && multiset(next) == AfterPass(envoy, want, curr)
    ensures EnvoyListedLast(envoy, want, next)
  {
    OnePassConverges(envoy, want, curr);
    EnvoyLastByVersion(envoy, want, next);
    assert forall i :: i in next <==> i in multiset(next);
    forall i | i in want && IsEnvoy(envoy, i) ensures LastVersion(next, i.name) == Some(i.version) {
      LastVersionOccurs(next, i.name);
      assert i in next;
    }
  }

  lemma {:induction false} Listing(images: multiset<Image>) returns (list: seq<Image>)
    ensures multiset(list) == images
    decreases |images|
  {
    list := [];
    if i :| i in images {
      var rest := Listing(images - multiset{i});
      list := rest + [i];
    }
  }

  // Feeding a list back to itself is quiet exactly when it has one version
  // per name.
  lemma SelfDiffIsExact(envoy: string, curr: seq<Image>)
    ensures Quiet(envoy, curr, curr) <==> OneVersionPerName(curr)
  {
    QuietMeans(envoy, curr, curr);
    if OneVersionPerName(curr) {
      forall i | i in curr { OneVersionIsLast(curr, i); }
    } else if Quiet(envoy, curr, curr) {
      QuietNeedsOneVersion(envoy, curr, curr);
    }
  }
}
