// The service registry (pkg/registry/service_regisry.go): per node and bundle
// a strictly increasing list of ports, kept by sort, compact, index and delete.
module ServiceRegistry {
  import opened Text

  type int32 = x: int | -0x8000_0000 <= x < 0x8000_0000

  // Go's conversion to int32, and what its 32-bit overflow leaves.
  function ToInt32(x: int): int32 {
    var m := x % 0x1_0000_0000;
    if m < 0x8000_0000 then m else m - 0x1_0000_0000
  }

  // ServiceConfigSnapshot: node ID -> bundle ID -> ports
  type Services = map<string, map<string, seq<int32>>>

  // ------------------------------------------------------- the slices package

  ghost predicate Sorted(s: seq<int32>) {
    forall i, j :: 0 <= i < j < |s| ==> s[i] <= s[j]
  }

  ghost predicate StrictlyIncreasing(s: seq<int32>) {
    forall i, j :: 0 <= i < j < |s| ==> s[i] < s[j]
  }

  function Insert(x: int32, s: seq<int32>): (r: seq<int32>)
    requires Sorted(s)
    ensures Sorted(r)
    ensures forall p: int32 :: p in r <==> p == x || p in s
  {
    if s == [] || x <= s[0] then [x] + s
    else
      var rest := Insert(x, s[1..]);
      assert forall i :: 0 <= i < |rest| ==> rest[i] in rest;
      [s[0]] + rest
  }

  // slices.Sort, seen through what it promises about order and elements
  function Sort(s: seq<int32>): (r: seq<int32>)
    ensures Sorted(r)
    ensures forall p: int32 :: p in r <==> p in s
  {
    if s == [] then [] else Insert(s[0], Sort(s[1..]))
  }

  // slices.Compact
  function Compact(s: seq<int32>): (r: seq<int32>)
    ensures forall p: int32 :: p in r <==> p in s
    ensures |s| > 0 ==> |r| > 0 && r[0] == s[0]
  {
    if |s| < 2 then s
    else if s[0] == s[1] then Compact(s[1..])
    else [s[0]] + Compact(s[1..])
  }

  lemma {:induction false} CompactOfSorted(s: seq<int32>)
    requires Sorted(s)
    ensures StrictlyIncreasing(Compact(s))
  {
    if |s| >= 2 {
      CompactOfSorted(s[1..]);
      if s[0] != s[1] {
        var rest := Compact(s[1..]);
        assert forall i :: 0 <= i < |rest| ==> rest[0] <= rest[i];
      }
    }
  }

  // slices.Index; None stands for -1
  function Index(s: seq<int32>, p: int32): (i: Option<nat>)
    ensures i.None? <==> p !in s
    ensures i.Some? ==> i.value < |s| && s[i.value] == p
  {
    if s == [] then None
    else if s[0] == p then Some(0)
    else match Index(s[1..], p) case None => None case Some(i) => Some(i + 1)
  }

  // slices.Delete(s, i, j)
  function Delete(s: seq<int32>, i: nat, j: nat): seq<int32>
    requires i <= j <= |s|
  {
    s[..i] + s[j..]
  }

  lemma DeleteFromIncreasing(s: seq<int32>, i: nat)
    requires StrictlyIncreasing(s) && i < |s|
    ensures StrictlyIncreasing(Delete(s, i, i + 1))
    ensures forall p: int32 :: p in Delete(s, i, i + 1) <==> p in s && p != s[i]
  {
    var r := Delete(s, i, i + 1);
    assert forall k :: 0 <= k < |r| ==> r[k] == if k < i then s[k] else s[k + 1];
    forall p: int32 | p in s && p != s[i] ensures p in r {
      var k :| 0 <= k < |s| && s[k] == p;
      assert r[if k < i then k else k - 1] == p;
    }
  }

  // Port lists are canonical: order and content determine one another.
  lemma {:induction false} IncreasingUnique(a: seq<int32>, b: seq<int32>)
    requires StrictlyIncreasing(a) && StrictlyIncreasing(b)
    requires forall p: int32 :: p in a <==> p in b
    ensures a == b
  {
    assert a != [] ==> a[0] in a;
    assert b != [] ==> b[0] in b;
    if a != [] && b != [] {
      assert a[0] == b[0];
      forall p: int32 ensures p in a[1..] <==> p in b[1..] {
        assert p in a[1..] <==> p in a && p != a[0];
        assert p in b[1..] <==> p in b && p != b[0];
      }
      IncreasingUnique(a[1..], b[1..]);
    }
  }

  // ------------------------------------------------------- the two updates

  function Lookup(s: Services, node: string, bundle: string): seq<int32> {
    if node in s && bundle in s[node] then s[node][bundle] else []
  }

  function RegisterService(s: Services, node: string, bundle: string, port: int32): Services {
    var bundles := if node in s then s[node] else map[];
    s[node := bundles[bundle := Compact(Sort(Lookup(s, node, bundle) + [port]))]]
  }

  function WithoutPort(ports: seq<int32>, port: int32): seq<int32> {
    match Index(ports, port) case None => ports case Some(i) => Delete(ports, i, i + 1)
  }

  function UnregisterService(s: Services, node: string, bundle: string, port: int32): Services {
    if node !in s then s
    else
      var left := WithoutPort(Lookup(s, node, bundle), port);
      s[node := if left == [] then s[node] - {bundle} else s[node][bundle := left]]
  }

  datatype Announcement = Announcement(node: string, bundle: string, port: int32, registered: bool)

  function Apply(s: Services, a: Announcement): Services {
    if a.registered then RegisterService(s, a.node, a.bundle, a.port)
    else UnregisterService(s, a.node, a.bundle, a.port)
  }

  // No list is empty and every list is strictly increasing.
  ghost predicate WellFormed(s: Services) {
    forall n, b :: n in s && b in s[n] ==> s[n][b] != [] && StrictlyIncreasing(s[n][b])
  }

  ghost predicate Listed(s: Services, node: string, bundle: string, port: int32) {
    port in Lookup(s, node, bundle)
  }

  lemma PortAdded(ports: seq<int32>, port: int32)
    ensures var r := Compact(Sort(ports + [port]));
      r != [] && StrictlyIncreasing(r) && forall p: int32 :: p in r <==> p == port || p in ports
  {
    CompactOfSorted(Sort(ports + [port]));
    assert (ports + [port])[|ports|] == port;
    assert port in Compact(Sort(ports + [port]));
  }

  // What storing a list (or dropping the bundle when it is empty) changes.
  lemma StoredList(s: Services, node: string, bundle: string, ports: seq<int32>, t: Services)
    requires WellFormed(s) && StrictlyIncreasing(ports)
    requires node in t && t == s[node := t[node]]
    requires var bundles := if node in s then s[node] else map[];
      t[node] == if ports == [] then bundles - {bundle} else bundles[bundle := ports]
    ensures WellFormed(t)
    ensures forall n, b :: Lookup(t, n, b) == if n == node && b == bundle then ports else Lookup(s, n, b)
  {
    assert forall n :: n != node ==> (n in t <==> n in s);
  }

  lemma RegisterOne(s: Services, node: string, bundle: string, port: int32)
    requires WellFormed(s)
    ensures var t := RegisterService(s, node, bundle, port);
      && WellFormed(t)
      && (forall n, b, p: int32 :: Listed(t, n, b, p) <==> (n, b, p) == (node, bundle, port) || Listed(s, n, b, p))
      && t.Keys == s.Keys + {node}
  {
    PortAdded(Lookup(s, node, bundle), port);
    StoredList(s, node, bundle, Compact(Sort(Lookup(s, node, bundle) + [port])), RegisterService(s, node, bundle, port));
  }

  lemma PortRemoved(ports: seq<int32>, port: int32)
    requires StrictlyIncreasing(ports)
    ensures var r := WithoutPort(ports, port);
      StrictlyIncreasing(r) && forall p: int32 :: p in r <==> p != port && p in ports
  {
    if Index(ports, port).Some? {
      DeleteFromIncreasing(ports, Index(ports, port).value);
    }
  }

  lemma UnregisterOne(s: Services, node: string, bundle: string, port: int32)
    requires WellFormed(s)
    ensures var t := UnregisterService(s, node, bundle, port);
      && WellFormed(t)
      && (forall n, b, p: int32 :: Listed(t, n, b, p) <==> (n, b, p) != (node, bundle, port) && Listed(s, n, b, p))
      && t.Keys == s.Keys
  {
    if node in s {
      PortRemoved(Lookup(s, node, bundle), port);
      StoredList(s, node, bundle, WithoutPort(Lookup(s, node, bundle), port), UnregisterService(s, node, bundle, port));
    }
  }

  // One announcement changes the triple it names and nothing else.
  lemma ApplyOne(s: Services, a: Announcement)
    requires WellFormed(s)
    ensures WellFormed(Apply(s, a))
    ensures forall n, b, p: int32 ::
      Listed(Apply(s, a), n, b, p) <==>
      if (n, b, p) == (a.node, a.bundle, a.port) then a.registered else Listed(s, n, b, p)
    ensures forall n :: n in Apply(s, a) <==> n in s || (n == a.node && a.registered)
  {
    if a.registered {
      RegisterOne(s, a.node, a.bundle, a.port);
    } else {
      UnregisterOne(s, a.node, a.bundle, a.port);
    }
  }

  // ------------------------------------------------------- announcement runs

  function ApplyAll(s: Services, anns: seq<Announcement>): Services {
    if anns == [] then s
    else Apply(ApplyAll(s, anns[..|anns| - 1]), anns[|anns| - 1])
  }

  // The state the last announcement for a triple asked for, if there was one.
  function LastFor(anns: seq<Announcement>, node: string, bundle: string, port: int32): Option<bool> {
    if anns == [] then None
    else
      var a := anns[|anns| - 1];
      if (a.node, a.bundle, a.port) == (node, bundle, port) then Some(a.registered)
      else LastFor(anns[..|anns| - 1], node, bundle, port)
  }

  ghost predicate EverRegistered(anns: seq<Announcement>, node: string) {
    exists i :: 0 <= i < |anns| && anns[i].node == node && anns[i].registered
  }

  lemma {:induction false} AlwaysWellFormed(anns: seq<Announcement>)
    ensures WellFormed(ApplyAll(map[], anns))
  {
    if anns != [] {
      AlwaysWellFormed(anns[..|anns| - 1]);
      ApplyOne(ApplyAll(map[], anns[..|anns| - 1]), anns[|anns| - 1]);
    }
  }

  lemma {:induction false} LastWriteWinsAt(anns: seq<Announcement>, n: string, b: string, p: int32)
    ensures Listed(ApplyAll(map[], anns), n, b, p) <==> LastFor(anns, n, b, p) == Some(true)
  {
    if anns != [] {
      LastWriteWinsAt(anns[..|anns| - 1], n, b, p);
      AlwaysWellFormed(anns[..|anns| - 1]);
      ApplyOne(ApplyAll(map[], anns[..|anns| - 1]), anns[|anns| - 1]);
    }
  }

  lemma {:induction false} NodePresentAt(anns: seq<Announcement>, n: string)
    ensures n in ApplyAll(map[], anns) <==> EverRegistered(anns, n)
  {
    if anns != [] {
      var before, last := anns[..|anns| - 1], anns[|anns| - 1];
      NodePresentAt(before, n);
      AlwaysWellFormed(before);
      ApplyOne(ApplyAll(map[], before), last);
      EverRegisteredStep(anns, n);
    }
  }

  lemma EverRegisteredStep(anns: seq<Announcement>, n: string)
    requires anns != []
    ensures var before, last := anns[..|anns| - 1], anns[|anns| - 1];
      EverRegistered(anns, n) <==> EverRegistered(before, n) || (last.node == n && last.registered)
  {
    var before := anns[..|anns| - 1];
    assert forall i :: 0 <= i < |before| ==> before[i] == anns[i];
  }

  lemma {:induction false} RefinesLastFor(anns: seq<Announcement>)
    ensures WellFormed(ApplyAll(map[], anns))
    ensures forall n, b, p: int32 :: Listed(ApplyAll(map[], anns), n, b, p) <==> LastFor(anns, n, b, p) == Some(true)
    ensures forall n :: n in ApplyAll(map[], anns) <==> EverRegistered(anns, n)
  {
    AlwaysWellFormed(anns);
    forall n, b, p: int32 { LastWriteWinsAt(anns, n, b, p); }
    forall n { NodePresentAt(anns, n); }
  }

  // The i-th announcement names this triple.
  ghost predicate Triple(anns: seq<Announcement>, i: nat, n: string, b: string, p: int32) {
    i < |anns| && anns[i].node == n && anns[i].bundle == b && anns[i].port == p
  }

  // What the last announcement for a triple is, by position.
  lemma {:induction false} LastForIs(anns: seq<Announcement>, n: string, b: string, p: int32)
    ensures LastFor(anns, n, b, p) == Some(true) <==>
      exists i: nat :: Triple(anns, i, n, b, p) && anns[i].registered && forall j: nat :: i < j ==> !Triple(anns, j, n, b, p)
  {
    if anns != [] {
      var before, last := anns[..|anns| - 1], anns[|anns| - 1];
      LastForIs(before, n, b, p);
      assert forall j: nat :: j < |before| ==> (Triple(before, j, n, b, p) <==> Triple(anns, j, n, b, p));
      assert Triple(anns, |before|, n, b, p) <==> (last.node, last.bundle, last.port) == (n, b, p);
    }
  }

  // The registry refines last-write-wins: a port is listed iff some
  // announcement registered it and no later one names the same triple.
  lemma {:induction false} LastWriteWins(anns: seq<Announcement>)
    ensures WellFormed(ApplyAll(map[], anns))
    ensures forall n, b, p: int32 :: Listed(ApplyAll(map[], anns), n, b, p) <==>
      exists i: nat :: Triple(anns, i, n, b, p) && anns[i].registered && forall j: nat :: i < j ==> !Triple(anns, j, n, b, p)
    ensures forall n :: n in ApplyAll(map[], anns) <==> EverRegistered(anns, n)
  {
    RefinesLastFor(anns);
    forall n, b, p: int32
      ensures LastFor(anns, n, b, p) == Some(true) <==>
        exists i: nat :: Triple(anns, i, n, b, p) && anns[i].registered && forall j: nat :: i < j ==> !Triple(anns, j, n, b, p)
    {
      LastForIs(anns, n, b, p);
    }
  }

  // A well-formed map is determined by its nodes and its listed triples.
  lemma ServicesExtensional(s: Services, t: Services)
    requires WellFormed(s) && WellFormed(t)
    requires s.Keys == t.Keys
    requires forall n, b, p: int32 :: Listed(s, n, b, p) <==> Listed(t, n, b, p)
    ensures s == t
  {
    forall n | n in s ensures s[n] == t[n] {
      forall b ensures b in s[n] <==> b in t[n] {
        if b in s[n] { assert Listed(s, n, b, s[n][b][0]); }
        if b in t[n] { assert Listed(t, n, b, t[n][b][0]); }
      }
      forall b | b in s[n] ensures s[n][b] == t[n][b] {
        forall p: int32 ensures p in s[n][b] <==> p in t[n][b] {
          assert Listed(s, n, b, p) <==> Listed(t, n, b, p);
        }
        IncreasingUnique(s[n][b], t[n][b]);
      }
    }
  }

  // ------------------------------------------------------- confluence

  // The stream of announcements one node has sent.
  function StreamOf(anns: seq<Announcement>, node: string): seq<Announcement> {
    if anns == [] then []
    else
      var last := anns[|anns| - 1];
      StreamOf(anns[..|anns| - 1], node) + if last.node == node then [last] else []
  }

  lemma {:induction false} StreamDecides(anns: seq<Announcement>, node: string)
    ensures forall b, p: int32 :: LastFor(anns, node, b, p) == LastFor(StreamOf(anns, node), node, b, p)
    ensures EverRegistered(anns, node) <==> EverRegistered(StreamOf(anns, node), node)
  {
    if anns != [] {
      var before, last := anns[..|anns| - 1], anns[|anns| - 1];
      var stream := StreamOf(anns, node);
      StreamDecides(before, node);
      EverRegisteredStep(anns, node);
      if last.node == node {
        assert stream[..|stream| - 1] == StreamOf(before, node) && stream[|stream| - 1] == last;
        EverRegisteredStep(stream, node);
      } else {
        assert stream == StreamOf(before, node);
      }
    }
  }

  // Confluence: any two interleavings of the same per-node streams leave the
  // identical services map.
  lemma {:induction false} Confluence(a: seq<Announcement>, b: seq<Announcement>)
    requires forall node :: StreamOf(a, node) == StreamOf(b, node)
    ensures ApplyAll(map[], a) == ApplyAll(map[], b)
  {
    RefinesLastFor(a);
    RefinesLastFor(b);
    var s, t := ApplyAll(map[], a), ApplyAll(map[], b);
    forall n
      ensures n in s <==> n in t
      ensures forall bd, p: int32 :: Listed(s, n, bd, p) <==> Listed(t, n, bd, p)
    {
      assert StreamOf(a, n) == StreamOf(b, n);
      StreamDecides(a, n);
      StreamDecides(b, n);
    }
    ServicesExtensional(s, t);
  }

  // ------------------------------------------------------- the server object

  // A Go map is a reference: the registry and the xDS server share this cell.
  class ServiceMap {
    var m: Services

    constructor ()
      ensures m == map[]
    {
      m := map[];
    }
  }

  class ServiceRegistryServer {
    const services: ServiceMap
    // What has been sent on the update channel: references, not copies.
    var sent: seq<ServiceMap>

    constructor ()
      ensures fresh(services) && services.m == map[] && sent == []
    {
      services := new ServiceMap();
      sent := [];
    }

    // registerService
    method Register(nodeID: string, bundleID: string, port: int32)
      requires WellFormed(services.m)
      modifies this, services
      ensures services.m == RegisterService(old(services.m), nodeID, bundleID, port)
      ensures sent == old(sent) + [services]
      ensures WellFormed(services.m)
      ensures forall n, b, p: int32 :: Listed(services.m, n, b, p) <==>
        (n, b, p) == (nodeID, bundleID, port) || Listed(old(services.m), n, b, p)
    {
      RegisterOne(services.m, nodeID, bundleID, port);
      if nodeID !in services.m {
        services.m := services.m[nodeID := map[]];
      }
      var bundles := services.m[nodeID];
      var ports := if bundleID in bundles then bundles[bundleID] else [];
      bundles := bundles[bundleID := ports + [port]];
      bundles := bundles[bundleID := Sort(bundles[bundleID])];
      bundles := bundles[bundleID := Compact(bundles[bundleID])];
      services.m := services.m[nodeID := bundles];
      assert bundles == RegisterService(old(services.m), nodeID, bundleID, port)[nodeID];
      assert services.m == RegisterService(old(services.m), nodeID, bundleID, port);
      sent := sent + [services];
    }

    // unregisterService; reading and deleting through a missing node is a no-op
    method Unregister(nodeID: string, bundleID: string, port: int32)
      requires WellFormed(services.m)
      modifies this, services
      ensures services.m == UnregisterService(old(services.m), nodeID, bundleID, port)
      ensures sent == old(sent) + [services]
      ensures WellFormed(services.m)
      ensures forall n, b, p: int32 :: Listed(services.m, n, b, p) <==>
        (n, b, p) != (nodeID, bundleID, port) && Listed(old(services.m), n, b, p)
    {
      UnregisterOne(services.m, nodeID, bundleID, port);
      var idxPort := Index(Lookup(services.m, nodeID, bundleID), port);
      if idxPort.Some? {
        services.m := services.m[nodeID := services.m[nodeID][bundleID :=
          Delete(services.m[nodeID][bundleID], idxPort.value, idxPort.value + 1)]];
      }
      if Lookup(services.m, nodeID, bundleID) == [] && nodeID in services.m {
        services.m := services.m[nodeID := services.m[nodeID] - {bundleID}];
      }
      assert nodeID in services.m ==> services.m[nodeID] == UnregisterService(old(services.m), nodeID, bundleID, port)[nodeID];
      assert services.m == UnregisterService(old(services.m), nodeID, bundleID, port);
      sent := sent + [services];
    }

    // The announcement loop of OpenChannel, for the messages of one stream.
    method ProcessStream(nodeID: string, anns: seq<Announcement>)
      requires WellFormed(services.m)
      requires forall i :: 0 <= i < |anns| ==> anns[i].node == nodeID
      modifies this, services
      ensures services.m == ApplyAll(old(services.m), anns)
      ensures WellFormed(services.m)
      ensures |sent| == |old(sent)| + |anns| && sent[..|old(sent)|] == old(sent)
      ensures forall i :: |old(sent)| <= i < |sent| ==> sent[i] == services
    {
      assert anns[..0] == [];
      for i := 0 to |anns|
        invariant services.m == ApplyAll(old(services.m), anns[..i]) && WellFormed(services.m)
        invariant |sent| == |old(sent)| + i && sent[..|old(sent)|] == old(sent)
        invariant forall k :: |old(sent)| <= k < |sent| ==> sent[k] == services
      {
        assert anns[..i + 1][..i] == anns[..i];
        if anns[i].registered {
          Register(nodeID, anns[i].bundle, anns[i].port);
        } else {
          Unregister(nodeID, anns[i].bundle, anns[i].port);
        }
      }
      assert anns[..|anns|] == anns;
    }
  }
}
