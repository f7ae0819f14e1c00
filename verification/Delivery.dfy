// What a whole mesh of compiled proxies does to a request: every way it can be
// forwarded, from any node's egress, over all iteration orders.
module Delivery {
  import opened Text
  import opened NodeRegistry
  import opened ServiceRegistry
  import opened Compiler
  import opened Routing

  // Node i runs a proxy with snapshot i.
  datatype Mesh = Mesh(w: Input, snaps: seq<Snapshot>)

  ghost predicate HasSnapshot(m: Mesh, i: nat)
    requires i < |m.snaps|
  {
    exists v :: Compiles(m.w, GenerateNodeID(i), v, m.snaps[i])
  }

  ghost predicate Compiled(m: Mesh) {
    && |m.snaps| == |m.w.nodes|
    && forall i: nat :: i < |m.snaps| ==> HasSnapshot(m, i)
  }

  ghost predicate Offers(w: Input, i: nat, b: string) {
    (GenerateNodeID(i), b) in Entries(w.services)
  }

  // What the operator provides: node IDs that resolve, distinct hosts, cluster
  // names that do not clash at any node, and service ports that are valid and
  // not a proxy's own.
  ghost predicate MeshRules(w: Input) {
    && w.check == Intended
    && |w.nodes| <= INT64_LIMIT
    && ValidPorts(w.cfg)
    && WellFormed(w.services)
    && EveryNodeResolves(w)
    && (forall i, j :: 0 <= i < j < |w.nodes| ==> w.nodes[i].host != w.nodes[j].host)
    && (forall n, b, p: int32 :: Listed(w.services, n, b, p) ==> 0 <= p && p != w.cfg.ingressPort && p != w.cfg.egressPort)
    && (forall i: nat :: i < |w.nodes| ==> NoLocalClash(w.services, GenerateNodeID(i)))
  }

  // Bundles are offered under issued IDs only, not under other spellings.
  ghost predicate Canonical(s: Services) {
    forall e :: e in Entries(s) ==> exists k: nat :: e.0 == GenerateNodeID(k)
  }

  function NodeWithHost(nodes: seq<NodeAddr>, host: string): (i: Option<nat>)
    ensures i.Some? ==> i.value < |nodes| && nodes[i.value].host == host
    ensures i.None? ==> forall k :: 0 <= k < |nodes| ==> nodes[k].host != host
  {
    if nodes == [] then None
    else if nodes[0].host == host then Some(0)
    else match NodeWithHost(nodes[1..], host) case None => None case Some(i) => Some(i + 1)
  }

  // The proxy that listens at an address, if one does.
  function ProxyAt(w: Input, at: Endpoint): (i: Option<nat>)
    ensures i.Some? ==> i.value < |w.nodes|
  {
    if at.port == ToUint32(w.cfg.ingressPort) || at.port == ToUint32(w.cfg.egressPort)
    then NodeWithHost(w.nodes, at.host) else None
  }

  // Port p of the host is registered for one of `bundles`, under whatever ID
  // that resolves to the host.
  ghost predicate Served(w: Input, host: string, p: int32, bundles: set<string>) {
    exists n, b :: b in bundles && Listed(w.services, n, b, p) && NodeHost(w, n) == Some(host)
  }

  ghost predicate Serves(w: Input, at: Endpoint, bundles: set<string>) {
    exists p: int32 :: at.port == p && Served(w, at.host, p, bundles)
  }

  // Every way the mesh can forward a request at `at` ends at an instance of
  // one of `bundles`, through at most `budget` proxies.
  ghost predicate Delivered(m: Mesh, at: Endpoint, path: string, bundles: set<string>, budget: nat)
    requires |m.snaps| == |m.w.nodes|
    decreases budget
  {
    match ProxyAt(m.w, at)
    case None => Serves(m.w, at, bundles)
    case Some(i) =>
      var hops := NextHops(m.snaps[i], at.port, path);
      && budget > 0
      && hops != []
      && forall hop :: hop in hops ==> Delivered(m, hop, path, bundles, budget - 1)
  }

  // The offered bundles whose route prefix matches the path.
  ghost function Targets(w: Input, path: string): set<string> {
    set e | e in Entries(w.services) && HasPrefix(path, "/" + e.1) :: e.1
  }

  // ------------------------------------------------------- the condition

  ghost predicate ResolvesTo(w: Input, n: string, k: nat) {
    k < |w.nodes| && GetNodeIdx(n) == Some(k)
  }

  // Every port node k has registered for b under its own ID is a port of one
  // of `bundles`.
  ghost predicate InstancesServe(w: Input, k: nat, b: string, bundles: set<string>)
    requires k < |w.nodes|
  {
    forall p: int32 :: Listed(w.services, GenerateNodeID(k), b, p) ==> Served(w, w.nodes[k].host, p, bundles)
  }

  // The ingress of node k has a bundle of its own for the path, and all that
  // it may pick serve.
  ghost predicate Answers(w: Input, k: nat, path: string, bundles: set<string>)
    requires k < |w.nodes|
  {
    && (exists b :: LocalMatch(w.services, GenerateNodeID(k), path, b))
    && forall b :: LocalMatch(w.services, GenerateNodeID(k), path, b) ==> InstancesServe(w, k, b, bundles)
  }

  // Picking this pair at the egress of node i is right: a local pair if its
  // instances serve, any other one if the node it resolves to answers - which
  // need not be under the ID of the pair.
  ghost predicate Good(w: Input, i: nat, path: string, e: Entry, bundles: set<string>)
    requires i < |w.nodes|
  {
    if e.0 == GenerateNodeID(i) then InstancesServe(w, i, e.1, bundles)
    else exists k: nat :: ResolvesTo(w, e.0, k) && Answers(w, k, path, bundles)
  }

  // The condition on the registry alone.
  ghost predicate Reaches(w: Input, i: nat, path: string, bundles: set<string>)
    requires i < |w.nodes|
  {
    && (exists e: Entry :: Candidate(w.services, GenerateNodeID(i), path, e))
    && forall e: Entry :: Candidate(w.services, GenerateNodeID(i), path, e) ==> Good(w, i, path, e, bundles)
  }

  // ------------------------------------------------------- addresses

  lemma HostResolves(w: Input, k: nat)
    requires MeshRules(w) && k < |w.nodes|
    ensures NodeHost(w, GenerateNodeID(k)) == Some(w.nodes[k].host)
    ensures NodeWithHost(w.nodes, w.nodes[k].host) == Some(k)
  {
    NodeIdRoundTrip(k);
  }

  // The node an offering ID resolves to.
  lemma NodeOf(w: Input, n: string) returns (k: nat)
    requires w.check == Intended && NodeHost(w, n).Some?
    ensures ResolvesTo(w, n, k) && NodeHost(w, n) == Some(w.nodes[k].host)
  {
    NodeIdxNeverNegative(n);
    k := GetNodeIdx(n).value;
  }

  lemma ListensAt(w: Input, i: nat, port: nat)
    requires MeshRules(w) && i < |w.nodes| && (port == w.cfg.ingressPort || port == w.cfg.egressPort)
    ensures ProxyAt(w, Endpoint(w.nodes[i].host, port)) == Some(i)
  {
    HostResolves(w, i);
    PortConversionsAgree(w.cfg.ingressPort);
    PortConversionsAgree(w.cfg.egressPort);
  }

  // One step of Delivered at a proxy.
  lemma ProxyDelivers(m: Mesh, at: Endpoint, i: nat, path: string, bundles: set<string>, budget: nat)
    requires |m.w.nodes| == |m.snaps| && ProxyAt(m.w, at) == Some(i)
    ensures Delivered(m, at, path, bundles, budget + 1)
      <==> AllDelivered(m, NextHops(m.snaps[i], at.port, path), path, bundles, budget)
  {
  }

  ghost predicate AllDelivered(m: Mesh, hops: seq<Endpoint>, path: string, bundles: set<string>, budget: nat)
    requires |m.snaps| == |m.w.nodes|
  {
    hops != [] && forall hop :: hop in hops ==> Delivered(m, hop, path, bundles, budget)
  }

  // ------------------------------------------------------- clusters

  // The cluster of a bundle offered on node i holds its ports, in order.
  lemma LocalEndpoints(w: Input, i: nat, v: int, snap: Snapshot, b: string)
    requires MeshRules(w) && i < |w.nodes| && Offers(w, i, b)
    requires Compiles(w, GenerateNodeID(i), v, snap)
    ensures Some(EndpointsOf(snap, GenerateClusterName(b, true)))
      == MakeEndpoints(w, GenerateNodeID(i), Lookup(w.services, GenerateNodeID(i), b))
  {
    var local := GenerateNodeID(i);
    ClusterNamesComplete(w, local, snap.clusters);
    assert EntryName(local, (local, b)) in Names(snap.clusters);
    var c := FindCluster(snap.clusters, GenerateClusterName(b, true)).value;
    LocalClusterIs(w, local, snap.clusters, c, b);
  }

  // What those endpoints are.
  lemma PortsOf(w: Input, k: nat, b: string)
    requires MeshRules(w) && k < |w.nodes| && Offers(w, k, b)
    ensures var es := MakeEndpoints(w, GenerateNodeID(k), Lookup(w.services, GenerateNodeID(k), b));
      && es.Some? && es.value != []
      && (forall p: int32 :: Listed(w.services, GenerateNodeID(k), b, p) ==> Endpoint(w.nodes[k].host, p) in es.value)
      && forall hop :: hop in es.value ==> exists p: int32 ::
        Listed(w.services, GenerateNodeID(k), b, p) && 0 <= p && hop == Endpoint(w.nodes[k].host, p)
  {
    HostResolves(w, k);
    var ports := Lookup(w.services, GenerateNodeID(k), b);
    var es := MakeEndpoints(w, GenerateNodeID(k), ports).value;
    forall t | 0 <= t < |ports|
      ensures Listed(w.services, GenerateNodeID(k), b, ports[t]) && es[t] == Endpoint(w.nodes[k].host, ports[t])
    {
      assert Listed(w.services, GenerateNodeID(k), b, ports[t]);
      PortConversionsAgree(ports[t]);
    }
    forall p: int32 | Listed(w.services, GenerateNodeID(k), b, p) ensures Endpoint(w.nodes[k].host, p) in es {
      var t :| 0 <= t < |ports| && ports[t] == p;
      assert es[t] in es;
    }
    forall hop | hop in es
      ensures exists p: int32 :: Listed(w.services, GenerateNodeID(k), b, p) && 0 <= p && hop == Endpoint(w.nodes[k].host, p)
    {
      var t :| 0 <= t < |es| && es[t] == hop;
      assert Listed(w.services, GenerateNodeID(k), b, ports[t]);
    }
  }

  // The cluster of a bundle offered elsewhere holds one ingress address, that
  // of the node some other offering ID resolves to.
  lemma RemoteEndpoint(w: Input, i: nat, v: int, snap: Snapshot, b: string) returns (n: string, k: nat)
    requires MeshRules(w) && i < |w.nodes| && Compiles(w, GenerateNodeID(i), v, snap)
    requires exists n :: n != GenerateNodeID(i) && (n, b) in Entries(w.services)
    ensures n != GenerateNodeID(i) && (n, b) in Entries(w.services) && ResolvesTo(w, n, k)
    ensures EndpointsOf(snap, GenerateClusterName(b, false)) == [Endpoint(w.nodes[k].host, w.cfg.ingressPort)]
  {
    var local := GenerateNodeID(i);
    ClusterNamesComplete(w, local, snap.clusters);
    var x :| x != local && (x, b) in Entries(w.services);
    assert EntryName(local, (x, b)) in Names(snap.clusters);
    var c := FindCluster(snap.clusters, GenerateClusterName(b, false)).value;
    n := RemoteClusterIs(w, local, snap.clusters, c, b);
    k := NodeOf(w, n);
    PortConversionsAgree(w.cfg.ingressPort);
  }

  // ------------------------------------------------------- delivery

  // An instance is where a request ends, well or not.
  lemma AtInstance(m: Mesh, k: nat, b: string, p: int32, path: string, bundles: set<string>, budget: nat)
    requires MeshRules(m.w) && k < |m.w.nodes| == |m.snaps| && Listed(m.w.services, GenerateNodeID(k), b, p)
    ensures Delivered(m, Endpoint(m.w.nodes[k].host, p), path, bundles, budget) <==> Served(m.w, m.w.nodes[k].host, p, bundles)
  {
    PortConversionsAgree(m.w.cfg.ingressPort);
    PortConversionsAgree(m.w.cfg.egressPort);
    assert ProxyAt(m.w, Endpoint(m.w.nodes[k].host, p)) == None;
  }

  // The local cluster of a serving bundle delivers without another proxy.
  lemma LocalClusterDelivers(m: Mesh, i: nat, v: int, b: string, path: string, bundles: set<string>, budget: nat)
    requires MeshRules(m.w) && i < |m.w.nodes| == |m.snaps| && Offers(m.w, i, b)
    requires Compiles(m.w, GenerateNodeID(i), v, m.snaps[i])
    requires InstancesServe(m.w, i, b, bundles)
    ensures AllDelivered(m, EndpointsOf(m.snaps[i], GenerateClusterName(b, true)), path, bundles, budget)
  {
    LocalEndpoints(m.w, i, v, m.snaps[i], b);
    PortsOf(m.w, i, b);
    forall hop | hop in EndpointsOf(m.snaps[i], GenerateClusterName(b, true))
      ensures Delivered(m, hop, path, bundles, budget)
    {
      var p: int32 :| Listed(m.w.services, GenerateNodeID(i), b, p) && 0 <= p && hop == Endpoint(m.w.nodes[i].host, p);
      AtInstance(m, i, b, p, path, bundles, budget);
    }
  }

  // A request at the ingress of a node that answers.
  lemma IngressDelivers(m: Mesh, k: nat, path: string, bundles: set<string>)
    requires MeshRules(m.w) && Compiled(m) && k < |m.snaps| && Answers(m.w, k, path, bundles)
    ensures Delivered(m, Endpoint(m.w.nodes[k].host, m.w.cfg.ingressPort), path, bundles, 1)
  {
    var at := Endpoint(m.w.nodes[k].host, m.w.cfg.ingressPort);
    assert HasSnapshot(m, k);
    var v :| Compiles(m.w, GenerateNodeID(k), v, m.snaps[k]);
    var b := IngressHops(m.w, GenerateNodeID(k), v, m.snaps[k], path);
    LocalClusterDelivers(m, k, v, b, path, bundles, 0);
    ListensAt(m.w, k, at.port);
    ProxyDelivers(m, at, k, path, bundles, 0);
  }

  // The remote cluster of a matching bundle delivers through one ingress.
  lemma RemoteClusterDelivers(m: Mesh, i: nat, v: int, b: string, path: string, bundles: set<string>)
    requires MeshRules(m.w) && Compiled(m) && i < |m.snaps|
    requires Compiles(m.w, GenerateNodeID(i), v, m.snaps[i])
    requires RemoteMatch(m.w.services, GenerateNodeID(i), path, b)
    requires Reaches(m.w, i, path, bundles)
    ensures AllDelivered(m, EndpointsOf(m.snaps[i], GenerateClusterName(b, false)), path, bundles, 1)
  {
    var n, k := RemoteEndpoint(m.w, i, v, m.snaps[i], b);
    assert Candidate(m.w.services, GenerateNodeID(i), path, (n, b));
    assert Good(m.w, i, path, (n, b), bundles);
    IngressDelivers(m, k, path, bundles);
  }

  // The endpoints an egress proxy picks from all deliver, ...
  lemma EgressDelivers(m: Mesh, i: nat, path: string, bundles: set<string>)
    requires MeshRules(m.w) && Compiled(m) && i < |m.snaps| && Reaches(m.w, i, path, bundles)
    ensures AllDelivered(m, NextHops(m.snaps[i], m.w.cfg.egressPort, path), path, bundles, 1)
  {
    var local := GenerateNodeID(i);
    assert HasSnapshot(m, i);
    var v :| Compiles(m.w, local, v, m.snaps[i]);
    var b := EgressHops(m.w, local, v, m.snaps[i], path);
    CandidateMatches(m.w.services, local, path);
    if exists x :: RemoteMatch(m.w.services, local, path, x) {
      RemoteClusterDelivers(m, i, v, b, path, bundles);
    } else {
      assert Candidate(m.w.services, local, path, (local, b));
      LocalClusterDelivers(m, i, v, b, path, bundles, 1);
    }
  }

  // ... and there are none without a candidate.
  lemma NothingMatches(m: Mesh, i: nat, path: string)
    requires MeshRules(m.w) && Compiled(m) && i < |m.snaps|
    requires !exists e: Entry :: Candidate(m.w.services, GenerateNodeID(i), path, e)
    ensures NextHops(m.snaps[i], m.w.cfg.egressPort, path) == []
  {
    assert HasSnapshot(m, i);
    var v :| Compiles(m.w, GenerateNodeID(i), v, m.snaps[i]);
    var _ := EgressHops(m.w, GenerateNodeID(i), v, m.snaps[i], path);
    CandidateMatches(m.w.services, GenerateNodeID(i), path);
  }

  ghost predicate DeliveredFrom(m: Mesh, i: nat, path: string, bundles: set<string>)
    requires i < |m.snaps| == |m.w.nodes|
  {
    Delivered(m, Endpoint(m.w.nodes[i].host, ToUint32(m.w.cfg.egressPort)), path, bundles, 2)
  }

  lemma DeliveredByHops(m: Mesh, i: nat, path: string, bundles: set<string>)
    requires MeshRules(m.w) && Compiled(m) && i < |m.snaps|
    ensures DeliveredFrom(m, i, path, bundles) <==>
      AllDelivered(m, NextHops(m.snaps[i], m.w.cfg.egressPort, path), path, bundles, 1)
  {
    PortConversionsAgree(m.w.cfg.egressPort);
    var at := Endpoint(m.w.nodes[i].host, m.w.cfg.egressPort);
    ListensAt(m.w, i, at.port);
    ProxyDelivers(m, at, i, path, bundles, 1);
  }

  // ------------------------------------------------------- failures

  // The mesh in which every traversal took the same order.
  ghost function MeshAlong(w: Input, order: seq<Entry>): (m: Mesh)
    requires EveryNodeResolves(w) && Traverses(order, w.services)
    ensures m.w == w && |m.snaps| == |w.nodes|
    ensures forall j: nat :: j < |w.nodes| ==> m.snaps[j] == SnapshotAlong(w, GenerateNodeID(j), order)
  {
    Mesh(w, seq(|w.nodes|, j requires 0 <= j < |w.nodes| => SnapshotAlong(w, GenerateNodeID(j), order)))
  }

  ghost function SnapshotAlong(w: Input, local: string, order: seq<Entry>): (snap: Snapshot)
    requires EveryNodeResolves(w) && Traverses(order, w.services)
    ensures Compiles(w, local, 0, snap)
  {
    PassOfResolvable(w, local, order);
    var clusters := ClusterPass(w, local, order).value;
    assert ClustersFrom(w, local, clusters) && TablesFrom(w, local, RouteTables(local, order));
    Snapshot(VersionString(0), clusters, RouteTables(local, order), Listeners(w.cfg))
  }

  lemma {:induction false} FirstCluster(w: Input, local: string, order: seq<Entry>)
    requires order != [] && ClusterPass(w, local, order).Some?
    ensures var cs := ClusterPass(w, local, order).value; cs != [] && IsClusterOf(w, local, order[0], cs[0])
  {
    var before := order[..|order| - 1];
    if before == [] {
      assert ClusterPass(w, local, before) == Some([]);
    } else {
      FirstCluster(w, local, before);
    }
  }

  // In that mesh the pair visited first decides at every proxy: its cluster
  // is the first one of its name, and its route the first one that matches.
  lemma FirstEndpoints(w: Input, local: string, order: seq<Entry>)
    requires EveryNodeResolves(w) && Traverses(order, w.services) && order != []
    ensures var e := order[0];
      Some(EndpointsOf(SnapshotAlong(w, local, order), EntryName(local, e))) == MakeEndpoints(w, e.0, EntryPorts(w, local, e))
  {
    PassOfResolvable(w, local, order);
    FirstCluster(w, local, order);
  }

  lemma FirstAtEgress(w: Input, local: string, order: seq<Entry>, path: string)
    requires MeshRules(w) && Traverses(order, w.services)
    requires order != [] && Candidate(w.services, local, path, order[0])
    ensures Some(NextHops(SnapshotAlong(w, local, order), w.cfg.egressPort, path))
      == MakeEndpoints(w, order[0].0, EntryPorts(w, local, order[0]))
  {
    FirstEndpoints(w, local, order);
    FirstRoute(w.services, local, order, path);
    TablesOfPorts(w.cfg);
    TablesBind(local, order);
  }

  lemma AlongIsCompiled(w: Input, order: seq<Entry>)
    requires MeshRules(w) && Traverses(order, w.services)
    ensures Compiled(MeshAlong(w, order))
  {
    var m := MeshAlong(w, order);
    forall j: nat | j < |m.snaps| ensures HasSnapshot(m, j) {
      assert Compiles(w, GenerateNodeID(j), 0, m.snaps[j]);
    }
  }

  // All bundles of a node, this one first.
  lemma {:induction false} VisitNode(start: seq<Entry>, s: Services, n: string) returns (full: seq<Entry>)
    requires Begins(start, s) && start != [] && forall j :: 0 <= j < |start| ==> start[j].0 == n
    ensures Begins(full, s) && start <= full && forall j :: 0 <= j < |full| ==> full[j].0 == n
    ensures forall x :: x in Entries(s) && x.0 == n ==> x in full
    decreases LeftToVisit(start, s)
  {
    if x: Entry :| x in Entries(s) && x !in start && x.0 == n {
      VisitNext(start, x);
      forall y | y in Entries(s) && y !in start + [x] ensures Open(start + [x], y.0) {
      }
      assert x in LeftToVisit(start, s) && x !in LeftToVisit(start + [x], s);
      full := VisitNode(start + [x], s, n);
    } else {
      full := start;
    }
  }

  // Then this bundle of another node.
  lemma VisitSecond(full: seq<Entry>, s: Services, n: string, f: Entry)
    requires Begins(full, s) && f in Entries(s) && f.0 != n && forall j :: 0 <= j < |full| ==> full[j].0 == n
    requires forall x :: x in Entries(s) && x.0 == n ==> x in full
    ensures Begins(full + [f], s)
  {
    assert f !in full;
    VisitNext(full, f);
    forall y | y in Entries(s) && y !in full + [f] ensures Open(full + [f], y.0) {
      assert y.0 != n;
    }
  }

  // An order that leads a request from pair e to pair f: e is the first pair
  // visited, or f itself, and f the first one of its node.
  lemma OrderThrough(s: Services, e: Entry, f: Entry) returns (order: seq<Entry>)
    requires e in Entries(s) && f in Entries(s)
    ensures Traverses(order, s) && order != []
    ensures order[0] == if e.0 == f.0 then f else e
    ensures RoutePass(f.0, order).1 != [] && RoutePass(f.0, order).1[0] == RouteFor(f.0, f)
  {
    if e.0 == f.0 {
      order := TraversalFrom(f, s);
      FirstEntryFirst(f.0, order);
    } else {
      var full := VisitNode([e], s, e.0);
      VisitSecond(full, s, e.0, f);
      order := ExtendTraversal(full + [f], s);
      FirstOfNode(full, f);
      RoutePassGrows(f.0, full + [f], order);
      assert order[0] == full[0] == [e][0];
    }
  }

  lemma {:induction false} NoneOfNode(local: string, order: seq<Entry>)
    requires forall j :: 0 <= j < |order| ==> order[j].0 != local
    ensures RoutePass(local, order).1 == []
  {
    if order != [] {
      NoneOfNode(local, order[..|order| - 1]);
    }
  }

  lemma FirstOfNode(full: seq<Entry>, f: Entry)
    requires forall j :: 0 <= j < |full| ==> full[j].0 != f.0
    ensures RoutePass(f.0, full + [f]).1 == [RouteFor(f.0, f)]
  {
    NoneOfNode(f.0, full);
    assert (full + [f])[..|full|] == full;
  }

  // At node k the first matching route of its own leads to all its ports.
  lemma IngressPicks(w: Input, order: seq<Entry>, path: string, k: nat, b: string, p: int32)
    requires MeshRules(w) && k < |w.nodes| && Traverses(order, w.services)
    requires LocalMatch(w.services, GenerateNodeID(k), path, b) && Listed(w.services, GenerateNodeID(k), b, p)
    requires var routes := RoutePass(GenerateNodeID(k), order).1;
      routes != [] && routes[0] == RouteFor(GenerateNodeID(k), (GenerateNodeID(k), b))
    ensures Endpoint(w.nodes[k].host, p) in NextHops(SnapshotAlong(w, GenerateNodeID(k), order), w.cfg.ingressPort, path)
  {
    var local := GenerateNodeID(k);
    TablesOfPorts(w.cfg);
    TablesBind(local, order);
    LocalEndpoints(w, k, 0, SnapshotAlong(w, local, order), b);
    PortsOf(w, k, b);
  }

  lemma ProxyMisses(m: Mesh, at: Endpoint, i: nat, hop: Endpoint, path: string, bundles: set<string>, budget: nat)
    requires |m.w.nodes| == |m.snaps| && ProxyAt(m.w, at) == Some(i)
    requires hop in NextHops(m.snaps[i], at.port, path) && !Delivered(m, hop, path, bundles, budget)
    ensures !Delivered(m, at, path, bundles, budget + 1)
  {
  }

  // A wrong instance a node may pick for itself ...
  lemma IngressMisses(w: Input, order: seq<Entry>, path: string, bundles: set<string>, k: nat, b: string, p: int32)
    requires MeshRules(w) && k < |w.nodes| && Traverses(order, w.services)
    requires LocalMatch(w.services, GenerateNodeID(k), path, b) && Listed(w.services, GenerateNodeID(k), b, p)
    requires !Served(w, w.nodes[k].host, p, bundles)
    requires var routes := RoutePass(GenerateNodeID(k), order).1;
      routes != [] && routes[0] == RouteFor(GenerateNodeID(k), (GenerateNodeID(k), b))
    ensures !Delivered(MeshAlong(w, order), Endpoint(w.nodes[k].host, w.cfg.ingressPort), path, bundles, 1)
  {
    var m := MeshAlong(w, order);
    IngressPicks(w, order, path, k, b, p);
    AtInstance(m, k, b, p, path, bundles, 0);
    ListensAt(w, k, w.cfg.ingressPort);
    ProxyMisses(m, Endpoint(w.nodes[k].host, w.cfg.ingressPort), k, Endpoint(w.nodes[k].host, p), path, bundles, 0);
  }

  // ... and an ingress without a route.
  lemma IngressLoses(m: Mesh, k: nat, path: string, bundles: set<string>)
    requires MeshRules(m.w) && Compiled(m) && k < |m.snaps|
    requires !exists b :: LocalMatch(m.w.services, GenerateNodeID(k), path, b)
    ensures !Delivered(m, Endpoint(m.w.nodes[k].host, m.w.cfg.ingressPort), path, bundles, 1)
  {
    assert HasSnapshot(m, k);
    var v :| Compiles(m.w, GenerateNodeID(k), v, m.snaps[k]);
    IngressSilent(m.w, GenerateNodeID(k), v, m.snaps[k], path);
    ListensAt(m.w, k, m.w.cfg.ingressPort);
  }

  // A remote pair visited first takes the request to the ingress of its node.
  lemma RemoteFirst(w: Input, order: seq<Entry>, i: nat, path: string, k: nat)
    requires MeshRules(w) && i < |w.nodes| && Traverses(order, w.services) && order != []
    requires Candidate(w.services, GenerateNodeID(i), path, order[0]) && order[0].0 != GenerateNodeID(i)
    requires ResolvesTo(w, order[0].0, k)
    ensures NextHops(MeshAlong(w, order).snaps[i], w.cfg.egressPort, path) == [Endpoint(w.nodes[k].host, w.cfg.ingressPort)]
  {
    FirstAtEgress(w, GenerateNodeID(i), order, path);
    PortConversionsAgree(w.cfg.ingressPort);
  }

  lemma EgressMisses(m: Mesh, i: nat, path: string, bundles: set<string>, hop: Endpoint)
    requires MeshRules(m.w) && Compiled(m) && i < |m.snaps|
    requires hop in NextHops(m.snaps[i], m.w.cfg.egressPort, path) && !Delivered(m, hop, path, bundles, 1)
    ensures !DeliveredFrom(m, i, path, bundles)
  {
    DeliveredByHops(m, i, path, bundles);
  }

  // A local candidate with a port that does not serve.
  lemma LocalMiss(w: Input, i: nat, path: string, bundles: set<string>, b: string) returns (m: Mesh)
    requires MeshRules(w) && i < |w.nodes| && !InstancesServe(w, i, b, bundles)
    requires Candidate(w.services, GenerateNodeID(i), path, (GenerateNodeID(i), b))
    ensures m.w == w && Compiled(m) && !DeliveredFrom(m, i, path, bundles)
  {
    var p: int32 :| Listed(w.services, GenerateNodeID(i), b, p) && !Served(w, w.nodes[i].host, p, bundles);
    var order := TraversalFrom((GenerateNodeID(i), b), w.services);
    m := MeshAlong(w, order);
    AlongIsCompiled(w, order);
    FirstAtEgress(w, GenerateNodeID(i), order, path);
    PortsOf(w, i, b);
    AtInstance(m, i, b, p, path, bundles, 1);
    EgressMisses(m, i, path, bundles, Endpoint(w.nodes[i].host, p));
  }

  // A remote candidate whose node has nothing for the path.
  lemma LostRequest(w: Input, i: nat, path: string, bundles: set<string>, e: Entry, k: nat) returns (m: Mesh)
    requires MeshRules(w) && i < |w.nodes| && ResolvesTo(w, e.0, k)
    requires Candidate(w.services, GenerateNodeID(i), path, e) && e.0 != GenerateNodeID(i)
    requires !exists b :: LocalMatch(w.services, GenerateNodeID(k), path, b)
    ensures m.w == w && Compiled(m) && !DeliveredFrom(m, i, path, bundles)
  {
    var order := TraversalFrom(e, w.services);
    m := MeshAlong(w, order);
    AlongIsCompiled(w, order);
    RemoteFirst(w, order, i, path, k);
    IngressLoses(m, k, path, bundles);
    EgressMisses(m, i, path, bundles, Endpoint(w.nodes[k].host, w.cfg.ingressPort));
  }

  // A remote candidate whose node may pick a port that does not serve.
  lemma RemoteMiss(w: Input, i: nat, path: string, bundles: set<string>, e: Entry, k: nat, b: string) returns (m: Mesh)
    requires MeshRules(w) && i < |w.nodes| && ResolvesTo(w, e.0, k)
    requires Candidate(w.services, GenerateNodeID(i), path, e) && e.0 != GenerateNodeID(i)
    requires LocalMatch(w.services, GenerateNodeID(k), path, b) && !InstancesServe(w, k, b, bundles)
    ensures m.w == w && Compiled(m) && !DeliveredFrom(m, i, path, bundles)
  {
    var p: int32 :| Listed(w.services, GenerateNodeID(k), b, p) && !Served(w, w.nodes[k].host, p, bundles);
    var order := OrderThrough(w.services, e, (GenerateNodeID(k), b));
    m := MeshAlong(w, order);
    AlongIsCompiled(w, order);
    RemoteFirst(w, order, i, path, k);
    IngressMisses(w, order, path, bundles, k, b, p);
    EgressMisses(m, i, path, bundles, Endpoint(w.nodes[k].host, w.cfg.ingressPort));
  }

  lemma BadCandidate(w: Input, i: nat, path: string, bundles: set<string>, e: Entry) returns (m: Mesh)
    requires MeshRules(w) && i < |w.nodes| && Candidate(w.services, GenerateNodeID(i), path, e) && !Good(w, i, path, e, bundles)
    ensures m.w == w && Compiled(m) && !DeliveredFrom(m, i, path, bundles)
  {
    if e.0 == GenerateNodeID(i) {
      assert e == (GenerateNodeID(i), e.1);
      m := LocalMiss(w, i, path, bundles, e.1);
    } else {
      var k := NodeOf(w, e.0);
      if b :| LocalMatch(w.services, GenerateNodeID(k), path, b) && !InstancesServe(w, k, b, bundles) {
        m := RemoteMiss(w, i, path, bundles, e, k, b);
      } else {
        m := LostRequest(w, i, path, bundles, e, k);
      }
    }
  }

  lemma NoCandidate(w: Input, i: nat, path: string, bundles: set<string>) returns (m: Mesh)
    requires MeshRules(w) && i < |w.nodes| && !exists e: Entry :: Candidate(w.services, GenerateNodeID(i), path, e)
    ensures m.w == w && Compiled(m) && !DeliveredFrom(m, i, path, bundles)
  {
    var order := SomeTraversal(w.services);
    m := MeshAlong(w, order);
    AlongIsCompiled(w, order);
    NothingMatches(m, i, path);
    DeliveredByHops(m, i, path, bundles);
  }

  // A request at the egress of node i reaches an instance of the chosen
  // bundles within two proxies, in whatever mesh the iteration orders lead to,
  // if and only if there is a candidate and every candidate is good.
  lemma DeliveryIsExact(w: Input, i: nat, path: string, bundles: set<string>)
    requires MeshRules(w) && i < |w.nodes|
    ensures (forall m: Mesh | m.w == w && Compiled(m) :: DeliveredFrom(m, i, path, bundles)) <==> Reaches(w, i, path, bundles)
  {
    if Reaches(w, i, path, bundles) {
      forall m: Mesh | m.w == w && Compiled(m) ensures DeliveredFrom(m, i, path, bundles) {
        EgressDelivers(m, i, path, bundles);
        DeliveredByHops(m, i, path, bundles);
      }
    } else if e: Entry :| Candidate(w.services, GenerateNodeID(i), path, e) && !Good(w, i, path, e, bundles) {
      var m := BadCandidate(w, i, path, bundles, e);
    } else {
      var m := NoCandidate(w, i, path, bundles);
    }
  }

  // ------------------------------------------------------- aliases

  // The pair is offered under an ID whose node has nothing for the path under
  // its own.
  ghost predicate Homeless(w: Input, path: string, e: Entry) {
    exists k: nat :: ResolvesTo(w, e.0, k) && !exists b :: LocalMatch(w.services, GenerateNodeID(k), path, b)
  }

  lemma TargetsServe(w: Input, k: nat, path: string, b: string)
    requires MeshRules(w) && k < |w.nodes| && LocalMatch(w.services, GenerateNodeID(k), path, b)
    ensures InstancesServe(w, k, b, Targets(w, path))
  {
    HostResolves(w, k);
    assert (GenerateNodeID(k), b).1 in Targets(w, path);
  }

  lemma TargetsReached(w: Input, i: nat, path: string)
    requires MeshRules(w) && i < |w.nodes|
    ensures Reaches(w, i, path, Targets(w, path)) <==>
      && (exists e: Entry :: Candidate(w.services, GenerateNodeID(i), path, e))
      && forall e: Entry :: Candidate(w.services, GenerateNodeID(i), path, e) ==> !Homeless(w, path, e)
  {
    forall k: nat, b | k < |w.nodes| && LocalMatch(w.services, GenerateNodeID(k), path, b)
      ensures InstancesServe(w, k, b, Targets(w, path))
    {
      TargetsServe(w, k, path, b);
    }
    forall e: Entry | Candidate(w.services, GenerateNodeID(i), path, e)
      ensures Good(w, i, path, e, Targets(w, path)) <==> !Homeless(w, path, e)
    {
      OwnMatch(w, i, path, e);
      var k := NodeOf(w, e.0);
    }
  }

  // A pair under an issued ID is at home.
  lemma OwnMatch(w: Input, i: nat, path: string, e: Entry)
    requires MeshRules(w) && i < |w.nodes| && e in Entries(w.services) && HasPrefix(path, "/" + e.1)
    ensures e.0 == GenerateNodeID(i) ==> LocalMatch(w.services, GenerateNodeID(i), path, e.1) && ResolvesTo(w, e.0, i)
  {
    NodeIdRoundTrip(i);
    assert e == (e.0, e.1);
  }

  // A request is lost in some mesh, to all matching bundles, if and only if
  // nothing matches or some candidate is homeless; only a bundle registered
  // under an alias of its node's ID is, and only while the node offers nothing
  // for the path under its own.
  lemma {:induction false} LossIsExact(w: Input, i: nat, path: string)
    requires MeshRules(w) && i < |w.nodes|
    ensures (exists m: Mesh | m.w == w && Compiled(m) :: !DeliveredFrom(m, i, path, Targets(w, path))) <==>
      || !(exists e: Entry :: Candidate(w.services, GenerateNodeID(i), path, e))
      || exists e: Entry :: Candidate(w.services, GenerateNodeID(i), path, e) && Homeless(w, path, e)
    ensures forall e, k: nat :: e in Entries(w.services) && HasPrefix(path, "/" + e.1) && Homeless(w, path, e) && k < |w.nodes| ==>
      e.0 != GenerateNodeID(k)
  {
    DeliveryIsExact(w, i, path, Targets(w, path));
    TargetsReached(w, i, path);
    forall e, k: nat | e in Entries(w.services) && HasPrefix(path, "/" + e.1) && Homeless(w, path, e) && k < |w.nodes|
      ensures e.0 != GenerateNodeID(k)
    {
      OwnMatch(w, k, path, e);
    }
  }

  // When every candidate is homeless the request is lost in every mesh.
  lemma AliasBreaksDelivery(m: Mesh, i: nat, path: string, bundles: set<string>)
    requires MeshRules(m.w) && Compiled(m) && i < |m.snaps|
    requires forall e: Entry :: Candidate(m.w.services, GenerateNodeID(i), path, e) ==> Homeless(m.w, path, e)
    ensures !DeliveredFrom(m, i, path, bundles)
  {
    var local := GenerateNodeID(i);
    assert HasSnapshot(m, i);
    var v :| Compiles(m.w, local, v, m.snaps[i]);
    var b := EgressHops(m.w, local, v, m.snaps[i], path);
    DeliveredByHops(m, i, path, bundles);
    if exists x :: RemoteMatch(m.w.services, local, path, x) {
      var n, k := RemoteEndpoint(m.w, i, v, m.snaps[i], b);
      assert Candidate(m.w.services, local, path, (n, b));
      IngressLoses(m, k, path, bundles);
      EgressMisses(m, i, path, bundles, Endpoint(m.w.nodes[k].host, m.w.cfg.ingressPort));
    } else if exists x :: LocalMatch(m.w.services, local, path, x) {
      assert Candidate(m.w.services, local, path, (local, b));
      OwnMatch(m.w, i, path, (local, b));
      assert false;
    }
  }

  // ------------------------------------------------------- canonical IDs

  // Every port of the pair is a port of one of `bundles` under the same ID.
  ghost predicate OwnPortsServe(s: Services, e: Entry, bundles: set<string>) {
    forall p: int32 :: Listed(s, e.0, e.1, p) ==> exists b :: b in bundles && Listed(s, e.0, b, p)
  }

  ghost predicate CandidatesServe(s: Services, local: string, path: string, bundles: set<string>) {
    && (exists e: Entry :: Candidate(s, local, path, e))
    && forall e: Entry :: Candidate(s, local, path, e) ==> OwnPortsServe(s, e, bundles)
  }

  lemma CanonicalNode(w: Input, e: Entry) returns (k: nat)
    requires MeshRules(w) && Canonical(w.services) && e in Entries(w.services)
    ensures k < |w.nodes| && e.0 == GenerateNodeID(k) && ResolvesTo(w, e.0, k)
  {
    k :| e.0 == GenerateNodeID(k);
    IssuedIdsStayValid(k, |w.nodes|);
    NodeIdxNeverNegative(e.0);
  }

  lemma ServedCanonically(w: Input, k: nat, p: int32, bundles: set<string>)
    requires MeshRules(w) && Canonical(w.services) && k < |w.nodes|
    ensures Served(w, w.nodes[k].host, p, bundles) <==> exists b :: b in bundles && Listed(w.services, GenerateNodeID(k), b, p)
  {
    HostResolves(w, k);
    if n, b :| b in bundles && Listed(w.services, n, b, p) && NodeHost(w, n) == Some(w.nodes[k].host) {
      var j := CanonicalNode(w, (n, b));
      HostResolves(w, j);
    }
  }

  lemma InstancesCanonically(w: Input, k: nat, b: string, bundles: set<string>)
    requires MeshRules(w) && Canonical(w.services) && k < |w.nodes|
    ensures InstancesServe(w, k, b, bundles) <==> OwnPortsServe(w.services, (GenerateNodeID(k), b), bundles)
  {
    forall p: int32
      ensures Served(w, w.nodes[k].host, p, bundles) <==> exists b :: b in bundles && Listed(w.services, GenerateNodeID(k), b, p)
    {
      ServedCanonically(w, k, p, bundles);
    }
  }

  // What node k picks for itself may be picked at any other egress.
  lemma AnswersCanonically(w: Input, i: nat, path: string, e: Entry, k: nat, bundles: set<string>)
    requires MeshRules(w) && Canonical(w.services) && i < |w.nodes| && k < |w.nodes|
    requires Candidate(w.services, GenerateNodeID(i), path, e) && e.0 == GenerateNodeID(k) && e.0 != GenerateNodeID(i)
    ensures CandidatesServe(w.services, GenerateNodeID(i), path, bundles) ==> Answers(w, k, path, bundles)
    ensures Answers(w, k, path, bundles) ==> OwnPortsServe(w.services, e, bundles)
  {
    OwnMatch(w, k, path, e);
    InstancesCanonically(w, k, e.1, bundles);
    assert e == (GenerateNodeID(k), e.1);
    if CandidatesServe(w.services, GenerateNodeID(i), path, bundles) {
      forall b | LocalMatch(w.services, GenerateNodeID(k), path, b) ensures InstancesServe(w, k, b, bundles) {
        assert Candidate(w.services, GenerateNodeID(i), path, (GenerateNodeID(k), b));
        InstancesCanonically(w, k, b, bundles);
      }
    }
  }

  lemma GoodCanonically(w: Input, i: nat, path: string, e: Entry, bundles: set<string>)
    requires MeshRules(w) && Canonical(w.services) && i < |w.nodes| && Candidate(w.services, GenerateNodeID(i), path, e)
    ensures CandidatesServe(w.services, GenerateNodeID(i), path, bundles) ==> Good(w, i, path, e, bundles)
    ensures Good(w, i, path, e, bundles) ==> OwnPortsServe(w.services, e, bundles)
  {
    var k := CanonicalNode(w, e);
    if e.0 == GenerateNodeID(i) {
      InstancesCanonically(w, i, e.1, bundles);
      assert e == (GenerateNodeID(i), e.1);
    } else {
      AnswersCanonically(w, i, path, e, k, bundles);
    }
  }

  // Under canonical IDs: there is a candidate and every candidate's ports are
  // ports of the chosen bundles.
  lemma CanonicalDelivery(w: Input, i: nat, path: string, bundles: set<string>)
    requires MeshRules(w) && Canonical(w.services) && i < |w.nodes|
    ensures (forall m: Mesh | m.w == w && Compiled(m) :: DeliveredFrom(m, i, path, bundles))
      <==> CandidatesServe(w.services, GenerateNodeID(i), path, bundles)
    ensures Reaches(w, i, path, bundles) <==> CandidatesServe(w.services, GenerateNodeID(i), path, bundles)
  {
    DeliveryIsExact(w, i, path, bundles);
    forall e: Entry | Candidate(w.services, GenerateNodeID(i), path, e)
      ensures CandidatesServe(w.services, GenerateNodeID(i), path, bundles) ==> Good(w, i, path, e, bundles)
      ensures Good(w, i, path, e, bundles) ==> OwnPortsServe(w.services, e, bundles)
    {
      GoodCanonically(w, i, path, e, bundles);
    }
  }

  lemma TargetsAre(w: Input, path: string)
    ensures Targets(w, path) != {} <==> exists e: Entry, rest: string :: e in Entries(w.services) && path == "/" + e.1 + rest
  {
    if b :| b in Targets(w, path) {
      var e: Entry :| e in Entries(w.services) && HasPrefix(path, "/" + e.1) && e.1 == b;
      PrefixIs(path, "/" + e.1);
    }
    if e: Entry, rest: string :| e in Entries(w.services) && path == "/" + e.1 + rest {
      PrefixIs(path, "/" + e.1);
      assert e.1 in Targets(w, path);
    }
  }

  lemma TargetsOffered(w: Input, local: string, path: string)
    ensures Targets(w, path) != {} <==> exists e: Entry :: Candidate(w.services, local, path, e)
    ensures Targets(w, path) != {} ==> CandidatesServe(w.services, local, path, Targets(w, path))
  {
    CandidateMatches(w.services, local, path);
    if b :| b in Targets(w, path) {
      var e: Entry :| e in Entries(w.services) && HasPrefix(path, "/" + e.1) && e.1 == b;
      assert e == (e.0, b);
      assert RemoteMatch(w.services, local, path, b) || LocalMatch(w.services, local, path, b);
    }
    forall e: Entry | Candidate(w.services, local, path, e)
      ensures e.1 in Targets(w, path) && OwnPortsServe(w.services, e, Targets(w, path))
    {
    }
  }

  // End to end: a request at any node's egress reaches, whatever the map
  // iteration orders and endpoint choices, an instance of a matching bundle
  // through at most two proxies - if and only if a matching bundle is offered.
  lemma EndToEndDelivery(m: Mesh, i: nat, path: string)
    requires MeshRules(m.w) && Canonical(m.w.services) && Compiled(m) && i < |m.snaps|
    ensures DeliveredFrom(m, i, path, Targets(m.w, path)) <==>
      exists e: Entry, rest: string :: e in Entries(m.w.services) && path == "/" + e.1 + rest
  {
    TargetsAre(m.w, path);
    TargetsOffered(m.w, GenerateNodeID(i), path);
    CanonicalDelivery(m.w, i, path, Targets(m.w, path));
    if Targets(m.w, path) == {} {
      NothingMatches(m, i, path);
      DeliveredByHops(m, i, path, Targets(m.w, path));
    }
  }

  ghost predicate PrefixFree(s: Services) {
    forall e, f :: e in Entries(s) && f in Entries(s) && HasPrefix(e.1, f.1) ==> e.1 == f.1
  }

  lemma PrefixesCompare(path: string, a: string, b: string)
    requires HasPrefix(path, "/" + a) && HasPrefix(path, "/" + b) && |a| <= |b|
    ensures HasPrefix(b, a)
  {
    assert forall k :: 0 <= k < |a| ==> a[k] == ("/" + a)[k + 1] == path[..|"/" + a|][k + 1];
    assert forall k :: 0 <= k < |b| ==> b[k] == ("/" + b)[k + 1] == path[..|"/" + b|][k + 1];
  }

  lemma PrefixFreeTarget(w: Input, path: string, b: string)
    requires PrefixFree(w.services) && b in Targets(w, path)
    ensures Targets(w, path) == {b}
  {
    forall x | x in Targets(w, path) ensures x == b {
      if |x| <= |b| { PrefixesCompare(path, x, b); } else { PrefixesCompare(path, b, x); }
    }
  }

  // A path that names an offered bundle has only its instances as candidates.
  lemma PrefixFreeServes(w: Input, local: string, path: string, b: string)
    requires PrefixFree(w.services) && HasPrefix(path, "/" + b) && exists n :: (n, b) in Entries(w.services)
    ensures CandidatesServe(w.services, local, path, {b})
  {
    var n :| (n, b) in Entries(w.services);
    assert (n, b).1 in Targets(w, path);
    PrefixFreeTarget(w, path, b);
    TargetsOffered(w, local, path);
  }

  // With prefix-free bundle IDs every path that begins with "/" and an offered
  // bundle reaches an instance of that bundle.
  lemma BundleDelivery(m: Mesh, i: nat, b: string, rest: string)
    requires MeshRules(m.w) && Canonical(m.w.services) && Compiled(m) && i < |m.snaps|
    requires PrefixFree(m.w.services) && exists n :: (n, b) in Entries(m.w.services)
    ensures DeliveredFrom(m, i, "/" + b + rest, {b})
  {
    PrefixIs("/" + b + rest, "/" + b);
    PrefixFreeServes(m.w, GenerateNodeID(i), "/" + b + rest, b);
    CanonicalDelivery(m.w, i, "/" + b + rest, {b});
  }
}
