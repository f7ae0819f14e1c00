// The xDS server object (cds.go, resource.go, server.go): the compiler as
// loops over the shared services map, and the two consumer bodies.
module XdsServer {
  import opened Text
  import opened NodeRegistry
  import opened ServiceRegistry
  import opened Compiler
  import Routing

  type Cache = map<string, Snapshot>

  // Nodes 0..k-1 have a fresh snapshot of this version, all else is as before.
  ghost predicate CachedUpTo(w: Input, version: int, before: Cache, after: Cache, k: nat) {
    && (forall i: nat :: i < k ==> GenerateNodeID(i) in after && Compiles(w, GenerateNodeID(i), version, after[GenerateNodeID(i)]))
    && (forall id :: !IssuedBelow(id, k) ==> SameEntry(id, before, after))
  }

  ghost predicate IssuedBelow(id: string, k: nat) {
    exists i: nat :: i < k && id == GenerateNodeID(i)
  }

  ghost predicate SameEntry(id: string, a: Cache, b: Cache) {
    if id in a then id in b && a[id] == b[id] else id !in b
  }

  ghost predicate FailsFor(w: Input, local: string) {
    exists order :: Traverses(order, w.services) && ClusterPass(w, local, order).None?
  }

  // The possible outcomes of generateSnapshots: every node gets a snapshot, or
  // the nodes before the first failing one do.
  ghost predicate Generates(w: Input, version: int, before: Cache, after: Cache, ok: bool) {
    if ok then CachedUpTo(w, version, before, after, |w.nodes|)
    else exists k: nat :: k < |w.nodes| && CachedUpTo(w, version, before, after, k) && FailsFor(w, GenerateNodeID(k))
  }

  lemma FailureHasCause(w: Input, local: string)
    requires FailsFor(w, local)
    ensures !EveryNodeResolves(w)
  {
    var order :| Traverses(order, w.services) && ClusterPass(w, local, order).None?;
    if EveryNodeResolves(w) {
      PassOfResolvable(w, local, order);
    }
  }

  // A generation cannot fail when every offering node resolves.
  lemma GenerationSucceeds(w: Input, version: int, before: Cache, after: Cache, ok: bool)
    requires Generates(w, version, before, after, ok) && EveryNodeResolves(w)
    ensures ok
  {
    if !ok {
      var k: nat :| k < |w.nodes| && FailsFor(w, GenerateNodeID(k));
      FailureHasCause(w, GenerateNodeID(k));
    }
  }

  ghost predicate NeverFails(w: Input, version: int, before: Cache) {
    forall after, ok | Generates(w, version, before, after, ok) :: ok
  }

  // Exactly: no iteration order makes a generation fail if and only if there
  // is no node to generate for, or every offering node resolves.
  lemma GenerationIsExact(w: Input, version: int, before: Cache)
    ensures NeverFails(w, version, before) <==> w.nodes == [] || EveryNodeResolves(w)
  {
    if EveryNodeResolves(w) {
      forall after, ok | Generates(w, version, before, after, ok) ensures ok {
        GenerationSucceeds(w, version, before, after, ok);
      }
    } else if w.nodes != [] {
      CanFail(w, version, before);
    }
  }

  // Under the intended test an ID resolves exactly when the registry, with as
  // many nodes, would accept it.
  lemma ResolvesIffValid(w: Input, id: string)
    requires w.check == Intended
    ensures NodeHost(w, id).Some? <==> ValidIndex(id, |w.nodes|).Some?
  {
  }

  // A canonical ID resolves exactly when its index is below the node count.
  lemma CanonicalResolves(w: Input, k: nat)
    requires w.check == Intended && |w.nodes| <= INT64_LIMIT
    ensures NodeHost(w, GenerateNodeID(k)) == if k < |w.nodes| then Some(w.nodes[k].host) else None
  {
    IssuedIdsStayValid(k, |w.nodes|);
    NodeIdxNeverNegative(GenerateNodeID(k));
  }

  lemma AsWrittenFails(w: Input, local: string)
    requires w.check == AsWritten && FailsFor(w, local)
    ensures Entries(w.services) != {}
  {
    var order :| Traverses(order, w.services) && ClusterPass(w, local, order).None?;
    AsWrittenRejectsEverything(w, local, order);
    assert order[0] in Entries(w.services);
  }

  lemma AsWrittenCompiles(w: Input, local: string, version: int, snap: Snapshot)
    requires w.check == AsWritten && Compiles(w, local, version, snap)
    ensures Entries(w.services) == {}
  {
    var order :| Traverses(order, w.services) && ClusterPass(w, local, order) == Some(snap.clusters);
    AsWrittenRejectsEverything(w, local, order);
  }

  // With the index test as written a generation succeeds only while there is
  // no node or no bundle at all.
  lemma AsWrittenOutcome(w: Input, version: int, before: Cache, after: Cache, ok: bool)
    requires Generates(w, version, before, after, ok) && w.check == AsWritten
    ensures ok <==> w.nodes == [] || Entries(w.services) == {}
  {
    if ok && w.nodes != [] {
      AsWrittenCompiles(w, GenerateNodeID(0), version, after[GenerateNodeID(0)]);
    } else if !ok {
      var k: nat :| k < |w.nodes| && FailsFor(w, GenerateNodeID(k));
      AsWrittenFails(w, GenerateNodeID(k));
    }
  }

  lemma CacheGrows(w: Input, version: int, before: Cache, cache: Cache, k: nat, snap: Snapshot)
    requires CachedUpTo(w, version, before, cache, k) && Compiles(w, GenerateNodeID(k), version, snap)
    ensures CachedUpTo(w, version, before, cache[GenerateNodeID(k) := snap], k + 1)
  {
    var after := cache[GenerateNodeID(k) := snap];
    forall j: nat | j < k
      ensures GenerateNodeID(j) in after && Compiles(w, GenerateNodeID(j), version, after[GenerateNodeID(j)])
    {
      if GenerateNodeID(j) == GenerateNodeID(k) { NodeIdInjective(j, k); }
      assert after[GenerateNodeID(j)] == cache[GenerateNodeID(j)];
    }
    forall id | !IssuedBelow(id, k + 1) ensures SameEntry(id, before, after) {
      assert id != GenerateNodeID(k) && !IssuedBelow(id, k);
    }
  }

  // The version text of every entry that a generation has refreshed.
  lemma RefreshedText(w: Input, version: int, before: Cache, after: Cache, k: nat)
    requires CachedUpTo(w, version, before, after, k)
    ensures forall i: nat :: i < k ==> GenerateNodeID(i) in after && after[GenerateNodeID(i)].version == IntToString(version) + ".0"
    ensures forall id :: id in after && (id !in before || after[id] != before[id]) ==> after[id].version == IntToString(version) + ".0"
  {
    forall id | id in after && (id !in before || after[id] != before[id]) ensures after[id].version == IntToString(version) + ".0" {
      assert !SameEntry(id, before, after);
    }
  }

  // The first k nodes of a generation always have some outcome, ...
  lemma {:induction false} SomeOutcome(w: Input, version: int, before: Cache, k: nat) returns (after: Cache, ok: bool)
    requires k <= |w.nodes|
    ensures ok ==> CachedUpTo(w, version, before, after, k)
    ensures !ok ==> exists j: nat :: j < k && CachedUpTo(w, version, before, after, j) && FailsFor(w, GenerateNodeID(j))
  {
    if k == 0 {
      after, ok := before, true;
    } else {
      after, ok := SomeOutcome(w, version, before, k - 1);
      if ok {
        var local := GenerateNodeID(k - 1);
        var order := SomeTraversal(w.services);
        if ClusterPass(w, local, order).None? {
          assert FailsFor(w, local);
          ok := false;
        } else {
          var clusters, tables := ClusterPass(w, local, order).value, RouteTables(local, order);
          assert ClustersFrom(w, local, clusters) && TablesFrom(w, local, tables);
          var snap := Snapshot(VersionString(version), clusters, tables, Listeners(w.cfg));
          CacheGrows(w, version, before, after, k - 1, snap);
          after := after[local := snap];
        }
      }
    }
  }

  // ... so a generation never blocks.
  lemma SomeGeneration(w: Input, version: int, before: Cache) returns (after: Cache, ok: bool)
    ensures Generates(w, version, before, after, ok)
  {
    after, ok := SomeOutcome(w, version, before, |w.nodes|);
  }

  // It can fail whenever some offering node does not resolve.
  lemma CanFail(w: Input, version: int, before: Cache)
    requires w.nodes != [] && !EveryNodeResolves(w)
    ensures Generates(w, version, before, before, false)
  {
    CompilesUnderEveryOrder(w, GenerateNodeID(0));
    assert FailsFor(w, GenerateNodeID(0)) && CachedUpTo(w, version, before, before, 0);
  }

  // ------------------------------------------------------- the nested ranges

  // The order so far: every pair of a node that is not left to do ...
  ghost predicate Visited(order: seq<Entry>, s: Services, todo: set<string>) {
    && Distinct(order) && Grouped(order)
    && forall e :: e in order <==> e in Entries(s) && e.0 !in todo
  }

  // ... but for these bundles of the node the outer loop is at.
  ghost predicate VisitedBut(order: seq<Entry>, s: Services, todo: set<string>, node: string, bundles: set<string>) {
    && Distinct(order) && Grouped(order) && Open(order, node)
    && forall e :: e in order <==> e in Entries(s) && e.0 !in todo && (e.0 == node ==> e.1 !in bundles)
  }

  lemma EnterNode(order: seq<Entry>, s: Services, todo: set<string>, node: string)
    requires Visited(order, s, todo) && node in todo && node in s
    ensures VisitedBut(order, s, todo - {node}, node, s[node].Keys)
  {
    forall i | 0 <= i < |order| ensures order[i].0 != node {
      assert order[i] in order;
    }
  }

  lemma VisitBundle(order: seq<Entry>, s: Services, todo: set<string>, node: string, bundles: set<string>, b: string)
    requires VisitedBut(order, s, todo, node, bundles) && b in bundles
    requires node in s && bundles <= s[node].Keys && node !in todo
    ensures VisitedBut(order + [(node, b)], s, todo, node, bundles - {b})
  {
    VisitNext(order, (node, b));
    forall e ensures e in order + [(node, b)] <==> e in Entries(s) && e.0 !in todo && (e.0 == node ==> e.1 !in bundles - {b}) {
      assert e == (node, b) <==> e.0 == node && e.1 == b;
    }
  }

  lemma LeaveNode(order: seq<Entry>, s: Services, todo: set<string>, node: string)
    requires VisitedBut(order, s, todo, node, {})
    ensures Visited(order, s, todo)
  {
  }

  // Wherever the loops stop, they have begun a traversal.
  lemma StoppedLoops(order: seq<Entry>, s: Services, todo: set<string>, node: string, bundles: set<string>)
      returns (whole: seq<Entry>)
    requires VisitedBut(order, s, todo, node, bundles)
    ensures Traverses(whole, s) && order <= whole
  {
    forall e | e in Entries(s) && e !in order ensures Open(order, e.0) {
      if e.0 != node {
        assert forall i :: 0 <= i < |order| ==> order[i] in order && order[i].0 != e.0;
      }
    }
    whole := ExtendTraversal(order, s);
  }

  class Server {
    const check: IndexCheck
    var snapshotVersion: int
    var cache: Cache
    var nodes: seq<NodeAddr>
    // A reference: after the first delivery it is the registry's own map.
    var services: ServiceMap

    constructor (check: IndexCheck)
      ensures this.check == check && snapshotVersion == -1 && cache == map[] && nodes == []
      ensures fresh(services) && services.m == map[]
    {
      this.check := check;
      snapshotVersion, cache, nodes := -1, map[], [];
      services := new ServiceMap();
    }

    ghost function Reads(cfg: Config): Input
      reads this, services
    {
      Input(nodes, services.m, cfg, check)
    }

    method MakeEndpoints(cfg: Config, nodeID: string, ports: seq<int32>) returns (r: Option<seq<Endpoint>>)
      ensures r == Compiler.MakeEndpoints(Reads(cfg), nodeID, ports)
      ensures r.Some? <==> NodeHost(Reads(cfg), nodeID).Some?
      ensures r.Some? ==> |r.value| == |ports| && forall k :: 0 <= k < |ports| ==>
        r.value[k] == Endpoint(NodeHost(Reads(cfg), nodeID).value, ToUint32(ports[k]))
    {
      var nodeIdx := GetNodeIdx(nodeID);
      if nodeIdx.None? {
        return None;
      }
      if Rejects(check, nodeIdx.value, |nodes|) {
        return None;
      }
      var nodeAddress := nodes[nodeIdx.value].host;
      var endpoints := [];
      for i := 0 to |ports|
        invariant |endpoints| == i
        invariant forall k :: 0 <= k < i ==> endpoints[k] == Endpoint(nodeAddress, ToUint32(ports[k]))
      {
        endpoints := endpoints + [Endpoint(nodeAddress, ToUint32(ports[i]))];
      }
      assert endpoints == seq(|ports|, k requires 0 <= k < |ports| => Endpoint(nodeAddress, ToUint32(ports[k])));
      r := Some(endpoints);
    }

    // The nested range loops compute the clusters of some traversal, or fail
    // only where some traversal fails; `order` records the iteration order Go
    // chose, up to where the pass ends.
    method MakeClusters(localNodeID: string, cfg: Config) returns (r: Option<seq<Cluster>>)
      ensures if r.Some? then ClustersFrom(Reads(cfg), localNodeID, r.value) else FailsFor(Reads(cfg), localNodeID)
    {
      var clusters: seq<Cluster> := [];
      var seen: seq<string> := [];
      ghost var w, order: seq<Entry> := Reads(cfg), [];
      var todo := services.m.Keys;
      while todo != {}
        invariant todo <= services.m.Keys && Visited(order, services.m, todo)
        invariant ClusterPass(w, localNodeID, order) == Some(clusters) && seen == Names(clusters)
        decreases todo
      {
        var nodeID :| nodeID in todo;
        EnterNode(order, services.m, todo, nodeID);
        todo := todo - {nodeID};
        var serviceConfig := services.m[nodeID];
        var bundles := serviceConfig.Keys;
        while bundles != {}
          invariant bundles <= serviceConfig.Keys && VisitedBut(order, services.m, todo, nodeID, bundles)
          invariant ClusterPass(w, localNodeID, order) == Some(clusters) && seen == Names(clusters)
          decreases bundles
        {
          var bundleID :| bundleID in bundles;
          VisitBundle(order, services.m, todo, nodeID, bundles, bundleID);
          bundles := bundles - {bundleID};
          var instances := serviceConfig[bundleID];
          var clusterID := GenerateClusterName(bundleID, false);
          var ports := [ToInt32(cfg.ingressPort)];
          if nodeID == localNodeID {
            clusterID := GenerateClusterName(bundleID, true);
            ports := instances;
          }
          ghost var e := (nodeID, bundleID);
          ghost var before := order;
          order := order + [e];
          assert order[..|before|] == before && clusterID == EntryName(localNodeID, e) && ports == EntryPorts(w, localNodeID, e);
          if clusterID in seen {
            continue;
          }
          seen := seen + [clusterID];
          var endpoints := MakeEndpoints(cfg, nodeID, ports);
          if endpoints.None? {
            ghost var whole := StoppedLoops(order, services.m, todo, nodeID, bundles);
            FailurePersists(w, localNodeID, order, whole);
            assert FailsFor(w, localNodeID);
            return None;
          }
          ghost var grown := clusters + [Cluster(clusterID, endpoints.value)];
          assert Names(grown) == Names(clusters) + [clusterID];
          clusters := clusters + [Cluster(clusterID, endpoints.value)];
        }
        LeaveNode(order, services.m, todo, nodeID);
      }
      assert ClustersFrom(w, localNodeID, clusters);
      r := Some(clusters);
    }

    method MakeRoutes(localNodeID: string) returns (tables: seq<RouteTable>)
      ensures exists order :: Traverses(order, services.m) && tables == RouteTables(localNodeID, order)
    {
      var routes: seq<Route> := [];
      var localRoutes: seq<Route> := [];
      ghost var order: seq<Entry> := [];
      var todo := services.m.Keys;
      while todo != {}
        invariant todo <= services.m.Keys && Visited(order, services.m, todo)
        invariant RoutePass(localNodeID, order) == (routes, localRoutes)
        decreases todo
      {
        var nodeID :| nodeID in todo;
        EnterNode(order, services.m, todo, nodeID);
        todo := todo - {nodeID};
        var bundles := services.m[nodeID].Keys;
        while bundles != {}
          invariant bundles <= services.m[nodeID].Keys && VisitedBut(order, services.m, todo, nodeID, bundles)
          invariant RoutePass(localNodeID, order) == (routes, localRoutes)
          decreases bundles
        {
          var bundleID :| bundleID in bundles;
          VisitBundle(order, services.m, todo, nodeID, bundles, bundleID);
          bundles := bundles - {bundleID};
          var clusterID := GenerateClusterName(bundleID, nodeID == localNodeID);
          var r := Route("/" + bundleID, clusterID);
          ghost var before := order;
          order := order + [(nodeID, bundleID)];
          assert order[..|before|] == before;
          if nodeID != localNodeID {
            routes := routes + [r];
          } else {
            localRoutes := localRoutes + [r];
          }
        }
        LeaveNode(order, services.m, todo, nodeID);
      }
      tables := [RouteTable(GRPC_ROUTE_NAME, routes + localRoutes), RouteTable(LOCAL_GRPC_ROUTE_NAME, localRoutes)];
      assert tables == RouteTables(localNodeID, order);
    }

    method MakeHTTPListener(cfg: Config) returns (listeners: seq<Listener>)
      ensures Routing.Bound(cfg, listeners)
      ensures listeners == Listeners(cfg)
    {
      var managers := [LOCAL_GRPC_ROUTE_NAME, GRPC_ROUTE_NAME];
      listeners := [Listener("ingress_listener", ToUint32(cfg.ingressPort), managers[0]),
                    Listener("egress_listener", ToUint32(cfg.egressPort), managers[1])];
      Routing.ListenersBind(cfg);
    }

    method GenerateSnapshots(cfg: Config) returns (ok: bool)
      modifies this`snapshotVersion, this`cache
      ensures snapshotVersion == old(snapshotVersion) + 1
      ensures Generates(Reads(cfg), snapshotVersion, old(cache), cache, ok)
      ensures ok ==> forall i: nat :: i < |nodes| ==>
        GenerateNodeID(i) in cache && cache[GenerateNodeID(i)].version == IntToString(snapshotVersion) + ".0"
      ensures forall id :: id in cache && (id !in old(cache) || cache[id] != old(cache)[id]) ==>
        cache[id].version == IntToString(snapshotVersion) + ".0"
    {
      snapshotVersion := snapshotVersion + 1;
      ghost var w, before := Reads(cfg), cache;
      for i := 0 to |nodes|
        invariant Reads(cfg) == w && snapshotVersion == old(snapshotVersion) + 1
        invariant CachedUpTo(w, snapshotVersion, before, cache, i)
      {
        var nodeID := GenerateNodeID(i);
        var httpListener := MakeHTTPListener(cfg);
        var clusters := MakeClusters(nodeID, cfg);
        if clusters.None? {
          assert FailsFor(w, GenerateNodeID(i)) && CachedUpTo(w, snapshotVersion, before, cache, i);
          RefreshedText(w, snapshotVersion, before, cache, i);
          return false;
        }
        var tables := MakeRoutes(nodeID);
        var snapshot := Snapshot(VersionString(snapshotVersion), clusters.value, tables, httpListener);
        assert ClustersFrom(w, nodeID, clusters.value) && TablesFrom(w, nodeID, tables);
        CacheGrows(w, snapshotVersion, before, cache, i, snapshot);
        cache := cache[nodeID := snapshot];
      }
      RefreshedText(w, snapshotVersion, before, cache, |nodes|);
      ok := true;
    }

    // The body of the node consumer: receive, lock, append, regenerate.
    method ConsumeNode(newNode: NodeAddr, cfg: Config) returns (ok: bool)
      modifies this
      ensures nodes == old(nodes) + [newNode] && services == old(services)
      ensures snapshotVersion == old(snapshotVersion) + 1
      ensures Generates(Reads(cfg), snapshotVersion, old(cache), cache, ok)
    {
      nodes := nodes + [newNode];
      ok := GenerateSnapshots(cfg);
    }

    // The body of the service consumer. From here on the server reads the
    // sender's map: a later registration is visible without another delivery.
    method ConsumeServices(newServiceConfig: ServiceMap, cfg: Config) returns (ok: bool)
      modifies this
      ensures services == newServiceConfig && nodes == old(nodes)
      ensures snapshotVersion == old(snapshotVersion) + 1
      ensures Generates(Reads(cfg), snapshotVersion, old(cache), cache, ok)
    {
      services := newServiceConfig;
      ok := GenerateSnapshots(cfg);
    }
  }
}
