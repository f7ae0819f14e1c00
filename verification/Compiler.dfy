// The snapshot compiler (cds.go, resource.go) as functions of an explicit
// traversal order: Go iterates maps in any order, so nothing below fixes one.
module Compiler {
  import opened Text
  import opened NodeRegistry
  import opened ServiceRegistry

  const GRPC_ROUTE_NAME := "grpc_route"
  const LOCAL_GRPC_ROUTE_NAME := "local_grpc_route"

  datatype Endpoint = Endpoint(host: string, port: nat)
  datatype Cluster = Cluster(name: string, endpoints: seq<Endpoint>)
  datatype Route = Route(prefix: string, cluster: string)
  datatype RouteTable = RouteTable(name: string, routes: seq<Route>)
  datatype Listener = Listener(name: string, port: nat, table: string)
  datatype Snapshot = Snapshot(version: string, clusters: seq<Cluster>, tables: seq<RouteTable>, listeners: seq<Listener>)

  datatype Config = Config(ingressPort: int, egressPort: int)

  // The index test of makeEndpoints as the source spells it (idx >= len ||
  // idx < len), and as it is meant (idx >= len || idx < 0).
  datatype IndexCheck = AsWritten | Intended

  predicate Rejects(check: IndexCheck, idx: int, count: nat) {
    match check
    case AsWritten => idx >= count || idx < count
    case Intended => idx >= count || idx < 0
  }

  // Everything a compilation reads.
  datatype Input = Input(nodes: seq<NodeAddr>, services: Services, cfg: Config, check: IndexCheck)

  // A (node ID, bundle ID) pair: one iteration of the nested range loops.
  type Entry = (string, string)

  // ------------------------------------------------------- conversions

  function ToUint32(x: int): nat {
    x % 0x1_0000_0000
  }

  // The ingress port travels as int32 into endpoints and as uint32 into
  // listeners; both spell the same port.
  lemma PortConversionsAgree(x: int)
    ensures ToUint32(ToInt32(x)) == ToUint32(x)
    ensures 0 <= x < 0x8000_0000 ==> ToUint32(x) == x
  {
  }

  // Both keep the value modulo 2^32, int32 and uint32 ranges settle the rest.
  lemma ConversionsAreModular(x: int)
    ensures (ToInt32(x) - x) % 0x1_0000_0000 == 0
    ensures ToUint32(x) < 0x1_0000_0000 && (ToUint32(x) - x) % 0x1_0000_0000 == 0
  {
  }

  // ------------------------------------------------------- names

  function GenerateClusterName(bundleID: string, isLocal: bool): string {
    if isLocal then "local_" + bundleID + "_cluster" else bundleID + "_cluster"
  }

  // Two cluster names collide exactly when one is the local cluster of a
  // bundle x and the other the remote cluster of the bundle "local_" + x.
  lemma ClusterNameCollision(b1: string, l1: bool, b2: string, l2: bool)
    ensures GenerateClusterName(b1, l1) == GenerateClusterName(b2, l2) <==>
      || (b1 == b2 && l1 == l2)
      || (l1 && !l2 && b2 == "local_" + b1)
      || (!l1 && l2 && b1 == "local_" + b2)
  {
    var x1 := if l1 then "local_" + b1 else b1;
    var x2 := if l2 then "local_" + b2 else b2;
    SuffixCancels(x1, x2, "_cluster");
    PrefixCancels("local_", b1, b2);
  }

  // ------------------------------------------------------- traversals

  function Entries(s: Services): set<Entry> {
    set n, b | n in s.Keys && b in s[n].Keys :: (n, b)
  }

  ghost predicate Distinct(order: seq<Entry>) {
    forall i, j :: 0 <= i < j < |order| ==> order[i] != order[j]
  }

  // The inner loop keeps the bundles of a node together.
  ghost predicate Grouped(order: seq<Entry>) {
    forall i, j, k :: 0 <= i < j < k < |order| && order[i].0 == order[k].0 ==> order[j].0 == order[i].0
  }

  // One run of the nested loops: every pair once, node by node. These are
  // exactly the orders Go's two nested ranges can take.
  ghost predicate Traverses(order: seq<Entry>, s: Services) {
    && Distinct(order)
    && Grouped(order)
    && forall e :: e in order <==> e in Entries(s)
  }

  // The loops may still visit a bundle of this node: it is the last one
  // visited, or a new one.
  ghost predicate Open(order: seq<Entry>, node: string) {
    forall i :: 0 <= i < |order| && order[i].0 == node ==> order[|order| - 1].0 == node
  }

  lemma VisitNext(order: seq<Entry>, e: Entry)
    requires Distinct(order) && Grouped(order) && Open(order, e.0) && e !in order
    ensures Distinct(order + [e]) && Grouped(order + [e])
    ensures forall x :: x in order + [e] <==> x in order || x == e
  {
    assert forall i :: 0 <= i < |order| ==> order[i] in order;
  }

  // The nested loops may have begun like this.
  ghost predicate Begins(start: seq<Entry>, s: Services) {
    && Distinct(start)
    && Grouped(start)
    && (forall e :: e in start ==> e in Entries(s))
    && (forall e :: e in Entries(s) && e !in start ==> Open(start, e.0))
  }

  // The next iteration: a bundle of the last node while it has any.
  lemma NextVisit(start: seq<Entry>, s: Services) returns (e: Entry)
    requires Begins(start, s) && exists x :: x in Entries(s) && x !in start
    ensures e in Entries(s) && e !in start && Begins(start + [e], s)
  {
    e :| e in Entries(s) && e !in start;
    if start != [] {
      if x: Entry :| x in Entries(s) && x !in start && x.0 == start[|start| - 1].0 {
        e := x;
      }
    }
    VisitNext(start, e);
    forall x | x in Entries(s) && x !in start + [e] ensures Open(start + [e], x.0) {
      assert Open(start, x.0);
    }
  }

  ghost function LeftToVisit(start: seq<Entry>, s: Services): set<Entry> {
    set e | e in Entries(s) && e !in start
  }

  // A beginning of the nested loops is a beginning of some traversal.
  lemma {:induction false} ExtendTraversal(start: seq<Entry>, s: Services) returns (order: seq<Entry>)
    requires Begins(start, s)
    ensures Traverses(order, s) && start <= order
    decreases LeftToVisit(start, s)
  {
    if LeftToVisit(start, s) == {} {
      assert forall e :: e in Entries(s) ==> e !in LeftToVisit(start, s);
      order := start;
    } else {
      var x :| x in LeftToVisit(start, s);
      var e := NextVisit(start, s);
      assert e in LeftToVisit(start, s) && e !in LeftToVisit(start + [e], s);
      order := ExtendTraversal(start + [e], s);
    }
  }

  // Any pair may come first.
  lemma TraversalFrom(e: Entry, s: Services) returns (order: seq<Entry>)
    requires e in Entries(s)
    ensures Traverses(order, s) && order != [] && order[0] == e
  {
    order := ExtendTraversal([e], s);
  }

  lemma SomeTraversal(s: Services) returns (order: seq<Entry>)
    ensures Traverses(order, s)
  {
    order := ExtendTraversal([], s);
  }

  // ------------------------------------------------------- clusters

  // The address lookup at the head of makeEndpoints; None stands for an error.
  function NodeHost(w: Input, nodeID: string): Option<string> {
    var idx := GetNodeIdx(nodeID);
    if idx.None? then None
    else if Rejects(w.check, idx.value, |w.nodes|) then None
    else Some(w.nodes[idx.value].host)
  }

  function MakeEndpoints(w: Input, nodeID: string, ports: seq<int32>): Option<seq<Endpoint>> {
    var host := NodeHost(w, nodeID);
    if host.None? then None
    else Some(seq(|ports|, i requires 0 <= i < |ports| => Endpoint(host.value, ToUint32(ports[i]))))
  }

  function EntryName(local: string, e: Entry): string {
    GenerateClusterName(e.1, e.0 == local)
  }

  function EntryPorts(w: Input, local: string, e: Entry): seq<int32> {
    if e.0 == local then Lookup(w.services, e.0, e.1) else [ToInt32(w.cfg.ingressPort)]
  }

  function Names(cs: seq<Cluster>): (names: seq<string>)
    ensures |names| == |cs| && forall i :: 0 <= i < |cs| ==> names[i] == cs[i].name
  {
    seq(|cs|, i requires 0 <= i < |cs| => cs[i].name)
  }

  // makeClusters along `order`: the first entry with a given name wins, and
  // the first address error ends the pass.
  function ClusterPass(w: Input, local: string, order: seq<Entry>): Option<seq<Cluster>> {
    if order == [] then Some([])
    else
      var e := order[|order| - 1];
      match ClusterPass(w, local, order[..|order| - 1])
      case None => None
      case Some(cs) =>
        if EntryName(local, e) in Names(cs) then Some(cs)
        else
          match MakeEndpoints(w, e.0, EntryPorts(w, local, e))
          case None => None
          case Some(es) => Some(cs + [Cluster(EntryName(local, e), es)])
  }

  ghost predicate IsClusterOf(w: Input, local: string, e: Entry, c: Cluster) {
    && c.name == EntryName(local, e)
    && Some(c.endpoints) == MakeEndpoints(w, e.0, EntryPorts(w, local, e))
  }

  // What a successful pass has built, whatever the order was.
  ghost predicate ClustersCover(w: Input, local: string, order: seq<Entry>, cs: seq<Cluster>) {
    && (forall i, j :: 0 <= i < j < |cs| ==> cs[i].name != cs[j].name)
    && (forall c :: c in cs ==> exists e :: e in order && IsClusterOf(w, local, e, c))
    && (forall e :: e in order ==> EntryName(local, e) in Names(cs))
  }

  lemma {:induction false} ClusterPassCovers(w: Input, local: string, order: seq<Entry>)
    requires ClusterPass(w, local, order).Some?
    ensures ClustersCover(w, local, order, ClusterPass(w, local, order).value)
  {
    if order != [] {
      var before, e := order[..|order| - 1], order[|order| - 1];
      var cs, out := ClusterPass(w, local, before).value, ClusterPass(w, local, order).value;
      ClusterPassCovers(w, local, before);
      assert forall x :: x in order <==> x in before || x == e;
      assert forall i :: 0 <= i < |cs| ==> Names(cs)[i] in Names(cs);
      if out != cs {
        assert IsClusterOf(w, local, e, out[|cs|]);
        assert Names(out) == Names(cs) + [EntryName(local, e)];
        assert Names(out)[|cs|] in Names(out);
      }
    }
  }

  // No pair before the k-th has its name.
  ghost predicate FirstOfName(local: string, order: seq<Entry>, k: nat)
    requires k < |order|
  {
    forall t :: 0 <= t < k ==> EntryName(local, order[t]) != EntryName(local, order[k])
  }

  // By position: the clusters stand in the order in which their names were
  // first visited, each made of the pair that was.
  ghost predicate MadeAt(w: Input, local: string, order: seq<Entry>, at: seq<nat>, cs: seq<Cluster>) {
    && |at| == |cs|
    && (forall i, j :: 0 <= i < j < |at| ==> at[i] < at[j])
    && forall k :: 0 <= k < |at| ==>
      at[k] < |order| && FirstOfName(local, order, at[k]) && IsClusterOf(w, local, order[at[k]], cs[k])
  }

  lemma FirstAmongMore(local: string, order: seq<Entry>, more: seq<Entry>, k: nat)
    requires k < |order| && order <= more
    ensures FirstOfName(local, order, k) <==> FirstOfName(local, more, k)
  {
    assert forall t :: 0 <= t <= k ==> order[t] == more[t];
  }

  lemma {:induction false} ClustersInOrder(w: Input, local: string, order: seq<Entry>) returns (at: seq<nat>)
    requires ClusterPass(w, local, order).Some?
    ensures MadeAt(w, local, order, at, ClusterPass(w, local, order).value)
  {
    if order == [] {
      at := [];
    } else {
      var before, e := order[..|order| - 1], order[|order| - 1];
      at := ClustersInOrder(w, local, before);
      forall k | 0 <= k < |at| ensures FirstOfName(local, order, at[k]) {
        FirstAmongMore(local, before, order, at[k]);
      }
      if ClusterPass(w, local, order) != ClusterPass(w, local, before) {
        FirstOrSeen(w, local, order);
        at := at + [|before|];
      }
    }
  }

  ghost predicate FailsAt(w: Input, local: string, order: seq<Entry>, k: nat) {
    k < |order| && NodeHost(w, order[k].0).None? && FirstOfName(local, order, k)
  }

  // A pass fails exactly if the first pair of some name does not resolve.
  lemma {:induction false} PassFailsIff(w: Input, local: string, order: seq<Entry>)
    ensures ClusterPass(w, local, order).None? <==> exists k: nat :: FailsAt(w, local, order, k)
  {
    if order != [] {
      var before := order[..|order| - 1];
      PassFailsIff(w, local, before);
      forall k: nat | k < |before| ensures FailsAt(w, local, before, k) <==> FailsAt(w, local, order, k) {
        FirstAmongMore(local, before, order, k);
      }
      if ClusterPass(w, local, before).Some? {
        FirstOrSeen(w, local, order);
        LastFails(w, local, order);
      }
    }
  }

  // If the pass goes well up to the last pair, only that one can fail.
  lemma LastFails(w: Input, local: string, order: seq<Entry>)
    requires order != []
    requires forall k: nat :: k < |order| - 1 ==> !FailsAt(w, local, order, k)
    ensures (exists k: nat :: FailsAt(w, local, order, k)) <==> FailsAt(w, local, order, |order| - 1)
  {
  }

  // `seen` holds the names of the pairs visited.
  lemma FirstOrSeen(w: Input, local: string, order: seq<Entry>)
    requires order != [] && ClusterPass(w, local, order[..|order| - 1]).Some?
    ensures var before, e := order[..|order| - 1], order[|order| - 1];
      EntryName(local, e) in Names(ClusterPass(w, local, before).value) <==> !FirstOfName(local, order, |order| - 1)
  {
    var before, e := order[..|order| - 1], order[|order| - 1];
    var cs := ClusterPass(w, local, before).value;
    ClusterPassCovers(w, local, before);
    if t :| 0 <= t < |before| && EntryName(local, order[t]) == EntryName(local, e) {
      assert before[t] in before;
    }
    if EntryName(local, e) in Names(cs) {
      var i :| 0 <= i < |cs| && Names(cs)[i] == EntryName(local, e);
      assert cs[i] in cs;
      var x: Entry :| x in before && IsClusterOf(w, local, x, cs[i]);
      var t :| 0 <= t < |before| && before[t] == x;
      assert EntryName(local, order[t]) == EntryName(local, e);
    }
  }

  lemma {:induction false} FailurePersists(w: Input, local: string, start: seq<Entry>, order: seq<Entry>)
    requires start <= order && ClusterPass(w, local, start).None?
    ensures ClusterPass(w, local, order).None?
    decreases |order|
  {
    if start != order {
      FailurePersists(w, local, start, order[..|order| - 1]);
    }
  }

  lemma FirstFails(w: Input, local: string, order: seq<Entry>)
    requires order != [] && NodeHost(w, order[0].0).None?
    ensures ClusterPass(w, local, order).None?
  {
    assert [order[0]][..0] == [];
    FailurePersists(w, local, [order[0]], order);
  }

  lemma {:induction false} PassOfResolvable(w: Input, local: string, order: seq<Entry>)
    requires forall e :: e in order ==> NodeHost(w, e.0).Some?
    ensures ClusterPass(w, local, order).Some?
  {
    if order != [] {
      assert order[|order| - 1] in order;
      PassOfResolvable(w, local, order[..|order| - 1]);
    }
  }

  ghost predicate EveryNodeResolves(w: Input) {
    forall e :: e in Entries(w.services) ==> NodeHost(w, e.0).Some?
  }

  // A compilation succeeds under every iteration order if and only if every
  // node that offers a bundle resolves to a registered address.
  lemma CompilesUnderEveryOrder(w: Input, local: string)
    ensures (forall order | Traverses(order, w.services) :: ClusterPass(w, local, order).Some?) <==> EveryNodeResolves(w)
  {
    if EveryNodeResolves(w) {
      forall order | Traverses(order, w.services) ensures ClusterPass(w, local, order).Some? {
        PassOfResolvable(w, local, order);
      }
    } else {
      var e: Entry :| e in Entries(w.services) && NodeHost(w, e.0).None?;
      var order := TraversalFrom(e, w.services);
      FirstFails(w, local, order);
    }
  }

  // The index test as written rejects every index, so a pass succeeds only
  // when there is nothing to compile.
  lemma {:induction false} AsWrittenRejectsEverything(w: Input, local: string, order: seq<Entry>)
    requires w.check == AsWritten
    ensures ClusterPass(w, local, order).Some? <==> order == []
  {
    if order != [] {
      var before := order[..|order| - 1];
      AsWrittenRejectsEverything(w, local, before);
      assert before == [] ==> ClusterPass(w, local, before) == Some([]);
    }
  }

  // ------------------------------------------------------- routes

  function RouteFor(local: string, e: Entry): Route {
    Route("/" + e.1, EntryName(local, e))
  }

  // makeRoutes along `order`: remote routes and local routes.
  function RoutePass(local: string, order: seq<Entry>): (seq<Route>, seq<Route>) {
    if order == [] then ([], [])
    else
      var e := order[|order| - 1];
      var (routes, localRoutes) := RoutePass(local, order[..|order| - 1]);
      if e.0 != local then (routes + [RouteFor(local, e)], localRoutes)
      else (routes, localRoutes + [RouteFor(local, e)])
  }

  function RouteTables(local: string, order: seq<Entry>): seq<RouteTable> {
    var (routes, localRoutes) := RoutePass(local, order);
    [RouteTable(GRPC_ROUTE_NAME, routes + localRoutes), RouteTable(LOCAL_GRPC_ROUTE_NAME, localRoutes)]
  }

  // A table holds one route per pair: remote pairs first, then local ones.
  lemma {:induction false} RoutePassHolds(local: string, order: seq<Entry>)
    ensures var (routes, localRoutes) := RoutePass(local, order);
      && |routes| + |localRoutes| == |order|
      && (forall r :: r in routes <==> exists e :: e in order && e.0 != local && r == RouteFor(local, e))
      && (forall r :: r in localRoutes <==> exists e :: e in order && e.0 == local && r == RouteFor(local, e))
  {
    if order != [] {
      var before, e := order[..|order| - 1], order[|order| - 1];
      RoutePassHolds(local, before);
      assert forall x :: x in order <==> x in before || x == e;
    }
  }

  // By position: both tables keep the order of the visits.
  lemma {:induction false} RoutesInOrder(local: string, order: seq<Entry>) returns (remote: seq<nat>, own: seq<nat>)
    ensures var (routes, localRoutes) := RoutePass(local, order);
      && InOrderOf(routes, order, remote) && InOrderOf(localRoutes, order, own)
    ensures forall t :: 0 <= t < |order| ==> (t in remote <==> order[t].0 != local) && (t in own <==> order[t].0 == local)
  {
    if order == [] {
      remote, own := [], [];
    } else {
      var before, e := order[..|order| - 1], order[|order| - 1];
      remote, own := RoutesInOrder(local, before);
      assert forall t :: 0 <= t < |before| ==> before[t] == order[t];
      if e.0 != local {
        remote := remote + [|before|];
      } else {
        own := own + [|before|];
      }
    }
  }

  // The k-th route is for the bundle visited at[k]-th, "/" in front of it.
  ghost predicate InOrderOf(routes: seq<Route>, order: seq<Entry>, at: seq<nat>) {
    && |at| == |routes|
    && (forall k :: 0 <= k < |at| ==> at[k] < |order| && routes[k].prefix == "/" + order[at[k]].1)
    && forall i, j :: 0 <= i < j < |at| ==> at[i] < at[j]
  }

  // ------------------------------------------------------- listeners, snapshots

  function Listeners(cfg: Config): seq<Listener> {
    [Listener("ingress_listener", ToUint32(cfg.ingressPort), LOCAL_GRPC_ROUTE_NAME),
     Listener("egress_listener", ToUint32(cfg.egressPort), GRPC_ROUTE_NAME)]
  }

  function VersionString(version: int): string {
    IntToString(version) + ".0"
  }

  ghost predicate ClustersFrom(w: Input, local: string, cs: seq<Cluster>) {
    exists order :: Traverses(order, w.services) && ClusterPass(w, local, order) == Some(cs)
  }

  ghost predicate TablesFrom(w: Input, local: string, tables: seq<RouteTable>) {
    exists order :: Traverses(order, w.services) && tables == RouteTables(local, order)
  }

  // `snap` is a possible compilation for node `local`: the cluster and the
  // route traversals are independent of one another.
  ghost predicate Compiles(w: Input, local: string, version: int, snap: Snapshot) {
    && snap.version == VersionString(version)
    && ClustersFrom(w, local, snap.clusters)
    && TablesFrom(w, local, snap.tables)
    && snap.listeners == Listeners(w.cfg)
  }

  // ------------------------------------------------------- closure

  ghost predicate RouteNames(routes: seq<Route>, name: string) {
    exists r :: r in routes && r.cluster == name
  }

  // The clusters of a snapshot are named after the pairs, one per name.
  lemma ClusterNamesComplete(w: Input, local: string, cs: seq<Cluster>)
    requires ClustersFrom(w, local, cs)
    ensures forall i, j :: 0 <= i < j < |cs| ==> cs[i].name != cs[j].name
    ensures forall name :: name in Names(cs) <==> exists e :: e in Entries(w.services) && name == EntryName(local, e)
  {
    var order :| Traverses(order, w.services) && ClusterPass(w, local, order) == Some(cs);
    ClusterPassCovers(w, local, order);
    forall name | name in Names(cs) ensures exists e :: e in Entries(w.services) && name == EntryName(local, e) {
      var i :| 0 <= i < |cs| && Names(cs)[i] == name;
      assert cs[i] in cs;
    }
  }

  lemma RouteNamesComplete(local: string, order: seq<Entry>, name: string)
    ensures RouteNames(RouteTables(local, order)[0].routes, name) <==> exists e :: e in order && name == EntryName(local, e)
  {
    RoutePassHolds(local, order);
    var routes := RouteTables(local, order)[0].routes;
    if e: Entry :| e in order && name == EntryName(local, e) {
      assert RouteFor(local, e) in routes;
    }
  }

  // Referential closure of every snapshot: the egress table uses exactly the
  // clusters that are defined, the ingress table only local ones, and every
  // ingress route is an egress route too.
  lemma ReferentialClosure(w: Input, local: string, version: int, snap: Snapshot)
    requires Compiles(w, local, version, snap)
    ensures |snap.tables| == 2
    ensures forall name :: RouteNames(snap.tables[0].routes, name) <==> name in Names(snap.clusters)
    ensures forall r :: r in snap.tables[1].routes ==>
      && r in snap.tables[0].routes
      && exists b :: (local, b) in Entries(w.services) && r == Route("/" + b, GenerateClusterName(b, true))
  {
    var order :| Traverses(order, w.services) && snap.tables == RouteTables(local, order);
    ClusterNamesComplete(w, local, snap.clusters);
    forall name ensures RouteNames(snap.tables[0].routes, name) <==> name in Names(snap.clusters) {
      RouteNamesComplete(local, order, name);
    }
    RoutePassHolds(local, order);
    forall r | r in RoutePass(local, order).1
      ensures exists b :: (local, b) in Entries(w.services) && r == Route("/" + b, GenerateClusterName(b, true))
    {
      var e: Entry :| e in order && e.0 == local && r == RouteFor(local, e);
      assert (local, e.1) in Entries(w.services);
    }
  }

  // ------------------------------------------------------- characterization

  // No bundle offered on `local` is shadowed by a remote "local_" namesake.
  ghost predicate NoLocalClash(s: Services, local: string) {
    forall b, e :: (local, b) in Entries(s) && e in Entries(s) && e.0 != local ==> e.1 != "local_" + b
  }

  // The entry a cluster was built from.
  lemma EntryOf(w: Input, local: string, cs: seq<Cluster>, c: Cluster) returns (e: Entry)
    requires ClustersFrom(w, local, cs) && c in cs
    ensures e in Entries(w.services) && IsClusterOf(w, local, e, c)
  {
    var order :| Traverses(order, w.services) && ClusterPass(w, local, order) == Some(cs);
    ClusterPassCovers(w, local, order);
    e :| e in order && IsClusterOf(w, local, e, c);
  }

  // Under injective naming a local cluster has the local ports, in order.
  lemma LocalClusterIs(w: Input, local: string, cs: seq<Cluster>, c: Cluster, b: string)
    requires ClustersFrom(w, local, cs) && NoLocalClash(w.services, local)
    requires c in cs && (local, b) in Entries(w.services) && c.name == GenerateClusterName(b, true)
    ensures Some(c.endpoints) == MakeEndpoints(w, local, Lookup(w.services, local, b))
    ensures NodeHost(w, local).Some? && |c.endpoints| == |Lookup(w.services, local, b)|
    ensures forall t :: 0 <= t < |c.endpoints| ==>
      c.endpoints[t] == Endpoint(NodeHost(w, local).value, ToUint32(Lookup(w.services, local, b)[t]))
  {
    var e := EntryOf(w, local, cs, c);
    ClusterNameCollision(b, true, e.1, e.0 == local);
  }

  // A remote cluster has exactly one endpoint: the ingress of some remote
  // node that offers the bundle.
  lemma RemoteClusterIs(w: Input, local: string, cs: seq<Cluster>, c: Cluster, b: string) returns (m: string)
    requires ClustersFrom(w, local, cs) && NoLocalClash(w.services, local)
    requires c in cs && c.name == GenerateClusterName(b, false)
    requires exists n :: n != local && (n, b) in Entries(w.services)
    ensures m != local && (m, b) in Entries(w.services) && NodeHost(w, m).Some?
    ensures c.endpoints == [Endpoint(NodeHost(w, m).value, ToUint32(w.cfg.ingressPort))]
  {
    var e := EntryOf(w, local, cs, c);
    ClusterNameCollision(b, false, e.1, e.0 == local);
    var n :| n != local && (n, b) in Entries(w.services);
    assert e == (e.0, e.1);
    PortConversionsAgree(w.cfg.ingressPort);
    m := e.0;
  }
}
