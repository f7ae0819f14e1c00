// What the compiled tables do to a request. An Envoy listener looks its path
// up in the route table it is bound to; the first route whose prefix matches
// decides (RouteMatch.prefix, VirtualHost.routes), and any endpoint of the
// named cluster may be picked.
module Routing {
  import opened Text
  import opened NodeRegistry
  import opened ServiceRegistry
  import opened Compiler

  // ------------------------------------------------------- one proxy

  function FirstMatch(routes: seq<Route>, path: string): (r: Option<Route>)
    ensures r.Some? ==> r.value in routes && HasPrefix(path, r.value.prefix)
    ensures r.None? ==> forall x :: x in routes ==> !HasPrefix(path, x.prefix)
  {
    if routes == [] then None
    else if HasPrefix(path, routes[0].prefix) then Some(routes[0])
    else FirstMatch(routes[1..], path)
  }

  // The k-th route is the first whose prefix begins the path.
  ghost predicate FirstBegins(routes: seq<Route>, k: nat, path: string) {
    && k < |routes|
    && (exists rest: string :: path == routes[k].prefix + rest)
    && forall j, rest: string :: 0 <= j < k ==> path != routes[j].prefix + rest
  }

  lemma {:induction false} FirstMatchAt(routes: seq<Route>, path: string)
    ensures match FirstMatch(routes, path)
      case None => forall k: nat :: !FirstBegins(routes, k, path)
      case Some(r) => exists k: nat :: FirstBegins(routes, k, path) && routes[k] == r
  {
    if routes != [] {
      PrefixIs(path, routes[0].prefix);
      if HasPrefix(path, routes[0].prefix) {
        assert FirstBegins(routes, 0, path);
      } else {
        FirstMatchAt(routes[1..], path);
        forall k: nat ensures FirstBegins(routes, k + 1, path) <==> FirstBegins(routes[1..], k, path) {
          assert forall j :: 0 < j < |routes| ==> routes[j] == routes[1..][j - 1];
        }
        assert forall k: nat :: FirstBegins(routes, k, path) ==> k > 0 && FirstBegins(routes, (k - 1) + 1, path);
      }
    }
  }

  function FindListener(ls: seq<Listener>, port: nat): Option<Listener> {
    if ls == [] then None else if ls[0].port == port then Some(ls[0]) else FindListener(ls[1..], port)
  }

  function FindTable(ts: seq<RouteTable>, name: string): Option<RouteTable> {
    if ts == [] then None else if ts[0].name == name then Some(ts[0]) else FindTable(ts[1..], name)
  }

  function FindCluster(cs: seq<Cluster>, name: string): (c: Option<Cluster>)
    ensures c.Some? ==> c.value in cs && c.value.name == name
    ensures c.None? ==> name !in Names(cs)
  {
    if cs == [] then None
    else if cs[0].name == name then Some(cs[0])
    else
      assert Names(cs) == [cs[0].name] + Names(cs[1..]);
      FindCluster(cs[1..], name)
  }

  // Where a request that arrives on `port` of the proxy may be sent next;
  // nothing when it is answered with an error.
  function NextHops(snap: Snapshot, port: nat, path: string): seq<Endpoint> {
    var l := FindListener(snap.listeners, port);
    if l.None? then []
    else
      var t := FindTable(snap.tables, l.value.table);
      if t.None? then []
      else
        var r := FirstMatch(t.value.routes, path);
        if r.None? then []
        else
          var c := FindCluster(snap.clusters, r.value.cluster);
          if c.None? then [] else c.value.endpoints
  }

  lemma {:induction false} FirstMatchOfConcat(a: seq<Route>, b: seq<Route>, path: string)
    ensures FirstMatch(a + b, path) == if FirstMatch(a, path).Some? then FirstMatch(a, path) else FirstMatch(b, path)
  {
    if a == [] {
      assert a + b == b;
    } else {
      assert (a + b)[1..] == a[1..] + b;
      FirstMatchOfConcat(a[1..], b, path);
    }
  }

  // ------------------------------------------------------- which bundle wins

  ghost predicate RemoteMatch(s: Services, local: string, path: string, b: string) {
    HasPrefix(path, "/" + b) && exists n :: n != local && (n, b) in Entries(s)
  }

  ghost predicate LocalMatch(s: Services, local: string, path: string, b: string) {
    HasPrefix(path, "/" + b) && (local, b) in Entries(s)
  }

  // The egress table as one traversal leaves it.
  function Egress(local: string, order: seq<Entry>): seq<Route> {
    RoutePass(local, order).0 + RoutePass(local, order).1
  }

  // A pass goes on from what its beginning has built.
  lemma {:induction false} RoutePassGrows(local: string, start: seq<Entry>, order: seq<Entry>)
    requires start <= order
    ensures RoutePass(local, start).0 <= RoutePass(local, order).0
    ensures RoutePass(local, start).1 <= RoutePass(local, order).1
    decreases |order|
  {
    if start != order {
      RoutePassGrows(local, start, order[..|order| - 1]);
    }
  }

  lemma FirstEntryFirst(local: string, order: seq<Entry>)
    requires order != []
    ensures var (routes, localRoutes) := RoutePass(local, order);
      if order[0].0 != local then routes != [] && routes[0] == RouteFor(local, order[0])
      else localRoutes != [] && localRoutes[0] == RouteFor(local, order[0])
  {
    assert [order[0]][..0] == [];
    assert RoutePass(local, []) == ([], []);
    RoutePassGrows(local, [order[0]], order);
  }

  // Whatever the order: a remote bundle wins if any remote bundle matches,
  // otherwise a local one, and no route matches when no bundle does.
  lemma EgressDecision(s: Services, local: string, order: seq<Entry>, path: string)
    requires Traverses(order, s)
    ensures var r := FirstMatch(Egress(local, order), path);
      if exists b :: RemoteMatch(s, local, path, b) then
        exists b :: RemoteMatch(s, local, path, b) && r == Some(Route("/" + b, GenerateClusterName(b, false)))
      else if exists b :: LocalMatch(s, local, path, b) then
        exists b :: LocalMatch(s, local, path, b) && r == Some(Route("/" + b, GenerateClusterName(b, true)))
      else r.None?
  {
    var (routes, localRoutes) := RoutePass(local, order);
    RoutePassHolds(local, order);
    FirstMatchOfConcat(routes, localRoutes, path);
    forall b | RemoteMatch(s, local, path, b) ensures FirstMatch(routes, path).Some? {
      var n :| n != local && (n, b) in Entries(s);
      assert RouteFor(local, (n, b)) in routes;
    }
    forall b | LocalMatch(s, local, path, b) ensures FirstMatch(localRoutes, path).Some? {
      assert RouteFor(local, (local, b)) in localRoutes;
    }
    if FirstMatch(routes, path).Some? {
      var e: Entry :| e in order && e.0 != local && FirstMatch(routes, path).value == RouteFor(local, e);
      assert (e.0, e.1) in Entries(s);
      assert RemoteMatch(s, local, path, e.1);
    } else if FirstMatch(localRoutes, path).Some? {
      var e: Entry :| e in order && e.0 == local && FirstMatch(localRoutes, path).value == RouteFor(local, e);
      assert (local, e.1) in Entries(s);
      assert LocalMatch(s, local, path, e.1);
    }
  }

  ghost predicate AlwaysRoutesTo(s: Services, local: string, path: string, b: string) {
    forall order | Traverses(order, s) ::
      var r := FirstMatch(Egress(local, order), path); r.Some? && r.value.prefix == "/" + b
  }

  // The condition a caller can check on the registry.
  ghost predicate Unambiguous(s: Services, local: string, path: string, b: string) {
    if exists x :: RemoteMatch(s, local, path, x) then forall x :: RemoteMatch(s, local, path, x) ==> x == b
    else LocalMatch(s, local, path, b) && forall x :: LocalMatch(s, local, path, x) ==> x == b
  }

  // First-match prefix routing sends a path to bundle b under every map
  // iteration order if and only if b is the only matching candidate.
  lemma RoutingIsExact(s: Services, local: string, path: string, b: string)
    ensures AlwaysRoutesTo(s, local, path, b) <==> Unambiguous(s, local, path, b)
  {
    if Unambiguous(s, local, path, b) {
      forall order | Traverses(order, s)
        ensures var r := FirstMatch(Egress(local, order), path); r.Some? && r.value.prefix == "/" + b
      {
        EgressDecision(s, local, order, path);
      }
    } else if AlwaysRoutesTo(s, local, path, b) {
      if x :| RemoteMatch(s, local, path, x) && x != b {
        var n :| n != local && (n, x) in Entries(s);
        Misroutes(s, local, path, (n, x), b);
      } else if x :| !(exists y :: RemoteMatch(s, local, path, y)) && LocalMatch(s, local, path, x) && x != b {
        Misroutes(s, local, path, (local, x), b);
      } else {
        var order := SomeTraversal(s);
        EgressDecision(s, local, order, path);
        PrefixCancels("/", "", b);
      }
    }
  }

  // The pairs whose instances a request at an egress may end at: offered under
  // a matching prefix, and only remote ones when there are any.
  ghost predicate Candidate(s: Services, local: string, path: string, e: Entry) {
    && e in Entries(s) && HasPrefix(path, "/" + e.1)
    && (e.0 == local ==> !exists b :: RemoteMatch(s, local, path, b))
  }

  lemma CandidateMatches(s: Services, local: string, path: string)
    ensures (exists e: Entry :: Candidate(s, local, path, e)) <==>
      (exists b :: RemoteMatch(s, local, path, b)) || (exists b :: LocalMatch(s, local, path, b))
  {
    if b :| RemoteMatch(s, local, path, b) {
      var n :| n != local && (n, b) in Entries(s);
      assert Candidate(s, local, path, (n, b));
    } else if b :| LocalMatch(s, local, path, b) {
      assert Candidate(s, local, path, (local, b));
    }
    forall e: Entry | Candidate(s, local, path, e)
      ensures RemoteMatch(s, local, path, e.1) || LocalMatch(s, local, path, e.1)
    {
      assert e == (e.0, e.1);
    }
  }

  lemma NoRemoteRoute(s: Services, local: string, order: seq<Entry>, path: string)
    requires Traverses(order, s) && !exists b :: RemoteMatch(s, local, path, b)
    ensures FirstMatch(RoutePass(local, order).0, path).None?
  {
    var routes := RoutePass(local, order).0;
    RoutePassHolds(local, order);
    if FirstMatch(routes, path).Some? {
      var x: Entry :| x in order && x.0 != local && FirstMatch(routes, path).value == RouteFor(local, x);
      assert (x.0, x.1) in Entries(s);
      assert RemoteMatch(s, local, path, x.1);
    }
  }

  // The route of the pair visited first is the first one that matches.
  lemma FirstRoute(s: Services, local: string, order: seq<Entry>, path: string)
    requires Traverses(order, s) && order != [] && HasPrefix(path, "/" + order[0].1)
    ensures order[0].0 == local ==> FirstMatch(RoutePass(local, order).1, path) == Some(RouteFor(local, order[0]))
    ensures Candidate(s, local, path, order[0]) ==> FirstMatch(Egress(local, order), path) == Some(RouteFor(local, order[0]))
  {
    var (routes, localRoutes) := RoutePass(local, order);
    FirstEntryFirst(local, order);
    FirstMatchOfConcat(routes, localRoutes, path);
    if Candidate(s, local, path, order[0]) && order[0].0 == local { NoRemoteRoute(s, local, order, path); }
  }

  // An entry visited first wins against every other candidate of its class.
  lemma Misroutes(s: Services, local: string, path: string, e: Entry, b: string)
    requires e in Entries(s) && HasPrefix(path, "/" + e.1) && e.1 != b
    requires e.0 == local ==> !exists y :: RemoteMatch(s, local, path, y)
    ensures !AlwaysRoutesTo(s, local, path, b)
  {
    var order := TraversalFrom(e, s);
    FirstRoute(s, local, order, path);
    PrefixCancels("/", e.1, b);
    assert FirstMatch(Egress(local, order), path) == Some(RouteFor(local, e));
  }

  // ------------------------------------------------------- listeners and tables

  // A proxy listens on its two ports only; requests at the ingress port meet
  // the local table, and requests at another egress port the full one.
  ghost predicate Bound(cfg: Config, ls: seq<Listener>) {
    var ingress, egress := ToUint32(cfg.ingressPort), ToUint32(cfg.egressPort);
    && (forall port: nat :: FindListener(ls, port).Some? <==> port == ingress || port == egress)
    && FindListener(ls, ingress).value.table == LOCAL_GRPC_ROUTE_NAME
    && (ingress != egress ==> FindListener(ls, egress).value.table == GRPC_ROUTE_NAME)
  }

  lemma ListenersBind(cfg: Config)
    ensures Bound(cfg, Listeners(cfg))
  {
    var ls := Listeners(cfg);
    assert ls[1..][0] == ls[1];
    forall port: nat
      ensures FindListener(ls, port) == if port == ls[0].port then Some(ls[0]) else if port == ls[1].port then Some(ls[1]) else None
    {
      assert FindListener(ls[1..][1..], port) == None;
    }
  }

  ghost predicate ValidPorts(cfg: Config) {
    0 <= cfg.ingressPort < 65536 && 0 <= cfg.egressPort < 65536 && cfg.ingressPort != cfg.egressPort
  }

  // The same for ports in range, which no conversion changes.
  lemma TablesOfPorts(cfg: Config)
    requires ValidPorts(cfg)
    ensures var l := FindListener(Listeners(cfg), cfg.ingressPort); l.Some? && l.value.table == LOCAL_GRPC_ROUTE_NAME
    ensures var l := FindListener(Listeners(cfg), cfg.egressPort); l.Some? && l.value.table == GRPC_ROUTE_NAME
  {
    PortConversionsAgree(cfg.ingressPort);
    PortConversionsAgree(cfg.egressPort);
    ListenersBind(cfg);
  }

  lemma TablesBind(local: string, order: seq<Entry>)
    ensures FindTable(RouteTables(local, order), GRPC_ROUTE_NAME) == Some(RouteTable(GRPC_ROUTE_NAME, Egress(local, order)))
    ensures FindTable(RouteTables(local, order), LOCAL_GRPC_ROUTE_NAME)
      == Some(RouteTable(LOCAL_GRPC_ROUTE_NAME, RoutePass(local, order).1))
  {
    var ts := RouteTables(local, order);
    assert ts[1..][0] == ts[1];
    assert |GRPC_ROUTE_NAME| != |LOCAL_GRPC_ROUTE_NAME|;
  }

  // The endpoints a snapshot has under a cluster name.
  function EndpointsOf(snap: Snapshot, name: string): seq<Endpoint> {
    match FindCluster(snap.clusters, name) case None => [] case Some(c) => c.endpoints
  }

  // An ingress proxy answers from a local bundle that matches, if there is one.
  lemma IngressHops(w: Input, local: string, v: int, snap: Snapshot, path: string) returns (b: string)
    requires Compiles(w, local, v, snap) && exists x :: LocalMatch(w.services, local, path, x)
    requires ValidPorts(w.cfg)
    ensures LocalMatch(w.services, local, path, b)
    ensures NextHops(snap, w.cfg.ingressPort, path) == EndpointsOf(snap, GenerateClusterName(b, true))
  {
    var order :| Traverses(order, w.services) && snap.tables == RouteTables(local, order);
    TablesOfPorts(w.cfg);
    TablesBind(local, order);
    RoutePassHolds(local, order);
    var x :| LocalMatch(w.services, local, path, x);
    var localRoutes := RoutePass(local, order).1;
    assert RouteFor(local, (local, x)) in localRoutes;
    var r := FirstMatch(localRoutes, path).value;
    var e: Entry :| e in order && e.0 == local && r == RouteFor(local, e);
    assert e == (local, e.1);
    b := e.1;
  }

  // ... and with an error if there is none.
  lemma IngressSilent(w: Input, local: string, v: int, snap: Snapshot, path: string)
    requires Compiles(w, local, v, snap) && ValidPorts(w.cfg) && !exists b :: LocalMatch(w.services, local, path, b)
    ensures NextHops(snap, w.cfg.ingressPort, path) == []
  {
    var order :| Traverses(order, w.services) && snap.tables == RouteTables(local, order);
    TablesOfPorts(w.cfg);
    TablesBind(local, order);
    RoutePassHolds(local, order);
    var r := FirstMatch(RoutePass(local, order).1, path);
    if r.Some? {
      var e: Entry :| e in order && e.0 == local && r.value == RouteFor(local, e);
      assert LocalMatch(w.services, local, path, (local, e.1).1);
    }
  }

  // An egress proxy answers from the egress table of some traversal.
  lemma EgressTable(w: Input, local: string, v: int, snap: Snapshot, path: string) returns (order: seq<Entry>)
    requires Compiles(w, local, v, snap)
    requires ValidPorts(w.cfg)
    ensures Traverses(order, w.services)
    ensures NextHops(snap, w.cfg.egressPort, path) ==
      match FirstMatch(Egress(local, order), path) case None => [] case Some(r) => EndpointsOf(snap, r.cluster)
  {
    order :| Traverses(order, w.services) && snap.tables == RouteTables(local, order);
    TablesOfPorts(w.cfg);
    TablesBind(local, order);
  }

  lemma EgressHops(w: Input, local: string, v: int, snap: Snapshot, path: string) returns (b: string)
    requires Compiles(w, local, v, snap)
    requires ValidPorts(w.cfg)
    ensures var hops := NextHops(snap, w.cfg.egressPort, path);
      if exists x :: RemoteMatch(w.services, local, path, x) then
        RemoteMatch(w.services, local, path, b) && hops == EndpointsOf(snap, GenerateClusterName(b, false))
      else if exists x :: LocalMatch(w.services, local, path, x) then
        LocalMatch(w.services, local, path, b) && hops == EndpointsOf(snap, GenerateClusterName(b, true))
      else hops == []
  {
    var order := EgressTable(w, local, v, snap, path);
    EgressDecision(w.services, local, order, path);
    var r := FirstMatch(Egress(local, order), path);
    b := "";
    if exists x :: RemoteMatch(w.services, local, path, x) {
      b :| RemoteMatch(w.services, local, path, b) && r == Some(Route("/" + b, GenerateClusterName(b, false)));
    } else if exists x :: LocalMatch(w.services, local, path, x) {
      b :| LocalMatch(w.services, local, path, b) && r == Some(Route("/" + b, GenerateClusterName(b, true)));
    }
  }
}
