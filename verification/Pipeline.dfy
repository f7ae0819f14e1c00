// The update pipeline as interleaved steps (server.go, service_regisry.go,
// node_regisry.go). Writers mutate under the shared mutex, unlock, and then
// block on an unbuffered channel; two consumers receive, lock and regenerate.
module Pipeline {
  import opened Text
  import opened NodeRegistry
  import opened ServiceRegistry
  import opened Compiler
  import opened XdsServer
  import opened Routing
  import opened Delivery

  datatype NodeConsumer = NodeIdle | NodeGot(k: nat) | NodeDead
  datatype ServiceConsumer = ServiceIdle | ServiceGot | ServiceDead

  datatype Env = Env(cfg: Config, check: IndexCheck)

  datatype State = State(
    reg: Services,               // the registry's services map
    registered: seq<NodeAddr>,   // the registry's nodes
    sending: set<nat>,           // Register calls blocked on the node channel
    nodeConsumer: NodeConsumer,
    pending: nat,                // writers blocked on the service channel
    serviceConsumer: ServiceConsumer,
    nodes: seq<NodeAddr>,        // x.nodes
    order: seq<nat>,             // history: whose node each of them is
    attached: bool,              // x.services is the registry's own map
    version: int,
    cache: Cache)

  // The services the xDS server sees: its own empty map at first, and after
  // the first delivery the very map the registry goes on writing to.
  function Seen(s: State): Services {
    if s.attached then s.reg else map[]
  }

  function InputOf(env: Env, s: State): Input {
    Input(s.nodes, Seen(s), env.cfg, env.check)
  }

  datatype Label =
    | Register(addr: NodeAddr)
    | ReceiveNode(k: nat)
    | AppendNode(ok: bool)
    | Announce(a: Announcement)
    | ReceiveServices
    | Regenerate(ok: bool)

  const BOOT := State(map[], [], {}, NodeIdle, 0, ServiceIdle, [], [], false, -1, map[])

  ghost predicate Next(env: Env, s: State, l: Label, t: State) {
    match l
    case Register(addr) =>
      t == s.(registered := s.registered + [addr], sending := s.sending + {|s.registered|})
    case ReceiveNode(k) =>
      && s.nodeConsumer == NodeIdle && k in s.sending
      && t == s.(sending := s.sending - {k}, nodeConsumer := NodeGot(k))
    case AppendNode(ok) =>
      && s.nodeConsumer.NodeGot? && s.nodeConsumer.k < |s.registered|
      && t == s.(nodes := s.nodes + [s.registered[s.nodeConsumer.k]], order := s.order + [s.nodeConsumer.k],
                 nodeConsumer := if ok then NodeIdle else NodeDead, version := s.version + 1, cache := t.cache)
      && Generates(InputOf(env, t), t.version, s.cache, t.cache, ok)
    case Announce(a) =>
      && ValidIndex(a.node, |s.registered|).Some?
      && t == s.(reg := Apply(s.reg, a), pending := s.pending + 1)
    case ReceiveServices =>
      && s.serviceConsumer == ServiceIdle && s.pending > 0
      && t == s.(pending := s.pending - 1, serviceConsumer := ServiceGot)
    case Regenerate(ok) =>
      && s.serviceConsumer == ServiceGot
      && t == s.(attached := true, serviceConsumer := if ok then ServiceIdle else ServiceDead,
                 version := s.version + 1, cache := t.cache)
      && Generates(InputOf(env, t), t.version, s.cache, t.cache, ok)
  }

  ghost predicate Path(env: Env, states: seq<State>, labels: seq<Label>) {
    && |states| == |labels| + 1
    && forall i :: 0 <= i < |labels| ==> Next(env, states[i], labels[i], states[i + 1])
  }

  ghost predicate Run(env: Env, states: seq<State>, labels: seq<Label>) {
    Path(env, states, labels) && states[0] == BOOT
  }

  function Last(states: seq<State>): State
    requires states != []
  {
    states[|states| - 1]
  }

  lemma PathPrefix(env: Env, states: seq<State>, labels: seq<Label>)
    requires Path(env, states, labels) && labels != []
    ensures Path(env, states[..|labels|], labels[..|labels| - 1])
    ensures states[..|labels|][0] == states[0] && Last(states[..|labels|]) == states[|labels| - 1]
    ensures Next(env, Last(states[..|labels|]), labels[|labels| - 1], Last(states))
  {
    var ss, ls := states[..|labels|], labels[..|labels| - 1];
    forall i | 0 <= i < |ls| ensures Next(env, ss[i], ls[i], ss[i + 1]) {
      assert ls[i] == labels[i] && ss[i] == states[i] && ss[i + 1] == states[i + 1];
    }
  }

  lemma ExtendPath(env: Env, states: seq<State>, labels: seq<Label>, l: Label, t: State)
    requires Path(env, states, labels) && Next(env, Last(states), l, t)
    ensures Path(env, states + [t], labels + [l]) && (states + [t])[0] == states[0]
  {
    var ss, ls := states + [t], labels + [l];
    forall i | 0 <= i < |ls| ensures Next(env, ss[i], ls[i], ss[i + 1]) {
      if i < |labels| {
        assert Next(env, states[i], labels[i], states[i + 1]);
      }
    }
  }

  // ------------------------------------------------------- conservation

  // Every registered node is in exactly one place, exactly once: appended,
  // received but not yet appended, or still being sent.
  ghost predicate Conserved(s: State) {
    && |s.nodes| == |s.order|
    && (forall i :: 0 <= i < |s.order| ==> s.order[i] < |s.registered| && s.nodes[i] == s.registered[s.order[i]])
    && (forall i, j :: 0 <= i < j < |s.order| ==> s.order[i] != s.order[j])
    && (forall k :: k in s.sending ==> k < |s.registered|)
    && (s.nodeConsumer.NodeGot? ==> s.nodeConsumer.k < |s.registered| && s.nodeConsumer.k !in s.sending && s.nodeConsumer.k !in s.order)
    && (forall k :: k in s.sending ==> k !in s.order)
    && (forall k: nat :: k < |s.registered| ==> k in s.order || k in s.sending || s.nodeConsumer == NodeGot(k))
  }

  lemma ConservedAppend(env: Env, s: State, ok: bool, t: State)
    requires Conserved(s) && Next(env, s, AppendNode(ok), t)
    ensures Conserved(t)
  {
    var k := s.nodeConsumer.k;
    assert forall x :: x in t.order <==> x in s.order || x == k;
    assert forall i :: 0 <= i < |s.order| ==> s.order[i] in s.order;
  }

  lemma ConservedReceive(env: Env, s: State, k: nat, t: State)
    requires Conserved(s) && Next(env, s, ReceiveNode(k), t)
    ensures Conserved(t)
  {
  }

  lemma ConservedStep(env: Env, s: State, l: Label, t: State)
    requires Conserved(s) && Next(env, s, l, t)
    ensures Conserved(t)
  {
    match l
    case Register(_) =>
      assert t.registered[..|s.registered|] == s.registered;
    case ReceiveNode(k) => ConservedReceive(env, s, k, t);
    case AppendNode(ok) => ConservedAppend(env, s, ok, t);
    case Announce(_) =>
    case ReceiveServices =>
    case Regenerate(_) =>
  }

  lemma {:induction false} NodeConservation(env: Env, states: seq<State>, labels: seq<Label>)
    requires Run(env, states, labels)
    ensures Conserved(Last(states))
  {
    if labels != [] {
      PathPrefix(env, states, labels);
      NodeConservation(env, states[..|labels|], labels[..|labels| - 1]);
      ConservedStep(env, Last(states[..|labels|]), labels[|labels| - 1], Last(states));
    }
  }

  // In terms of the history: index i of x.nodes is the i-th registrant's
  // address for all i when the appends happened in registration order.
  lemma IndexAgreement(s: State)
    requires Conserved(s)
    requires forall i, j :: 0 <= i < j < |s.registered| ==> s.registered[i] != s.registered[j]
    ensures s.nodes <= s.registered <==> forall i :: 0 <= i < |s.order| ==> s.order[i] == i
  {
    if forall i :: 0 <= i < |s.order| ==> s.order[i] == i {
      InOrderPrefix(s);
    }
    if s.nodes <= s.registered {
      forall i | 0 <= i < |s.order| ensures s.order[i] == i {
        assert s.registered[i] == s.nodes[i] == s.registered[s.order[i]];
      }
    }
  }

  lemma {:induction false} InOrderLength(order: seq<nat>, n: nat)
    requires forall i :: 0 <= i < |order| ==> order[i] == i && order[i] < n
    ensures |order| <= n
  {
    if order != [] { assert order[|order| - 1] == |order| - 1; }
  }

  lemma InOrderPrefix(s: State)
    requires Conserved(s) && forall i :: 0 <= i < |s.order| ==> s.order[i] == i
    ensures s.nodes <= s.registered
  {
    InOrderLength(s.order, |s.registered|);
    assert forall i :: 0 <= i < |s.nodes| ==> s.nodes[i] == s.registered[i];
  }

  // The registry has the addresses of the Register calls, in their order.
  function Registered(labels: seq<Label>): seq<NodeAddr> {
    if labels == [] then []
    else Registered(labels[..|labels| - 1]) + if labels[|labels| - 1].Register? then [labels[|labels| - 1].addr] else []
  }

  lemma {:induction false} RegistryFollowsCalls(env: Env, states: seq<State>, labels: seq<Label>)
    requires Run(env, states, labels)
    ensures Last(states).registered == Registered(labels)
  {
    if labels != [] {
      PathPrefix(env, states, labels);
      RegistryFollowsCalls(env, states[..|labels|], labels[..|labels| - 1]);
    }
  }

  // ------------------------------------------------------- coherence

  // The cache holds a compilation of `w` for every node of the state.
  ghost predicate CachedFor(w: Input, s: State) {
    forall i: nat :: i < |s.nodes| ==>
      GenerateNodeID(i) in s.cache && Compiles(w, GenerateNodeID(i), s.version, s.cache[GenerateNodeID(i)])
  }

  ghost predicate Current(env: Env, s: State) {
    CachedFor(InputOf(env, s), s)
  }

  // While no update is on its way the cache is current; an update the server
  // has not attached to yet is always on its way.
  ghost predicate Coherent(env: Env, s: State) {
    && (s.nodeConsumer != NodeDead && s.serviceConsumer == ServiceIdle && s.pending == 0 ==> Current(env, s))
    && (!s.attached ==> s.reg == map[] || s.pending > 0 || s.serviceConsumer == ServiceGot)
  }

  lemma CoherentStep(env: Env, s: State, l: Label, t: State)
    requires Coherent(env, s) && Next(env, s, l, t)
    ensures Coherent(env, t)
  {
    if (l.AppendNode? || l.Regenerate?) && l.ok {
      assert Current(env, t);
    } else if l.Register? || l.ReceiveNode? {
      assert InputOf(env, t) == InputOf(env, s);
    }
  }

  lemma {:induction false} RunsAreCoherent(env: Env, states: seq<State>, labels: seq<Label>)
    requires Run(env, states, labels)
    ensures Coherent(env, Last(states))
  {
    if labels != [] {
      PathPrefix(env, states, labels);
      RunsAreCoherent(env, states[..|labels|], labels[..|labels| - 1]);
      CoherentStep(env, Last(states[..|labels|]), labels[|labels| - 1], Last(states));
    }
  }

  // The registry only has entries under IDs of registered nodes.
  lemma {:induction false} KeysAreValid(env: Env, states: seq<State>, labels: seq<Label>)
    requires Run(env, states, labels)
    ensures forall n :: n in Last(states).reg ==> ValidIndex(n, |Last(states).registered|).Some?
  {
    if labels != [] {
      PathPrefix(env, states, labels);
      KeysAreValid(env, states[..|labels|], labels[..|labels| - 1]);
      var s, l, t := Last(states[..|labels|]), labels[|labels| - 1], Last(states);
      assert |s.registered| <= |t.registered|;
      assert forall n :: n in t.reg ==> n in s.reg || (l.Announce? && n == l.a.node);
    }
  }

  ghost predicate Quiescent(s: State) {
    s.sending == {} && s.pending == 0 && s.nodeConsumer == NodeIdle && s.serviceConsumer == ServiceIdle
  }

  // What all announcements of a run amount to.
  function Announced(labels: seq<Label>): seq<Announcement> {
    if labels == [] then []
    else Announced(labels[..|labels| - 1]) + if labels[|labels| - 1].Announce? then [labels[|labels| - 1].a] else []
  }

  lemma {:induction false} RegistryFollowsAnnouncements(env: Env, states: seq<State>, labels: seq<Label>)
    requires Run(env, states, labels)
    ensures Last(states).reg == ApplyAll(map[], Announced(labels))
  {
    if labels != [] {
      var ss, ls := states[..|labels|], labels[..|labels| - 1];
      PathPrefix(env, states, labels);
      RegistryFollowsAnnouncements(env, ss, ls);
      var anns := Announced(labels);
      if labels[|labels| - 1].Announce? {
        assert anns[..|anns| - 1] == Announced(ls);
      } else {
        assert anns == Announced(ls);
      }
    }
  }

  // Quiescent coherence: over every interleaving and delivery order, once
  // nothing is pending every node's cached snapshot is a compilation of the
  // current registry contents - which are what the announcements amount to -
  // and of a node list holding every registered node exactly once.
  lemma QuiescentCoherence(env: Env, states: seq<State>, labels: seq<Label>)
    requires Run(env, states, labels) && Quiescent(Last(states))
    ensures var s := Last(states);
      && s.registered == Registered(labels)
      && s.reg == ApplyAll(map[], Announced(labels))
      && CachedFor(InputAtRest(env, s), s)
      && |s.order| == |s.nodes|
      && (forall k: nat :: k < |s.registered| ==> k in s.order)
      && (forall i, j :: 0 <= i < j < |s.order| ==> s.order[i] != s.order[j])
      && (forall i :: 0 <= i < |s.order| ==> s.order[i] < |s.registered| && s.nodes[i] == s.registered[s.order[i]])
  {
    RegistryFollowsCalls(env, states, labels);
    RegistryFollowsAnnouncements(env, states, labels);
    RunsAreCoherent(env, states, labels);
    NodeConservation(env, states, labels);
  }

  // ------------------------------------------------------- versions

  function Generations(labels: seq<Label>): nat {
    if labels == [] then 0
    else Generations(labels[..|labels| - 1]) + if labels[|labels| - 1].AppendNode? || labels[|labels| - 1].Regenerate? then 1 else 0
  }

  // The version counts generations, so it strictly increases with each, and
  // after a successful one every node's snapshot carries its number, counted
  // from zero, in decimal with ".0" behind it.
  lemma {:induction false} VersionCountsGenerations(env: Env, states: seq<State>, labels: seq<Label>)
    requires Run(env, states, labels)
    ensures Last(states).version == Generations(labels) - 1
    ensures labels != [] && (labels[|labels| - 1] == AppendNode(true) || labels[|labels| - 1] == Regenerate(true)) ==>
      forall i: nat :: i < |Last(states).nodes| ==>
        GenerateNodeID(i) in Last(states).cache
        && Last(states).cache[GenerateNodeID(i)].version == IntToString(Generations(labels) - 1) + ".0"
  {
    if labels != [] {
      PathPrefix(env, states, labels);
      VersionCountsGenerations(env, states[..|labels|], labels[..|labels| - 1]);
      SuccessTexts(env, Last(states[..|labels|]), labels[|labels| - 1], Last(states));
    }
  }

  lemma SuccessTexts(env: Env, s: State, l: Label, t: State)
    requires Next(env, s, l, t)
    ensures t.version == s.version + if IsGeneration(l) then 1 else 0
    ensures l == AppendNode(true) || l == Regenerate(true) ==> forall i: nat :: i < |t.nodes| ==>
      GenerateNodeID(i) in t.cache && t.cache[GenerateNodeID(i)].version == IntToString(t.version) + ".0"
  {
    if l == AppendNode(true) || l == Regenerate(true) {
      RefreshedText(InputOf(env, t), t.version, s.cache, t.cache, |t.nodes|);
    }
  }

  predicate IsGeneration(l: Label) {
    l.AppendNode? || l.Regenerate?
  }

  // A step refreshes a node: its cache entry is new or another one.
  ghost predicate Refreshes(s: State, t: State, id: string) {
    id in t.cache && (id !in s.cache || s.cache[id] != t.cache[id])
  }

  lemma RefreshCarriesVersion(env: Env, s: State, l: Label, t: State, id: string)
    requires Next(env, s, l, t) && Refreshes(s, t, id)
    ensures IsGeneration(l) && t.version == s.version + 1
    ensures t.cache[id].version == IntToString(t.version) + ".0"
  {
    var w := InputOf(env, t);
    if l.ok {
      RefreshedText(w, t.version, s.cache, t.cache, |w.nodes|);
    } else {
      var k: nat :| k < |w.nodes| && CachedUpTo(w, t.version, s.cache, t.cache, k) && FailsFor(w, GenerateNodeID(k));
      RefreshedText(w, t.version, s.cache, t.cache, k);
    }
  }

  lemma {:induction false} VersionsGrow(env: Env, states: seq<State>, labels: seq<Label>, i: nat)
    requires Path(env, states, labels) && i <= |labels|
    ensures states[i].version <= Last(states).version
    decreases |labels|
  {
    if i < |labels| {
      PathPrefix(env, states, labels);
      VersionsGrow(env, states[..|labels|], labels[..|labels| - 1], i);
    }
  }

  // Two generations that refresh a node leave different version texts in its
  // cache entry, so a proxy that has the one is sent the other.
  lemma {:induction false} VersionsDiffer(env: Env, states: seq<State>, labels: seq<Label>, i: nat, j: nat, id: string)
    requires Path(env, states, labels) && i < j < |labels|
    requires Refreshes(states[i], states[i + 1], id) && Refreshes(states[j], states[j + 1], id)
    ensures states[i + 1].cache[id].version != states[j + 1].cache[id].version
  {
    assert Next(env, states[i], labels[i], states[i + 1]) && Next(env, states[j], labels[j], states[j + 1]);
    RefreshCarriesVersion(env, states[i], labels[i], states[i + 1], id);
    RefreshCarriesVersion(env, states[j], labels[j], states[j + 1], id);
    PathCut(env, states, labels, j);
    VersionsGrow(env, states[..j + 1], labels[..j], i + 1);
    SuffixCancels(IntToString(states[i + 1].version), IntToString(states[j + 1].version), ".0");
    if IntToString(states[i + 1].version) == IntToString(states[j + 1].version) {
      IntToStringInjective(states[i + 1].version, states[j + 1].version);
    }
  }

  lemma PathCut(env: Env, states: seq<State>, labels: seq<Label>, n: nat)
    requires Path(env, states, labels) && n <= |labels|
    ensures Path(env, states[..n + 1], labels[..n]) && Last(states[..n + 1]) == states[n]
  {
    forall k | 0 <= k < n ensures Next(env, states[..n + 1][k], labels[..n][k], states[..n + 1][k + 1]) {
      assert Next(env, states[k], labels[k], states[k + 1]);
    }
  }

  // Every entry was left by some generation so far.
  ghost predicate OldTexts(s: State) {
    s.version >= -1 && forall id :: id in s.cache ==> exists v: nat :: v <= s.version && s.cache[id].version == IntToString(v) + ".0"
  }

  lemma {:induction false} TextsAreOld(env: Env, states: seq<State>, labels: seq<Label>)
    requires Run(env, states, labels)
    ensures OldTexts(Last(states))
  {
    if labels != [] {
      PathPrefix(env, states, labels);
      TextsAreOld(env, states[..|labels|], labels[..|labels| - 1]);
      var s, t := Last(states[..|labels|]), Last(states);
      forall id | id in t.cache ensures exists v: nat :: v <= t.version && t.cache[id].version == IntToString(v) + ".0" {
        if Refreshes(s, t, id) {
          RefreshCarriesVersion(env, s, labels[|labels| - 1], t, id);
        } else {
          TextsStay(env, s, labels[|labels| - 1], t, id);
        }
      }
    }
  }

  lemma TextsStay(env: Env, s: State, l: Label, t: State, id: string)
    requires Next(env, s, l, t) && id in t.cache && !Refreshes(s, t, id) && OldTexts(s)
    ensures t.version >= s.version && exists v: nat :: v <= t.version && t.cache[id].version == IntToString(v) + ".0"
  {
    var v: nat :| v <= s.version && s.cache[id].version == IntToString(v) + ".0";
    assert v <= t.version;
  }

  // A successful generation refreshes every node.
  lemma SuccessRefreshesAll(env: Env, states: seq<State>, labels: seq<Label>, i: nat)
    requires Run(env, states, labels) && labels != []
    requires labels[|labels| - 1] == AppendNode(true) || labels[|labels| - 1] == Regenerate(true)
    requires i < |Last(states).nodes|
    ensures Refreshes(states[|labels| - 1], Last(states), GenerateNodeID(i))
  {
    var s, t, id := states[|labels| - 1], Last(states), GenerateNodeID(i);
    PathPrefix(env, states, labels);
    TextsAreOld(env, states[..|labels|], labels[..|labels| - 1]);
    SuccessTexts(env, s, labels[|labels| - 1], t);
    if id in s.cache && s.cache[id] == t.cache[id] {
      var v: nat :| v <= s.version && s.cache[id].version == IntToString(v) + ".0";
      SuffixCancels(IntToString(v), IntToString(t.version), ".0");
      IntToStringInjective(v, t.version);
    }
  }

  // ------------------------------------------------------- no failure

  // The ID names a node the server has, or the first one it will have: a
  // generation without nodes compiles nothing.
  predicate Known(s: State, node: string) {
    ValidIndex(node, if s.nodes == [] then 1 else |s.nodes|).Some?
  }

  // Every registration is announced under an ID known at that moment.
  ghost predicate AnnouncesKnown(states: seq<State>, labels: seq<Label>)
    requires |states| == |labels| + 1
  {
    forall i :: 0 <= i < |labels| && labels[i].Announce? && labels[i].a.registered ==> Known(states[i], labels[i].a.node)
  }

  predicate Dead(s: State) {
    s.nodeConsumer == NodeDead || s.serviceConsumer == ServiceDead
  }

  ghost predicate Alive(s: State) {
    !Dead(s) && forall n :: n in s.reg ==> Known(s, n)
  }

  lemma KnownNodesResolve(w: Input)
    requires w.check == Intended && forall n :: n in w.services ==> ValidIndex(n, |w.nodes|).Some?
    ensures EveryNodeResolves(w)
  {
    forall e | e in Entries(w.services) ensures NodeHost(w, e.0).Some? {
      ResolvesIffValid(w, e.0);
    }
  }

  lemma AliveGenerates(env: Env, s: State, l: Label, t: State)
    requires Alive(s) && Next(env, s, l, t) && env.check == Intended && (l.AppendNode? || l.Regenerate?)
    ensures l.ok
  {
    var w := InputOf(env, t);
    if w.nodes != [] {
      assert forall n :: n in w.services ==> Known(s, n);
      KnownNodesResolve(w);
      GenerationSucceeds(w, t.version, s.cache, t.cache, l.ok);
    }
  }

  lemma AliveStep(env: Env, s: State, l: Label, t: State)
    requires Alive(s) && Next(env, s, l, t) && env.check == Intended
    requires l.Announce? && l.a.registered ==> Known(s, l.a.node)
    ensures Alive(t)
    ensures l.AppendNode? || l.Regenerate? ==> l.ok
  {
    if l.AppendNode? || l.Regenerate? {
      AliveGenerates(env, s, l, t);
    }
    assert |s.nodes| <= |t.nodes|;
    assert forall n :: n in t.reg ==> n in s.reg || (l.Announce? && l.a.registered && n == l.a.node);
  }

  lemma {:induction false} AlivePath(env: Env, states: seq<State>, labels: seq<Label>)
    requires Path(env, states, labels) && Alive(states[0]) && AnnouncesKnown(states, labels) && env.check == Intended
    ensures Alive(Last(states))
    ensures labels != [] && (labels[|labels| - 1].AppendNode? || labels[|labels| - 1].Regenerate?) ==> labels[|labels| - 1].ok
  {
    if labels != [] {
      var ss, ls := states[..|labels|], labels[..|labels| - 1];
      PathPrefix(env, states, labels);
      assert forall i :: 0 <= i < |ls| ==> ls[i] == labels[i] && ss[i] == states[i];
      AlivePath(env, ss, ls);
      AliveStep(env, Last(ss), labels[|labels| - 1], Last(states));
    }
  }

  // Generation never fails: in every run that announces registrations only
  // under known IDs each generation succeeds and neither consumer dies.
  lemma GenerationNeverFails(env: Env, states: seq<State>, labels: seq<Label>)
    requires Run(env, states, labels) && AnnouncesKnown(states, labels) && env.check == Intended
    ensures Alive(Last(states))
    ensures labels != [] && (labels[|labels| - 1].AppendNode? || labels[|labels| - 1].Regenerate?) ==> labels[|labels| - 1].ok
  {
    AlivePath(env, states, labels);
  }

  // With the index test as written a consumer dies in the first generation
  // that finds a node and a bundle.
  lemma AsWrittenKillsConsumer(env: Env, s: State, l: Label, t: State)
    requires env.check == AsWritten && Next(env, s, l, t) && (l.AppendNode? || l.Regenerate?)
    ensures l.ok <==> t.nodes == [] || Entries(Seen(t)) == {}
    ensures !l.ok ==> t.nodeConsumer == NodeDead || t.serviceConsumer == ServiceDead
  {
    AsWrittenOutcome(InputOf(env, t), t.version, s.cache, t.cache, l.ok);
  }

  // ------------------------------------------------------- serial registration

  // No Register call starts while another one is still sending. A node that
  // has been received but not appended yet does no harm.
  ghost predicate Serial(states: seq<State>, labels: seq<Label>)
    requires |states| == |labels| + 1
  {
    forall i :: 0 <= i < |labels| && labels[i].Register? ==> states[i].sending == {}
  }

  // How many nodes are appended or received.
  function Taken(s: State): nat {
    |s.order| + if s.nodeConsumer.NodeGot? then 1 else 0
  }

  ghost predicate InOrder(s: State) {
    && Conserved(s)
    && (forall i :: 0 <= i < |s.order| ==> s.order[i] == i)
    && (s.nodeConsumer.NodeGot? ==> s.nodeConsumer.k == |s.order|)
    && (forall k :: k in s.sending ==> k == Taken(s))
    && |s.registered| == Taken(s) + if s.sending == {} then 0 else 1
  }

  lemma InOrderStep(env: Env, s: State, l: Label, t: State)
    requires InOrder(s) && Next(env, s, l, t) && (l.Register? ==> s.sending == {})
    ensures InOrder(t)
  {
    ConservedStep(env, s, l, t);
    if l.ReceiveNode? {
      assert s.sending == {l.k};
    }
  }

  lemma {:induction false} InOrderPath(env: Env, states: seq<State>, labels: seq<Label>)
    requires Path(env, states, labels) && InOrder(states[0]) && Serial(states, labels)
    ensures InOrder(Last(states)) && Last(states).nodes <= Last(states).registered
  {
    if labels != [] {
      var ss, ls := states[..|labels|], labels[..|labels| - 1];
      PathPrefix(env, states, labels);
      assert forall i :: 0 <= i < |ls| ==> labels[i] == ls[i] && states[i] == ss[i];
      InOrderPath(env, ss, ls);
      InOrderStep(env, Last(ss), labels[|labels| - 1], Last(states));
    }
    InOrderPrefix(Last(states));
  }

  // In serial runs x.nodes is always a prefix of the registry's list, so the
  // ID "node-i" resolves to the i-th registrant.
  lemma SerialPrefix(env: Env, states: seq<State>, labels: seq<Label>)
    requires Run(env, states, labels) && Serial(states, labels)
    ensures InOrder(Last(states)) && Last(states).nodes <= Last(states).registered
  {
    InOrderPath(env, states, labels);
  }

  // One node append, whatever comes of the generation.
  lemma AppendSome(env: Env, s: State) returns (t: State, ok: bool)
    requires s.nodeConsumer.NodeGot? && s.nodeConsumer.k < |s.registered|
    ensures Next(env, s, AppendNode(ok), t)
  {
    var w := Input(s.nodes + [s.registered[s.nodeConsumer.k]], Seen(s), env.cfg, env.check);
    var cache, success := SomeGeneration(w, s.version + 1, s.cache);
    ok := success;
    t := s.(nodes := w.nodes, order := s.order + [s.nodeConsumer.k], nodeConsumer := if ok then NodeIdle else NodeDead,
            version := s.version + 1, cache := cache);
    assert InputOf(env, t) == w;
  }

  ghost predicate DistinctAddresses(registered: seq<NodeAddr>) {
    forall i, j :: 0 <= i < j < |registered| ==> registered[i] != registered[j]
  }

  // Of two nodes being sent the later one may be delivered first, and then
  // the lists disagree.
  lemma LaterFirst(env: Env, s: State, j: nat, k: nat) returns (t: State, u: State, ok: bool)
    requires Conserved(s) && s.nodeConsumer == NodeIdle && j < k && j in s.sending && k in s.sending
    requires DistinctAddresses(s.registered)
    ensures Next(env, s, ReceiveNode(k), t) && Next(env, t, AppendNode(ok), u)
    ensures !(u.nodes <= u.registered)
  {
    t := s.(sending := s.sending - {k}, nodeConsumer := NodeGot(k));
    ConservedReceive(env, s, k, t);
    u, ok := AppendSome(env, t);
    ConservedAppend(env, t, ok, u);
    IndexAgreement(u);
    var i := if k == |s.order| then j else |s.order|;
    assert u.order[i] != i by {
      assert k == |s.order| ==> s.order[j] in s.order && j !in s.order;
    }
  }

  // Whatever follows, as long as no other Register call overlaps, x.nodes
  // stays a prefix of the registry's list.
  ghost predicate KeepsPrefix(env: Env, t: State) {
    forall states, labels | Path(env, states, labels) && states[0] == t && Serial(states, labels) ::
      Last(states).nodes <= Last(states).registered
  }

  function Registering(s: State, addr: NodeAddr): State {
    s.(registered := s.registered + [addr], sending := s.sending + {|s.registered|})
  }

  // The node consumer is there to receive, at once or after an append.
  ghost predicate Serving(env: Env, s: State) {
    match s.nodeConsumer
    case NodeIdle => true
    case NodeGot(_) => exists t :: Next(env, s, AppendNode(true), t)
    case NodeDead => false
  }

  // Index agreement, exactly: while the node consumer serves, a Register call
  // is safe if and only if no other call is sending when it starts.
  lemma RegisterIsExact(env: Env, states: seq<State>, labels: seq<Label>, addr: NodeAddr)
    requires Run(env, states, labels) && Serial(states, labels)
    requires Serving(env, Last(states)) && DistinctAddresses(Last(states).registered + [addr])
    ensures Next(env, Last(states), Register(addr), Registering(Last(states), addr))
    ensures KeepsPrefix(env, Registering(Last(states), addr)) <==> Last(states).sending == {}
  {
    var s, t := Last(states), Registering(Last(states), addr);
    SerialPrefix(env, states, labels);
    if s.sending == {} {
      InOrderStep(env, s, Register(addr), t);
      forall ss, ls | Path(env, ss, ls) && ss[0] == t && Serial(ss, ls) ensures Last(ss).nodes <= Last(ss).registered {
        InOrderPath(env, ss, ls);
      }
    } else {
      OverlapBreaks(env, s, addr);
    }
  }

  lemma OverlapBreaks(env: Env, s: State, addr: NodeAddr)
    requires InOrder(s) && s.sending != {} && Serving(env, s) && DistinctAddresses(s.registered + [addr])
    ensures !KeepsPrefix(env, Registering(s, addr))
  {
    var t := Registering(s, addr);
    ConservedStep(env, s, Register(addr), t);
    var ss, ls := ServeOne(env, s, addr);
    var j :| j in s.sending;
    var u, v, ok := LaterFirst(env, Last(ss), j, |s.registered|);
    TwoMore(env, ss, ls, ReceiveNode(|s.registered|), u, AppendNode(ok), v);
    var states, labels := ss + [u] + [v], ls + [ReceiveNode(|s.registered|)] + [AppendNode(ok)];
    assert Serial(states, labels) && Last(states) == v;
  }

  lemma TwoMore(env: Env, ss: seq<State>, ls: seq<Label>, l: Label, u: State, m: Label, v: State)
    requires Path(env, ss, ls) && Next(env, Last(ss), l, u) && Next(env, u, m, v)
    ensures Path(env, ss + [u] + [v], ls + [l] + [m]) && (ss + [u] + [v])[0] == ss[0]
  {
    ExtendPath(env, ss, ls, l, u);
    ExtendPath(env, ss + [u], ls + [l], m, v);
  }

  // After an overlapping Register call the consumer gets ready for a node.
  lemma ServeOne(env: Env, s: State, addr: NodeAddr) returns (ss: seq<State>, ls: seq<Label>)
    requires Conserved(s) && Serving(env, s)
    ensures Path(env, ss, ls) && ss[0] == Registering(s, addr) && forall i :: 0 <= i < |ls| ==> ls[i] == AppendNode(true)
    ensures Conserved(Last(ss)) && Last(ss).nodeConsumer == NodeIdle
    ensures Last(ss).sending == s.sending + {|s.registered|} && Last(ss).registered == s.registered + [addr]
  {
    var t := Registering(s, addr);
    ConservedStep(env, s, Register(addr), t);
    ss, ls := [t], [];
    if s.nodeConsumer.NodeGot? {
      var u :| Next(env, s, AppendNode(true), u);
      var v := u.(registered := t.registered, sending := t.sending);
      assert InputOf(env, v) == InputOf(env, u);
      assert Next(env, t, AppendNode(true), v);
      ConservedAppend(env, t, true, v);
      ss, ls := [t, v], [AppendNode(true)];
    }
  }

  // ------------------------------------------------------- end to end

  lemma CachedMeshCompiled(m: Mesh, s: State)
    requires CachedFor(m.w, s) && |m.snaps| == |m.w.nodes| == |s.nodes|
    requires forall j: nat :: j < |m.snaps| ==> GenerateNodeID(j) in s.cache && m.snaps[j] == s.cache[GenerateNodeID(j)]
    ensures Compiled(m)
  {
    forall j: nat | j < |m.snaps| ensures HasSnapshot(m, j) {
      assert Compiles(m.w, GenerateNodeID(j), s.version, s.cache[GenerateNodeID(j)]);
    }
  }

  // The mesh the cached snapshots of a state configure.
  ghost function MeshOf(w: Input, s: State): (m: Mesh)
    requires CachedFor(w, s) && w.nodes == s.nodes
    ensures Compiled(m) && m.w == w
  {
    var m := Mesh(w, seq(|s.nodes|, i requires 0 <= i < |s.nodes| => s.cache[GenerateNodeID(i)]));
    CachedMeshCompiled(m, s);
    m
  }

  ghost function InputAtRest(env: Env, s: State): Input {
    Input(s.nodes, s.reg, env.cfg, env.check)
  }

  // What the operator of a deployment has to provide.
  ghost predicate OperatorRules(env: Env, s: State) {
    && env.check == Intended && |s.nodes| <= INT64_LIMIT && ValidPorts(env.cfg)
    && (forall i, j :: 0 <= i < j < |s.registered| ==> s.registered[i].host != s.registered[j].host)
    && (forall n, b, p: int32 :: Listed(s.reg, n, b, p) ==> 0 <= p && p != env.cfg.ingressPort && p != env.cfg.egressPort)
    && (forall i: nat :: i < |s.nodes| ==> NoLocalClash(s.reg, GenerateNodeID(i)))
  }

  lemma QuiescentMesh(env: Env, states: seq<State>, labels: seq<Label>)
    requires Run(env, states, labels) && Serial(states, labels) && AnnouncesKnown(states, labels)
    requires Quiescent(Last(states)) && OperatorRules(env, Last(states)) && Last(states).registered != []
    ensures MeshRules(InputAtRest(env, Last(states)))
    ensures Last(states).nodes == Last(states).registered
  {
    var s := Last(states);
    SerialPrefix(env, states, labels);
    GenerationNeverFails(env, states, labels);
    RegistryFollowsAnnouncements(env, states, labels);
    AlwaysWellFormed(Announced(labels));
    KnownNodesResolve(InputAtRest(env, s));
  }

  // Whenever a disciplined run comes to rest, the server has the registry's
  // nodes in the registry's order, and a request issued at any of them reaches
  // an instance of the given bundles through at most two proxies, provided
  // every candidate of the registry is good.
  lemma RestingMeshDelivers(env: Env, states: seq<State>, labels: seq<Label>, i: nat, path: string, bundles: set<string>)
    requires Run(env, states, labels) && Serial(states, labels) && AnnouncesKnown(states, labels)
    requires Quiescent(Last(states)) && OperatorRules(env, Last(states)) && i < |Last(states).registered|
    ensures Last(states).nodes == Last(states).registered
    ensures CachedFor(InputAtRest(env, Last(states)), Last(states))
    ensures Reaches(InputAtRest(env, Last(states)), i, path, bundles) ==>
      DeliveredFrom(MeshOf(InputAtRest(env, Last(states)), Last(states)), i, path, bundles)
  {
    QuiescentMesh(env, states, labels);
    QuiescentCoherence(env, states, labels);
    DeliveryIsExact(InputAtRest(env, Last(states)), i, path, bundles);
  }

  // In particular with canonical node IDs and prefix-free bundle IDs, for
  // every bundle that any registered node offers and every path that begins
  // with "/" and that bundle.
  lemma RestingBundleDelivers(env: Env, states: seq<State>, labels: seq<Label>, i: nat, b: string, rest: string)
    requires Run(env, states, labels) && Serial(states, labels) && AnnouncesKnown(states, labels)
    requires Quiescent(Last(states)) && OperatorRules(env, Last(states))
    requires Canonical(Last(states).reg) && PrefixFree(Last(states).reg)
    requires i < |Last(states).registered| && exists n :: (n, b) in Entries(Last(states).reg)
    ensures Last(states).nodes == Last(states).registered
    ensures CachedFor(InputAtRest(env, Last(states)), Last(states))
    ensures DeliveredFrom(MeshOf(InputAtRest(env, Last(states)), Last(states)), i, "/" + b + rest, {b})
  {
    QuiescentMesh(env, states, labels);
    QuiescentCoherence(env, states, labels);
    BundleDelivery(MeshOf(InputAtRest(env, Last(states)), Last(states)), i, b, rest);
  }

  // ------------------------------------------------------- overlapping runs

  // One node append that succeeds, from a state without services.
  lemma AppendEmpty(env: Env, s: State) returns (t: State)
    requires s.nodeConsumer.NodeGot? && s.nodeConsumer.k < |s.registered| && Seen(s) == map[]
    ensures Next(env, s, AppendNode(true), t)
    ensures t == s.(nodes := s.nodes + [s.registered[s.nodeConsumer.k]], order := s.order + [s.nodeConsumer.k],
                    nodeConsumer := NodeIdle, version := s.version + 1, cache := t.cache)
  {
    var ok;
    t, ok := AppendSome(env, s);
    GenerationSucceeds(InputOf(env, t), t.version, s.cache, t.cache, ok);
  }

  // Two overlapping Register calls, the second delivered and appended first.
  lemma OverlapStart(env: Env, a: NodeAddr, b: NodeAddr) returns (states: seq<State>, labels: seq<Label>)
    ensures Run(env, states, labels)
    ensures labels == [Register(a), Register(b), ReceiveNode(1), AppendNode(true)]
    ensures Last(states) == BOOT.(registered := [a, b], sending := {0}, nodes := [b], order := [1],
                                  version := 0, cache := Last(states).cache)
  {
    var s1 := BOOT.(registered := [a], sending := {0});
    var s2 := s1.(registered := [a, b], sending := {0, 1});
    var s3 := s2.(sending := {0}, nodeConsumer := NodeGot(1));
    var s4 := AppendEmpty(env, s3);
    assert {0, 1} - {1} == {0};
    ExtendPath(env, [BOOT], [], Register(a), s1);
    ExtendPath(env, [BOOT, s1], [Register(a)], Register(b), s2);
    ExtendPath(env, [BOOT, s1, s2], [Register(a), Register(b)], ReceiveNode(1), s3);
    ExtendPath(env, [BOOT, s1, s2, s3], [Register(a), Register(b), ReceiveNode(1)], AppendNode(true), s4);
    states := [BOOT, s1, s2, s3, s4];
    labels := [Register(a), Register(b), ReceiveNode(1), AppendNode(true)];
  }

  // Then a later snapshot resolves "node-0", issued for a, to address b.
  lemma OverlapSwapsNodes(env: Env, a: NodeAddr, b: NodeAddr) returns (states: seq<State>, labels: seq<Label>)
    ensures Run(env, states, labels)
    ensures Last(states).registered == [a, b] && Last(states).nodes == [b, a] && Quiescent(Last(states))
  {
    states, labels := OverlapStart(env, a, b);
    var s5 := Last(states).(sending := {}, nodeConsumer := NodeGot(0));
    assert {0} - {0} == {};
    ExtendPath(env, states, labels, ReceiveNode(0), s5);
    states, labels := states + [s5], labels + [ReceiveNode(0)];
    var s6 := AppendEmpty(env, s5);
    ExtendPath(env, states, labels, AppendNode(true), s6);
    states, labels := states + [s6], labels + [AppendNode(true)];
  }

  // ------------------------------------------------------- early announcements

  // A generation over an entry of an unknown node may kill the consumer.
  lemma KillingPath(env: Env, s: State, node: string, bundle: string) returns (ss: seq<State>, ls: seq<Label>)
    requires s.nodes != [] && (node, bundle) in Entries(s.reg)
    requires NodeHost(Input(s.nodes, s.reg, env.cfg, env.check), node).None?
    requires s.serviceConsumer == ServiceGot || (s.serviceConsumer == ServiceIdle && s.pending > 0)
    ensures Path(env, ss, ls) && ss[0] == s && Last(ss).serviceConsumer == ServiceDead
    ensures forall i :: 0 <= i < |ls| ==> !ls[i].Announce? && !ls[i].Register?
  {
    var t := if s.serviceConsumer == ServiceGot then s else s.(pending := s.pending - 1, serviceConsumer := ServiceGot);
    var u := t.(attached := true, serviceConsumer := ServiceDead, version := t.version + 1);
    assert InputOf(env, u) == Input(s.nodes, s.reg, env.cfg, env.check);
    assert NodeHost(InputOf(env, u), (node, bundle).0).None?;
    CanFail(InputOf(env, u), u.version, t.cache);
    ss, ls := [s], [];
    if s.serviceConsumer == ServiceIdle {
      ExtendPath(env, ss, ls, ReceiveServices, t);
      ss, ls := [s] + [t], [] + [ReceiveServices];
    }
    ExtendPath(env, ss, ls, Regenerate(false), u);
    ss, ls := ss + [u], ls + [Regenerate(false)];
  }

  // Before any node is appended there is a way to append the first one.
  lemma FirstAppend(env: Env, s: State) returns (ss: seq<State>, ls: seq<Label>)
    requires Conserved(s) && s.nodes == [] && s.registered != [] && s.nodeConsumer != NodeDead
    ensures Path(env, ss, ls) && ss[0] == s
    ensures forall i :: 0 <= i < |ls| ==> !ls[i].Announce? && !ls[i].Register?
    ensures |Last(ss).nodes| == 1 && Last(ss).reg == s.reg && Last(ss).pending == s.pending
    ensures Last(ss).serviceConsumer == s.serviceConsumer
  {
    ss, ls := [s], [];
    var t := s;
    if s.nodeConsumer == NodeIdle {
      assert 0 in s.sending;
      t := s.(sending := s.sending - {0}, nodeConsumer := NodeGot(0));
      ExtendPath(env, ss, ls, ReceiveNode(0), t);
      ss, ls := [s] + [t], [] + [ReceiveNode(0)];
    }
    var u, ok := AppendSome(env, t);
    ExtendPath(env, ss, ls, AppendNode(ok), u);
    ss, ls := ss + [u], ls + [AppendNode(ok)];
  }

  lemma JoinPaths(env: Env, ss: seq<State>, ls: seq<Label>, ss': seq<State>, ls': seq<Label>)
    requires Path(env, ss, ls) && Path(env, ss', ls') && Last(ss) == ss'[0]
    ensures Path(env, ss + ss'[1..], ls + ls') && (ss + ss'[1..])[0] == ss[0] && Last(ss + ss'[1..]) == Last(ss')
  {
    var states, labels := ss + ss'[1..], ls + ls';
    forall i | 0 <= i < |labels| ensures Next(env, states[i], labels[i], states[i + 1]) {
      if i < |ls| {
        assert Next(env, ss[i], ls[i], ss[i + 1]);
      } else {
        assert Next(env, ss'[i - |ls|], ls'[i - |ls|], ss'[i - |ls| + 1]);
      }
    }
  }

  // Whatever follows, as long as registrations are announced under known IDs
  // only, no consumer dies.
  ghost predicate StaysAlive(env: Env, t: State) {
    forall states, labels | Path(env, states, labels) && states[0] == t && AnnouncesKnown(states, labels) :: !Dead(Last(states))
  }

  function Announcing(s: State, a: Announcement): State {
    s.(reg := Apply(s.reg, a), pending := s.pending + 1)
  }

  // Exactly: announcing a registration is safe if and only if the ID is known
  // to the server at that moment - it is not enough that the registry has
  // issued it, nor that the announcer's own node has been appended.
  lemma AnnouncementIsExact(env: Env, states: seq<State>, labels: seq<Label>, a: Announcement)
    requires Run(env, states, labels) && AnnouncesKnown(states, labels) && env.check == Intended
    requires a.registered && ValidIndex(a.node, |Last(states).registered|).Some?
    ensures Next(env, Last(states), Announce(a), Announcing(Last(states), a))
    ensures StaysAlive(env, Announcing(Last(states), a)) <==> Known(Last(states), a.node)
  {
    var s, t := Last(states), Announcing(Last(states), a);
    GenerationNeverFails(env, states, labels);
    if Known(s, a.node) {
      AliveStep(env, s, Announce(a), t);
      forall ss, ls | Path(env, ss, ls) && ss[0] == t && AnnouncesKnown(ss, ls) ensures !Dead(Last(ss)) {
        AlivePath(env, ss, ls);
      }
    } else {
      NodeConservation(env, states, labels);
      ConservedStep(env, s, Announce(a), t);
      assert (a.node, a.bundle) in Entries(t.reg);
      UnknownKills(env, t, a.node, a.bundle);
    }
  }

  lemma UnknownKills(env: Env, t: State, node: string, bundle: string)
    requires env.check == Intended && Conserved(t) && !Dead(t) && !Known(t, node)
    requires (node, bundle) in Entries(t.reg) && t.pending > 0 && t.registered != []
    ensures !StaysAlive(env, t)
  {
    var ss, ls := [t], [];
    if t.nodes == [] {
      ss, ls := FirstAppend(env, t);
    }
    ResolvesIffValid(Input(Last(ss).nodes, Last(ss).reg, env.cfg, env.check), node);
    var ss', ls' := KillingPath(env, Last(ss), node, bundle);
    JoinPaths(env, ss, ls, ss', ls');
    assert AnnouncesKnown(ss + ss'[1..], ls + ls');
    assert Dead(Last(ss + ss'[1..]));
  }

  // Announcing under an ID that does not resolve, while the server has a node.
  lemma FailingAnnouncement(env: Env, ss: seq<State>, ls: seq<Label>, ann: Announcement)
      returns (states: seq<State>, labels: seq<Label>)
    requires Run(env, ss, ls) && Last(ss).serviceConsumer == ServiceIdle && Last(ss).nodes != []
    requires ann.registered && ValidIndex(ann.node, |Last(ss).registered|).Some?
    requires NodeHost(Input(Last(ss).nodes, Apply(Last(ss).reg, ann), env.cfg, env.check), ann.node).None?
    ensures Run(env, states, labels) && Last(states).serviceConsumer == ServiceDead
    ensures ss <= states && ls + [Announce(ann)] <= labels
    ensures forall i :: |ls| < i < |labels| ==> !IsCall(labels[i])
  {
    var t := Announcing(Last(ss), ann);
    ExtendPath(env, ss, ls, Announce(ann), t);
    assert (ann.node, ann.bundle) in Entries(t.reg);
    var ss', ls' := KillingPath(env, t, ann.node, ann.bundle);
    JoinPaths(env, ss + [t], ls + [Announce(ann)], ss', ls');
    states, labels := ss + [t] + ss'[1..], ls + [Announce(ann)] + ls';
  }

  // An append that precedes a node's first announcement is not enough: after
  // that overlap the second registrant, whose node is appended, announces
  // under its issued ID "node-1", x.nodes has one entry, and the consumer dies.
  lemma OverlapKillsConsumer(env: Env, a: NodeAddr, b: NodeAddr, bundle: string, port: int32)
      returns (states: seq<State>, labels: seq<Label>)
    requires env.check == Intended
    ensures Run(env, states, labels) && Last(states).serviceConsumer == ServiceDead
    ensures [Register(a), Register(b), ReceiveNode(1), AppendNode(true),
             Announce(Announcement(GenerateNodeID(1), bundle, port, true))] <= labels
    ensures |states| > 4 && 1 in states[4].order
  {
    var ss, ls := OverlapStart(env, a, b);
    var ann := Announcement(GenerateNodeID(1), bundle, port, true);
    IssuedIdsStayValid(1, 2);
    IssuedIdsStayValid(1, 1);
    ResolvesIffValid(Input(Last(ss).nodes, Apply(Last(ss).reg, ann), env.cfg, env.check), ann.node);
    states, labels := FailingAnnouncement(env, ss, ls, ann);
    assert states[4] == Last(ss);
  }

  // With the index test as written the first node to offer a bundle, all calls
  // one after the other, kills the service consumer.
  lemma AsWrittenRun(env: Env, addr: NodeAddr, bundle: string, port: int32) returns (states: seq<State>, labels: seq<Label>)
    requires env.check == AsWritten
    ensures Run(env, states, labels) && Last(states).serviceConsumer == ServiceDead
    ensures [Register(addr), ReceiveNode(0), AppendNode(true), Announce(Announcement(GenerateNodeID(0), bundle, port, true))] <= labels
    ensures forall i :: 4 <= i < |labels| ==> !IsCall(labels[i])
  {
    var ss, ls := FirstNodeRun(env, addr);
    var ann := Announcement(GenerateNodeID(0), bundle, port, true);
    IssuedIdsStayValid(0, 1);
    states, labels := FailingAnnouncement(env, ss, ls, ann);
  }

  lemma FirstNodeRun(env: Env, addr: NodeAddr) returns (states: seq<State>, labels: seq<Label>)
    ensures Run(env, states, labels) && labels == [Register(addr), ReceiveNode(0), AppendNode(true)]
    ensures Last(states).nodes == Last(states).registered == [addr] && Last(states).serviceConsumer == ServiceIdle
  {
    var s := Registering(BOOT, addr);
    var t := s.(sending := {}, nodeConsumer := NodeGot(0));
    assert s.sending - {0} == {};
    TwoMore(env, [BOOT], [], Register(addr), s, ReceiveNode(0), t);
    var u := AppendEmpty(env, t);
    ExtendPath(env, [BOOT] + [s] + [t], [] + [Register(addr)] + [ReceiveNode(0)], AppendNode(true), u);
    states, labels := [BOOT] + [s] + [t] + [u], [] + [Register(addr)] + [ReceiveNode(0)] + [AppendNode(true)];
  }

  // ------------------------------------------------------- coming to rest

  predicate IsCall(l: Label) {
    l.Register? || l.Announce?
  }

  // How much is still on its way.
  function Backlog(s: State): nat {
    2 * |s.sending| + 2 * s.pending + (if s.nodeConsumer.NodeGot? then 1 else 0) + (if s.serviceConsumer == ServiceGot then 1 else 0)
  }

  lemma BacklogDrops(env: Env, s: State, l: Label, t: State)
    requires Next(env, s, l, t) && !IsCall(l)
    ensures Backlog(t) < Backlog(s)
  {
    if l.ReceiveNode? {
      assert s.sending == t.sending + {l.k};
    }
  }

  lemma {:induction false} PathsEnd(env: Env, states: seq<State>, labels: seq<Label>)
    requires Path(env, states, labels) && forall i :: 0 <= i < |labels| ==> !IsCall(labels[i])
    ensures |labels| + Backlog(Last(states)) <= Backlog(states[0])
  {
    if labels != [] {
      PathPrefix(env, states, labels);
      PathsEnd(env, states[..|labels|], labels[..|labels| - 1]);
      BacklogDrops(env, Last(states[..|labels|]), labels[|labels| - 1], Last(states));
    }
  }

  // Nothing can happen without a new call.
  ghost predicate Stuck(env: Env, s: State) {
    forall l, t | Next(env, s, l, t) :: IsCall(l)
  }

  lemma NextStep(env: Env, s: State) returns (l: Label, t: State)
    requires Conserved(s) && !Dead(s) && !Quiescent(s)
    ensures Next(env, s, l, t) && !IsCall(l)
  {
    if s.nodeConsumer.NodeGot? {
      var ok;
      t, ok := AppendSome(env, s);
      l := AppendNode(ok);
    } else if k :| k in s.sending {
      l, t := ReceiveNode(k), s.(sending := s.sending - {k}, nodeConsumer := NodeGot(k));
    } else if s.serviceConsumer == ServiceGot {
      var w := Input(s.nodes, s.reg, env.cfg, env.check);
      var cache, ok := SomeGeneration(w, s.version + 1, s.cache);
      t := s.(attached := true, serviceConsumer := if ok then ServiceIdle else ServiceDead, version := s.version + 1, cache := cache);
      assert InputOf(env, t) == w;
      l := Regenerate(ok);
    } else {
      l, t := ReceiveServices, s.(pending := s.pending - 1, serviceConsumer := ServiceGot);
    }
  }

  // Without new calls a disciplined run comes to rest: it goes on for no more
  // steps than its backlog, and it can only stop when it is quiescent.
  lemma RunsComeToRest(env: Env, states: seq<State>, labels: seq<Label>, ss: seq<State>, ls: seq<Label>)
    requires Run(env, states, labels) && AnnouncesKnown(states, labels) && env.check == Intended
    requires Path(env, ss, ls) && ss[0] == Last(states) && forall i :: 0 <= i < |ls| ==> !IsCall(ls[i])
    ensures |ls| <= Backlog(Last(states))
    ensures Stuck(env, Last(ss)) <==> Quiescent(Last(ss))
  {
    PathsEnd(env, ss, ls);
    JoinPaths(env, states, labels, ss, ls);
    var all, steps := states + ss[1..], labels + ls;
    forall i | 0 <= i < |steps| && steps[i].Announce? && steps[i].a.registered ensures Known(all[i], steps[i].a.node) {
      assert i < |labels| && steps[i] == labels[i] && all[i] == states[i];
    }
    GenerationNeverFails(env, all, steps);
    NodeConservation(env, all, steps);
    if !Quiescent(Last(ss)) {
      var l, t := NextStep(env, Last(ss));
    }
  }

  // It can be carried on to rest.
  lemma {:induction false} Drain(env: Env, s: State) returns (ss: seq<State>, ls: seq<Label>)
    requires Conserved(s) && Alive(s) && env.check == Intended
    ensures Path(env, ss, ls) && ss[0] == s && Quiescent(Last(ss))
    ensures forall i :: 0 <= i < |ls| ==> !IsCall(ls[i])
    ensures Last(ss).reg == s.reg && Last(ss).registered == s.registered
    decreases Backlog(s)
  {
    ss, ls := [s], [];
    if !Quiescent(s) {
      var l, t := NextStep(env, s);
      BacklogDrops(env, s, l, t);
      ConservedStep(env, s, l, t);
      AliveStep(env, s, l, t);
      var ss', ls' := Drain(env, t);
      ExtendPath(env, ss, ls, l, t);
      JoinPaths(env, ss + [t], ls + [l], ss', ls');
      ss, ls := ss + [t] + ss'[1..], ls + [l] + ls';
    }
  }

  ghost predicate Disciplined(env: Env, states: seq<State>, labels: seq<Label>) {
    Run(env, states, labels) && Serial(states, labels) && AnnouncesKnown(states, labels)
  }

  lemma DisciplinedJoin(env: Env, states: seq<State>, labels: seq<Label>, ss: seq<State>, ls: seq<Label>)
    requires Disciplined(env, states, labels)
    requires Path(env, ss, ls) && ss[0] == Last(states) && Serial(ss, ls) && AnnouncesKnown(ss, ls)
    ensures Disciplined(env, states + ss[1..], labels + ls) && Last(states + ss[1..]) == Last(ss)
  {
    JoinPaths(env, states, labels, ss, ls);
    var all, steps := states + ss[1..], labels + ls;
    forall i | 0 <= i < |steps|
      ensures steps[i].Register? ==> all[i].sending == {}
      ensures steps[i].Announce? && steps[i].a.registered ==> Known(all[i], steps[i].a.node)
    {
      if i < |labels| {
        assert steps[i] == labels[i] && all[i] == states[i];
      } else {
        assert steps[i] == ls[i - |labels|] && all[i] == ss[i - |labels|];
      }
    }
  }

  // Every disciplined run can be carried on to rest.
  lemma DrainRun(env: Env, states: seq<State>, labels: seq<Label>) returns (ss: seq<State>, ls: seq<Label>)
    requires Disciplined(env, states, labels) && env.check == Intended
    ensures |ss| > 0 && Disciplined(env, states + ss[1..], labels + ls) && Quiescent(Last(states + ss[1..]))
    ensures Last(states + ss[1..]).reg == Last(states).reg && Last(states + ss[1..]).registered == Last(states).registered
  {
    NodeConservation(env, states, labels);
    GenerationNeverFails(env, states, labels);
    ss, ls := Drain(env, Last(states));
    DisciplinedJoin(env, states, labels, ss, ls);
  }

  lemma DisciplinedCall(env: Env, states: seq<State>, labels: seq<Label>, l: Label, t: State)
    requires Disciplined(env, states, labels) && Next(env, Last(states), l, t)
    requires l.Register? ==> Last(states).sending == {}
    requires l.Announce? && l.a.registered ==> Known(Last(states), l.a.node)
    ensures Disciplined(env, states + [t], labels + [l]) && Last(states + [t]) == t
  {
    assert [Last(states), t][1..] == [t];
    DisciplinedJoin(env, states, labels, [Last(states), t], [l]);
  }

  // The hypotheses of the delivery results can be met: one node registers and
  // announces a bundle, and the run comes to rest with the bundle offered.
  lemma OfferingRun(env: Env, addr: NodeAddr, bundle: string, port: int32) returns (states: seq<State>, labels: seq<Label>)
    requires env.check == Intended && 0 <= port && port != env.cfg.ingressPort && port != env.cfg.egressPort
    requires ValidPorts(env.cfg)
    ensures Disciplined(env, states, labels) && Quiescent(Last(states))
    ensures OperatorRules(env, Last(states)) && Canonical(Last(states).reg) && PrefixFree(Last(states).reg)
    ensures Last(states).registered == [addr] && Last(states).reg == map[GenerateNodeID(0) := map[bundle := [port]]]
  {
    states, labels := RegisteringRun(env, addr);
    var a, s := Announcement(GenerateNodeID(0), bundle, port, true), Last(states);
    IssuedIdsStayValid(0, 1);
    SerialPrefix(env, states, labels);
    OneOffer(s.reg, a);
    states, labels := CallAndDrain(env, states, labels, Announce(a), Announcing(s, a));
    SerialPrefix(env, states, labels);
    OneOfferRules(env, Last(states), bundle, port);
  }

  lemma RegisteringRun(env: Env, addr: NodeAddr) returns (states: seq<State>, labels: seq<Label>)
    requires env.check == Intended
    ensures Disciplined(env, states, labels) && Quiescent(Last(states))
    ensures Last(states).registered == [addr] && Last(states).reg == map[]
  {
    states, labels := CallAndDrain(env, [BOOT], [], Register(addr), Registering(BOOT, addr));
  }

  lemma CallAndDrain(env: Env, states: seq<State>, labels: seq<Label>, l: Label, t: State)
      returns (states': seq<State>, labels': seq<Label>)
    requires Disciplined(env, states, labels) && Next(env, Last(states), l, t) && env.check == Intended
    requires l.Register? ==> Last(states).sending == {}
    requires l.Announce? && l.a.registered ==> Known(Last(states), l.a.node)
    ensures Disciplined(env, states', labels') && Quiescent(Last(states'))
    ensures Last(states').reg == t.reg && Last(states').registered == t.registered
  {
    DisciplinedCall(env, states, labels, l, t);
    var ss, ls := DrainRun(env, states + [t], labels + [l]);
    states', labels' := states + [t] + ss[1..], labels + [l] + ls;
  }

  lemma OneOffer(s: Services, a: Announcement)
    requires s == map[] && a.registered
    ensures Apply(s, a) == map[a.node := map[a.bundle := [a.port]]]
  {
    var ports: seq<int32> := [a.port];
    assert Lookup(s, a.node, a.bundle) + [a.port] == ports;
    assert ports[1..] == [] && Sort(ports) == ports;
  }

  lemma OneOfferRules(env: Env, s: State, bundle: string, port: int32)
    requires env.check == Intended && 0 <= port && port != env.cfg.ingressPort && port != env.cfg.egressPort
    requires ValidPorts(env.cfg)
    requires s.reg == map[GenerateNodeID(0) := map[bundle := [port]]] && |s.registered| == 1 && |s.nodes| <= 1
    ensures OperatorRules(env, s) && Canonical(s.reg) && PrefixFree(s.reg)
  {
    assert forall e :: e in Entries(s.reg) ==> e == (GenerateNodeID(0), bundle);
  }
}
