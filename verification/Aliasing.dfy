// The registry and server objects carry out the steps of the pipeline, and
// why it matters that they share one services map.
module Aliasing {
  import opened Text
  import opened NodeRegistry
  import opened ServiceRegistry
  import opened Compiler
  import opened XdsServer
  import opened Pipeline

  // ------------------------------------------------------- objects and steps

  // The two objects are in pipeline state s. The server is attached when its
  // map is the registry's own; all that was ever sent is that map.
  ghost predicate Models(env: Env, s: State, reg: ServiceRegistryServer, x: Server)
    reads reg, reg.services, x, x.services
  {
    && env.check == x.check
    && s.reg == reg.services.m && WellFormed(s.reg)
    && s.nodes == x.nodes && s.version == x.snapshotVersion && s.cache == x.cache
    && (s.attached <==> x.services == reg.services)
    && (!s.attached ==> x.services.m == map[])
    && (forall k :: 0 <= k < |reg.sent| ==> reg.sent[k] == reg.services)
  }

  // An announcement is a step of the pipeline. When the server is attached it
  // reads the new entry at once, without a delivery.
  method Announces(env: Env, reg: ServiceRegistryServer, x: Server, a: Announcement, ghost s: State) returns (ghost t: State)
    requires Models(env, s, reg, x) && ValidIndex(a.node, |s.registered|).Some?
    modifies reg, reg.services
    ensures Models(env, t, reg, x) && Next(env, s, Announce(a), t)
    ensures reg.sent == old(reg.sent) + [reg.services]
    ensures s.attached ==> x.Reads(env.cfg).services == Apply(s.reg, a)
    ensures !s.attached ==> x.Reads(env.cfg).services == map[]
  {
    if a.registered {
      reg.Register(a.node, a.bundle, a.port);
    } else {
      reg.Unregister(a.node, a.bundle, a.port);
    }
    t := Announcing(s, a);
  }

  // Consuming any message sent so far, in whatever order, is a step: it
  // attaches the server to what the registry holds now.
  method Consumes(env: Env, reg: ServiceRegistryServer, x: Server, k: nat, ghost s: State) returns (ok: bool, ghost t: State)
    requires Models(env, s, reg, x) && k < |reg.sent| && s.serviceConsumer == ServiceGot
    modifies x
    ensures Models(env, t, reg, x) && Next(env, s, Regenerate(ok), t)
    ensures x.Reads(env.cfg).services == s.reg
  {
    ok := x.ConsumeServices(reg.sent[k], env.cfg);
    t := s.(attached := true, serviceConsumer := if ok then ServiceIdle else ServiceDead,
            version := x.snapshotVersion, cache := x.cache);
  }

  // Consuming a node is a step.
  method ConsumesNode(env: Env, reg: ServiceRegistryServer, x: Server, ghost s: State, node: NodeAddr)
      returns (ok: bool, ghost t: State)
    requires Models(env, s, reg, x)
    requires s.nodeConsumer.NodeGot? && s.nodeConsumer.k < |s.registered| && node == s.registered[s.nodeConsumer.k]
    modifies x
    ensures Models(env, t, reg, x) && Next(env, s, AppendNode(ok), t)
  {
    ok := x.ConsumeNode(node, env.cfg);
    t := s.(nodes := x.nodes, order := s.order + [s.nodeConsumer.k], nodeConsumer := if ok then NodeIdle else NodeDead,
            version := x.snapshotVersion, cache := x.cache);
  }

  // New objects are in the initial state.
  method Boot(env: Env) returns (reg: ServiceRegistryServer, x: Server)
    ensures fresh(reg) && fresh(x) && Models(env, BOOT, reg, x)
  {
    reg := new ServiceRegistryServer();
    x := new Server(env.check);
  }

  // Two announcements with one delivery between them: the second one reaches
  // the server without being delivered.
  method OneDelivery(env: Env, reg: ServiceRegistryServer, x: Server, a: Announcement, b: Announcement, ghost s: State)
      returns (ok: bool, ghost t: State)
    requires Models(env, s, reg, x) && s.serviceConsumer == ServiceIdle
    requires ValidIndex(a.node, |s.registered|).Some? && ValidIndex(b.node, |s.registered|).Some?
    modifies reg, reg.services, x
    ensures Models(env, t, reg, x) && t.pending == s.pending + 1
    ensures x.Reads(env.cfg).services == Apply(Apply(s.reg, a), b)
  {
    t := Announces(env, reg, x, a, s);
    ghost var got := t.(pending := t.pending - 1, serviceConsumer := ServiceGot);
    assert Next(env, t, ReceiveServices, got);
    ok, t := Consumes(env, reg, x, |reg.sent| - 1, got);
    t := Announces(env, reg, x, b, t);
  }

  // ------------------------------------------------------- sending copies

  // A variant that sends the map by value: what is pending are copies.
  datatype Copies = Copies(reg: Services, pending: seq<Services>, seen: Services)

  datatype CopyLabel = Send(a: Announcement) | Deliver(i: nat)

  ghost predicate CopyNext(s: Copies, l: CopyLabel, t: Copies) {
    match l
    case Send(a) => t == Copies(Apply(s.reg, a), s.pending + [Apply(s.reg, a)], s.seen)
    case Deliver(i) => i < |s.pending| && t == Copies(s.reg, s.pending[..i] + s.pending[i + 1..], s.pending[i])
  }

  // Blocked senders are served in any order, so copies regress: with nothing
  // pending any more the server is left with an old map, and no snapshot it
  // makes of that map is a compilation of the registry.
  lemma CopiesRegress(node: string, b1: string, b2: string, port: int32) returns (run: seq<Copies>)
    requires b1 != b2
    ensures |run| == 5 && run[0] == Copies(map[], [], map[])
    ensures CopyNext(run[0], Send(Announcement(node, b1, port, true)), run[1])
    ensures CopyNext(run[1], Send(Announcement(node, b2, port, true)), run[2])
    ensures CopyNext(run[2], Deliver(1), run[3]) && CopyNext(run[3], Deliver(0), run[4])
    ensures run[4].pending == [] && run[4].seen != run[4].reg
    ensures forall w: Input, local, v, snap ::
      w.services == run[4].seen && Compiles(w, local, v, snap) ==> !Compiles(w.(services := run[4].reg), local, v, snap)
  {
    var a, b := Announcement(node, b1, port, true), Announcement(node, b2, port, true);
    var m1 := Apply(map[], a);
    var m2 := Apply(m1, b);
    run := [Copies(map[], [], map[]), Copies(m1, [m1], map[]), Copies(m2, [m1, m2], map[]), Copies(m2, [m1], m2), Copies(m2, [], m1)];
    assert Entries(m1) == {(node, b1)} && (node, b2) in Entries(m2);
    forall w: Input, local, v, snap | w.services == m1 && Compiles(w, local, v, snap)
      ensures !Compiles(w.(services := m2), local, v, snap)
    {
      StaleSnapshot(w, m2, local, v, snap, node, b1, b2);
    }
  }

  lemma StaleSnapshot(w: Input, now: Services, local: string, v: int, snap: Snapshot, node: string, b1: string, b2: string)
    requires Compiles(w, local, v, snap) && Entries(w.services) == {(node, b1)}
    requires (node, b2) in Entries(now) && b1 != b2
    ensures !Compiles(w.(services := now), local, v, snap)
  {
    ClusterNamesComplete(w, local, snap.clusters);
    ClusterNameCollision(b1, node == local, b2, node == local);
    assert EntryName(local, (node, b2)) !in Names(snap.clusters);
    if Compiles(w.(services := now), local, v, snap) {
      ClusterNamesComplete(w.(services := now), local, snap.clusters);
    }
  }
}
