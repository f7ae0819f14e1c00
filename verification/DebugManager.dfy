// The emulated container manager (pkg/container/debug_container_manager.go)
// and its ledger: what it has announced to the service registry.
module DebugManager {
  import opened Text
  import opened ServiceRegistry

  const SERVICE_PORT_BASE: int := 8080

  datatype VirtualContainer = VirtualContainer(appIdx: int32, image: string)

  function BundleID(appIdx: int32): string {
    "com.mercedes_benz.app_" + IntToString(appIdx)
  }

  // The port of a container, recomputed from its index.
  function PortOf(appIdx: int32): int32 {
    ToInt32(SERVICE_PORT_BASE - 1 + appIdx)
  }

  lemma BundleIDInjective(i: int32, j: int32)
    requires BundleID(i) == BundleID(j)
    ensures i == j
  {
    var p := "com.mercedes_benz.app_";
    assert BundleID(i)[|p|..] == IntToString(i) && BundleID(j)[|p|..] == IntToString(j);
    IntToStringInjective(i, j);
  }

  class DebugContainerManager {
    var container: map<string, VirtualContainer>
    var nextServicePort: int32
    var nextAppIdx: int32

    constructor ()
      ensures Abstract() == Fresh() && container == map[] && nextServicePort == 8080 && nextAppIdx == 1
    {
      container, nextServicePort, nextAppIdx := map[], SERVICE_PORT_BASE, 1;
    }

    ghost function Abstract(): Manager
      reads this
    {
      Manager(container, nextServicePort, nextAppIdx)
    }

    // The random container ID is a parameter.
    method PullImageAndCreateContainer(id: string, name: string) returns (bundleID: string, servicePort: int32)
      modifies this
      ensures (Abstract(), bundleID, servicePort) == Pulled(old(Abstract()), id, name)
    {
      container := container[id := VirtualContainer(nextAppIdx, name)];
      bundleID := "com.mercedes_benz.app_" + IntToString(nextAppIdx);
      servicePort := nextServicePort;
      nextServicePort := ToInt32(nextServicePort + 1);
      nextAppIdx := ToInt32(nextAppIdx + 1);
    }

    // Go's map iteration decides which of several matches goes.
    method RemoveImageAndContainer(name: string) returns (bundleID: string, servicePort: int32, ghost choice: Option<string>)
      modifies this
      ensures IsChoice(old(container), name, choice)
      ensures (Abstract(), bundleID, servicePort) == Removed(old(Abstract()), choice)
    {
      var todo := container.Keys;
      while todo != {}
        invariant todo <= container.Keys && container == old(container) && Abstract() == old(Abstract())
        invariant forall id :: id in container && id !in todo ==> container[id].image != name
        decreases todo
      {
        var id :| id in todo;
        todo := todo - {id};
        var vc := container[id];
        if vc.image == name {
          container := container - {id};
          bundleID := BundleID(vc.appIdx);
          servicePort := ToInt32(SERVICE_PORT_BASE - 1 + vc.appIdx);
          return bundleID, servicePort, Some(id);
        }
      }
      return "", -1, None;
    }
  }

  // ------------------------------------------------------- the two operations

  datatype Manager = Manager(container: map<string, VirtualContainer>, nextServicePort: int32, nextAppIdx: int32)

  function Fresh(): Manager {
    Manager(map[], SERVICE_PORT_BASE, 1)
  }

  function Pulled(d: Manager, id: string, name: string): (Manager, string, int32) {
    (Manager(d.container[id := VirtualContainer(d.nextAppIdx, name)], ToInt32(d.nextServicePort + 1), ToInt32(d.nextAppIdx + 1)),
     BundleID(d.nextAppIdx), d.nextServicePort)
  }

  ghost predicate IsChoice(container: map<string, VirtualContainer>, name: string, choice: Option<string>) {
    match choice
    case Some(id) => id in container && container[id].image == name
    case None => forall id :: id in container ==> container[id].image != name
  }

  // Removal recomputes bundle and port from the container's index; without a
  // match it answers ("", -1) and still succeeds.
  function Removed(d: Manager, choice: Option<string>): (Manager, string, int32)
    requires choice.Some? ==> choice.value in d.container
  {
    match choice
    case Some(id) =>
      var idx := d.container[id].appIdx;
      (d.(container := d.container - {id}), BundleID(idx), PortOf(idx))
    case None => (d, "", -1)
  }

  // ------------------------------------------------------- ledger runs

  datatype Op = PullOp(id: string, image: string) | RemoveOp(image: string, choice: Option<string>)

  // A run of pulls and removals, each announced to the registry as `process`
  // does. The container IDs are random, so a pull may hit one in use.
  ghost predicate LedgerRun(node: string, ops: seq<Op>, ds: seq<Manager>, ss: seq<Services>) {
    && |ds| == |ss| == |ops| + 1
    && ds[0] == Fresh() && ss[0] == map[]
    && forall k :: 0 <= k < |ops| ==> LedgerStep(node, ops[k], ds[k], ss[k], ds[k + 1], ss[k + 1])
  }

  ghost predicate LedgerStep(node: string, op: Op, d: Manager, s: Services, e: Manager, t: Services) {
    match op
    case PullOp(id, image) =>
      var (next, bundle, port) := Pulled(d, id, image);
      e == next && t == RegisterService(s, node, bundle, port)
    case RemoveOp(image, choice) =>
      && IsChoice(d.container, image, choice)
      && var (next, bundle, port) := Removed(d, choice);
         e == next && t == UnregisterService(s, node, bundle, port)
  }

  // Container id holds exactly this registry entry.
  ghost predicate Holds(d: Manager, id: string, b: string, p: int32) {
    id in d.container && b == BundleID(d.container[id].appIdx) && p == PortOf(d.container[id].appIdx)
  }

  // The registry entries of the node are those of its live containers.
  ghost predicate Agrees(node: string, d: Manager, s: Services) {
    && WellFormed(s)
    && forall b, p: int32 :: Listed(s, node, b, p) <==> exists id :: Holds(d, id, b, p)
  }

  // Another live container has the index of this one.
  ghost predicate HasTwin(d: Manager, id: string)
    requires id in d.container
  {
    exists j :: j in d.container && j != id && d.container[j].appIdx == d.container[id].appIdx
  }

  // A removal takes a container with a live twin, whose entry goes too, or a
  // pull silently replaces a container that alone has its index, whose entry
  // stays.
  ghost predicate Harmful(op: Op, d: Manager) {
    match op
    case PullOp(id, _) => id in d.container && !HasTwin(d, id) && d.container[id].appIdx != d.nextAppIdx
    case RemoveOp(_, choice) => choice.Some? && choice.value in d.container && HasTwin(d, choice.value)
  }

  // ------------------------------------------------------- counters

  // The port counter always runs in step with the index counter.
  predicate InStep(d: Manager) {
    d.nextServicePort == PortOf(d.nextAppIdx)
  }

  lemma WrapSucc(x: int)
    ensures ToInt32(ToInt32(x) + 1) == ToInt32(x + 1)
  {
  }

  // The port recomputed from a wrapped index is the wrapped port.
  lemma WrapPort(x: int)
    ensures ToInt32(SERVICE_PORT_BASE - 1 + ToInt32(x)) == ToInt32(SERVICE_PORT_BASE - 1 + x)
  {
  }

  lemma CountersStep(d: Manager)
    requires InStep(d)
    ensures ToInt32(d.nextServicePort + 1) == PortOf(ToInt32(d.nextAppIdx + 1))
  {
    WrapSucc(SERVICE_PORT_BASE - 1 + d.nextAppIdx);
    WrapPort(d.nextAppIdx + 1);
  }

  // ------------------------------------------------------- entries and indexes

  // The registry entry of an index, which belongs to no other index.
  ghost predicate HasEntry(node: string, s: Services, idx: int32) {
    Listed(s, node, BundleID(idx), PortOf(idx))
  }

  ghost predicate EntryOf(idx: int32, b: string, p: int32) {
    b == BundleID(idx) && p == PortOf(idx)
  }

  // Every entry of the node is the one of some index.
  ghost predicate Keyed(node: string, s: Services) {
    forall b, p: int32 :: Listed(s, node, b, p) ==> exists idx: int32 :: EntryOf(idx, b, p)
  }

  // A container of this index is live.
  ghost predicate Live(d: Manager, idx: int32) {
    exists id :: id in d.container && d.container[id].appIdx == idx
  }

  lemma HoldsMeansLive(d: Manager, idx: int32)
    ensures Live(d, idx) <==> exists id :: Holds(d, id, BundleID(idx), PortOf(idx))
  {
    if id :| Holds(d, id, BundleID(idx), PortOf(idx)) {
      BundleIDInjective(idx, d.container[id].appIdx);
    }
    if id :| id in d.container && d.container[id].appIdx == idx {
      assert Holds(d, id, BundleID(idx), PortOf(idx));
    }
  }

  // Agreement is about indexes: those with an entry are the live ones.
  lemma AgreesByIndex(node: string, d: Manager, s: Services)
    requires WellFormed(s)
    ensures Agrees(node, d, s) <==> Keyed(node, s) && forall idx: int32 :: HasEntry(node, s, idx) <==> Live(d, idx)
  {
    forall idx: int32
      ensures Live(d, idx) <==> exists id :: Holds(d, id, BundleID(idx), PortOf(idx))
    {
      HoldsMeansLive(d, idx);
    }
    if Agrees(node, d, s) {
      forall b, p: int32 | Listed(s, node, b, p) ensures exists idx: int32 :: EntryOf(idx, b, p) {
        var id :| Holds(d, id, b, p);
        assert EntryOf(d.container[id].appIdx, b, p);
      }
    } else if Keyed(node, s) && forall idx: int32 :: HasEntry(node, s, idx) <==> Live(d, idx) {
      forall b, p: int32 ensures Listed(s, node, b, p) <==> exists id :: Holds(d, id, b, p) {
        if id :| Holds(d, id, b, p) {
          assert HasEntry(node, s, d.container[id].appIdx);
        }
        if Listed(s, node, b, p) {
          var idx: int32 :| EntryOf(idx, b, p);
          assert HasEntry(node, s, idx);
        }
      }
    }
  }

  // ------------------------------------------------------- one operation

  lemma EntriesAfterPull(node: string, s: Services, idx: int32)
    requires WellFormed(s) && Keyed(node, s)
    ensures var t := RegisterService(s, node, BundleID(idx), PortOf(idx));
      WellFormed(t) && Keyed(node, t) && forall x: int32 :: HasEntry(node, t, x) <==> x == idx || HasEntry(node, s, x)
  {
    var t := RegisterService(s, node, BundleID(idx), PortOf(idx));
    RegisterOne(s, node, BundleID(idx), PortOf(idx));
    forall x: int32 ensures HasEntry(node, t, x) <==> x == idx || HasEntry(node, s, x) {
      if BundleID(x) == BundleID(idx) { BundleIDInjective(x, idx); }
    }
    assert EntryOf(idx, BundleID(idx), PortOf(idx));
  }

  lemma EntriesAfterRemove(node: string, s: Services, idx: int32)
    requires WellFormed(s) && Keyed(node, s)
    ensures var t := UnregisterService(s, node, BundleID(idx), PortOf(idx));
      WellFormed(t) && Keyed(node, t) && forall x: int32 :: HasEntry(node, t, x) <==> x != idx && HasEntry(node, s, x)
  {
    var t := UnregisterService(s, node, BundleID(idx), PortOf(idx));
    UnregisterOne(s, node, BundleID(idx), PortOf(idx));
    forall x: int32 ensures HasEntry(node, t, x) <==> x != idx && HasEntry(node, s, x) {
      if BundleID(x) == BundleID(idx) { BundleIDInjective(x, idx); }
    }
  }

  // Unregistering ("", -1) changes nothing: no container has that bundle.
  lemma EntriesAfterMiss(node: string, s: Services)
    requires WellFormed(s) && Keyed(node, s)
    ensures var t := UnregisterService(s, node, "", -1);
      WellFormed(t) && Keyed(node, t) && forall x: int32 :: HasEntry(node, t, x) <==> HasEntry(node, s, x)
  {
    UnregisterOne(s, node, "", -1);
    assert forall x: int32 :: |BundleID(x)| > 0;
  }

  lemma LiveAfterPull(d: Manager, id: string, image: string)
    ensures (forall x: int32 :: Live(Pulled(d, id, image).0, x) <==> x == d.nextAppIdx || Live(d, x)) <==> !Harmful(PullOp(id, image), d)
  {
    var e := Pulled(d, id, image).0;
    assert Live(e, d.nextAppIdx) by { assert e.container[id].appIdx == d.nextAppIdx; }
    forall j | j in d.container && j != id ensures Live(e, d.container[j].appIdx) {
      assert e.container[j] == d.container[j];
    }
    if id in d.container {
      assert Live(d, d.container[id].appIdx);
    }
  }

  lemma LiveAfterRemove(d: Manager, id: string)
    requires id in d.container
    ensures var e, idx := d.(container := d.container - {id}), d.container[id].appIdx;
      (forall x: int32 :: Live(e, x) <==> x != idx && Live(d, x)) <==> !HasTwin(d, id)
  {
    var e := d.(container := d.container - {id});
    forall j | j in d.container && j != id ensures Live(e, d.container[j].appIdx) {
      assert e.container[j] == d.container[j];
    }
  }

  lemma PullIsExact(node: string, d: Manager, s: Services, id: string, image: string)
    requires InStep(d) && Agrees(node, d, s)
    ensures var (e, bundle, port) := Pulled(d, id, image);
      InStep(e) && (Agrees(node, e, RegisterService(s, node, bundle, port)) <==> !Harmful(PullOp(id, image), d))
  {
    var (e, bundle, port) := Pulled(d, id, image);
    AgreesByIndex(node, d, s);
    CountersStep(d);
    EntriesAfterPull(node, s, d.nextAppIdx);
    LiveAfterPull(d, id, image);
    AgreesByIndex(node, e, RegisterService(s, node, bundle, port));
  }

  lemma RemoveIsExact(node: string, d: Manager, s: Services, choice: Option<string>)
    requires Agrees(node, d, s) && (choice.Some? ==> choice.value in d.container)
    ensures var (e, bundle, port) := Removed(d, choice);
      Agrees(node, e, UnregisterService(s, node, bundle, port)) <==> !(choice.Some? && HasTwin(d, choice.value))
  {
    var (e, bundle, port) := Removed(d, choice);
    AgreesByIndex(node, d, s);
    if choice.Some? {
      EntriesAfterRemove(node, s, d.container[choice.value].appIdx);
      LiveAfterRemove(d, choice.value);
    } else {
      EntriesAfterMiss(node, s);
    }
    AgreesByIndex(node, e, UnregisterService(s, node, bundle, port));
  }

  // Before the call, whatever the map iteration will pick: removing an image
  // keeps the agreement if and only if no live container of it has a twin.
  lemma RemovalIsSafe(node: string, d: Manager, s: Services, image: string)
    requires Agrees(node, d, s)
    ensures (forall choice | IsChoice(d.container, image, choice) ::
        var (e, bundle, port) := Removed(d, choice); Agrees(node, e, UnregisterService(s, node, bundle, port)))
      <==> forall id :: id in d.container && d.container[id].image == image ==> !HasTwin(d, id)
  {
    forall choice | IsChoice(d.container, image, choice)
      ensures var (e, bundle, port) := Removed(d, choice);
        Agrees(node, e, UnregisterService(s, node, bundle, port)) <==> !(choice.Some? && HasTwin(d, choice.value))
    {
      RemoveIsExact(node, d, s, choice);
    }
    forall id | id in d.container && d.container[id].image == image ensures IsChoice(d.container, image, Some(id)) {
    }
  }

  lemma StepIsExact(node: string, op: Op, d: Manager, s: Services, e: Manager, t: Services)
    requires InStep(d) && Agrees(node, d, s) && LedgerStep(node, op, d, s, e, t)
    ensures InStep(e)
    ensures Agrees(node, e, t) <==> !Harmful(op, d)
  {
    match op
    case PullOp(id, image) => PullIsExact(node, d, s, id, image);
    case RemoveOp(_, choice) => RemoveIsExact(node, d, s, choice);
  }

  // ------------------------------------------------------- runs

  lemma {:induction false} AgreesUpTo(node: string, ops: seq<Op>, ds: seq<Manager>, ss: seq<Services>, n: nat)
    requires LedgerRun(node, ops, ds, ss) && n <= |ops|
    requires forall k :: 0 <= k < n ==> !Harmful(ops[k], ds[k])
    ensures InStep(ds[n]) && Agrees(node, ds[n], ss[n])
  {
    if n > 0 {
      AgreesUpTo(node, ops, ds, ss, n - 1);
      assert LedgerStep(node, ops[n - 1], ds[n - 1], ss[n - 1], ds[n - 1 + 1], ss[n - 1 + 1]);
      StepIsExact(node, ops[n - 1], ds[n - 1], ss[n - 1], ds[n], ss[n]);
    }
  }

  // Ledger agreement, exactly: throughout a run of whatever length, over any
  // number of overflows, the node's registry entries are the (bundle, port)
  // pairs of its live containers if and only if no operation was harmful.
  lemma {:induction false} LedgerIsExact(node: string, ops: seq<Op>, ds: seq<Manager>, ss: seq<Services>)
    requires LedgerRun(node, ops, ds, ss)
    ensures (forall k :: 0 <= k <= |ops| ==> Agrees(node, ds[k], ss[k])) <==> (forall k :: 0 <= k < |ops| ==> !Harmful(ops[k], ds[k]))
  {
    if forall k :: 0 <= k < |ops| ==> !Harmful(ops[k], ds[k]) {
      forall k | 0 <= k <= |ops| ensures Agrees(node, ds[k], ss[k]) {
        AgreesUpTo(node, ops, ds, ss, k);
      }
    } else {
      var n := FirstHarm(ops, ds);
      AgreesUpTo(node, ops, ds, ss, n);
      assert LedgerStep(node, ops[n], ds[n], ss[n], ds[n + 1], ss[n + 1]);
      StepIsExact(node, ops[n], ds[n], ss[n], ds[n + 1], ss[n + 1]);
    }
  }

  lemma {:induction false} FirstHarm(ops: seq<Op>, ds: seq<Manager>) returns (n: nat)
    requires |ds| == |ops| + 1 && exists k :: 0 <= k < |ops| && Harmful(ops[k], ds[k])
    ensures n < |ops| && Harmful(ops[n], ds[n]) && forall k :: 0 <= k < n ==> !Harmful(ops[k], ds[k])
  {
    n := 0;
    while !Harmful(ops[n], ds[n])
      decreases |ops| - n
      invariant n < |ops| && forall k :: 0 <= k < n ==> !Harmful(ops[k], ds[k])
      invariant exists k :: n <= k < |ops| && Harmful(ops[k], ds[k])
    {
      n := n + 1;
    }
  }

  // ------------------------------------------------------- before overflow

  function Pulls(ops: seq<Op>): nat {
    if ops == [] then 0 else Pulls(ops[..|ops| - 1]) + if ops[|ops| - 1].PullOp? then 1 else 0
  }

  ghost predicate FreshIds(ops: seq<Op>, ds: seq<Manager>)
    requires |ds| == |ops| + 1
  {
    forall k :: 0 <= k < |ops| && ops[k].PullOp? ==> ops[k].id !in ds[k].container
  }

  // The index of the k-th container ever created.
  function AppIdx(k: nat): int32 {
    ToInt32(1 + k)
  }

  ghost predicate IssuedBefore(idx: int32, pulls: nat) {
    exists k: nat :: k < pulls && idx == AppIdx(k)
  }

  // Counters of 32 bits do not repeat before 2^32 pulls.
  lemma NotIssuedYet(pulls: nat)
    requires pulls < 0x1_0000_0000
    ensures !IssuedBefore(AppIdx(pulls), pulls)
  {
  }

  // After `pulls` pulls live containers have distinct indexes, all issued.
  ghost predicate AllDistinct(d: Manager, pulls: nat) {
    && d.nextAppIdx == AppIdx(pulls)
    && (forall id :: id in d.container ==> IssuedBefore(d.container[id].appIdx, pulls))
    && (forall i, j :: i in d.container && j in d.container && i != j ==> d.container[i].appIdx != d.container[j].appIdx)
  }

  lemma PullsDistinct(d: Manager, id: string, image: string, pulls: nat)
    requires AllDistinct(d, pulls) && pulls < 0x1_0000_0000
    ensures AllDistinct(Pulled(d, id, image).0, pulls + 1)
  {
    var e := Pulled(d, id, image).0;
    WrapSucc(1 + pulls);
    NotIssuedYet(pulls);
    assert IssuedBefore(d.nextAppIdx, pulls + 1);
    forall i | i in d.container ensures IssuedBefore(d.container[i].appIdx, pulls + 1) {
      var k: nat :| k < pulls && d.container[i].appIdx == AppIdx(k);
    }
  }

  lemma {:induction false} DistinctInRuns(node: string, ops: seq<Op>, ds: seq<Manager>, ss: seq<Services>, n: nat)
    requires LedgerRun(node, ops, ds, ss) && n <= |ops| && Pulls(ops[..n]) <= 0x1_0000_0000
    ensures AllDistinct(ds[n], Pulls(ops[..n]))
  {
    if n > 0 {
      assert ops[..n][..n - 1] == ops[..n - 1];
      DistinctInRuns(node, ops, ds, ss, n - 1);
      assert LedgerStep(node, ops[n - 1], ds[n - 1], ss[n - 1], ds[n - 1 + 1], ss[n - 1 + 1]);
      match ops[n - 1]
      case PullOp(id, image) => PullsDistinct(ds[n - 1], id, image, Pulls(ops[..n - 1]));
      case RemoveOp(_, _) =>
    }
  }

  lemma {:induction false} PullsGrow(ops: seq<Op>, n: nat)
    requires n <= |ops|
    ensures Pulls(ops[..n]) <= Pulls(ops)
    decreases |ops|
  {
    if n < |ops| {
      PullsGrow(ops[..|ops| - 1], n);
      assert ops[..|ops| - 1][..n] == ops[..n];
    } else {
      assert ops[..n] == ops;
    }
  }

  lemma {:induction false} CountersInRuns(node: string, ops: seq<Op>, ds: seq<Manager>, ss: seq<Services>, n: nat)
    requires LedgerRun(node, ops, ds, ss) && n <= |ops|
    ensures ds[n].nextAppIdx == ToInt32(1 + Pulls(ops[..n])) && ds[n].nextServicePort == ToInt32(8080 + Pulls(ops[..n]))
  {
    if n > 0 {
      assert ops[..n][..n - 1] == ops[..n - 1];
      CountersInRuns(node, ops, ds, ss, n - 1);
      assert LedgerStep(node, ops[n - 1], ds[n - 1], ss[n - 1], ds[n - 1 + 1], ss[n - 1 + 1]);
      WrapSucc(1 + Pulls(ops[..n - 1]));
      WrapSucc(8080 + Pulls(ops[..n - 1]));
    }
  }

  // The answer to the k-th pull of a run, counted from zero: the bundle ID
  // with number k + 1 and the k-th port from 8080 on, up to 32-bit overflow.
  lemma PullAnswers(node: string, ops: seq<Op>, ds: seq<Manager>, ss: seq<Services>, n: nat)
    requires LedgerRun(node, ops, ds, ss) && n < |ops| && ops[n].PullOp?
    ensures var (_, bundle, port) := Pulled(ds[n], ops[n].id, ops[n].image);
      && bundle == "com.mercedes_benz.app_" + IntToString(ToInt32(1 + Pulls(ops[..n])))
      && port == ToInt32(8080 + Pulls(ops[..n]))
      && Listed(ss[n + 1], node, bundle, port)
  {
    CountersInRuns(node, ops, ds, ss, n);
    assert LedgerStep(node, ops[n], ds[n], ss[n], ds[n + 1], ss[n + 1]);
    RunsAreWellFormed(node, ops, ds, ss, n);
    var (_, bundle, port) := Pulled(ds[n], ops[n].id, ops[n].image);
    RegisterOne(ss[n], node, bundle, port);
  }

  lemma {:induction false} RunsAreWellFormed(node: string, ops: seq<Op>, ds: seq<Manager>, ss: seq<Services>, n: nat)
    requires LedgerRun(node, ops, ds, ss) && n <= |ops|
    ensures WellFormed(ss[n])
  {
    if n > 0 {
      RunsAreWellFormed(node, ops, ds, ss, n - 1);
      assert LedgerStep(node, ops[n - 1], ds[n - 1], ss[n - 1], ds[n - 1 + 1], ss[n - 1 + 1]);
      match ops[n - 1]
      case PullOp(id, image) =>
        RegisterOne(ss[n - 1], node, Pulled(ds[n - 1], id, image).1, Pulled(ds[n - 1], id, image).2);
      case RemoveOp(_, choice) =>
        UnregisterOne(ss[n - 1], node, Removed(ds[n - 1], choice).1, Removed(ds[n - 1], choice).2);
    }
  }

  // In particular with fresh container IDs and up to 2^32 pulls, past the
  // overflow of both counters.
  lemma LedgerAgreement(node: string, ops: seq<Op>, ds: seq<Manager>, ss: seq<Services>)
    requires LedgerRun(node, ops, ds, ss) && FreshIds(ops, ds) && Pulls(ops) <= 0x1_0000_0000
    ensures forall k :: 0 <= k <= |ops| ==> Agrees(node, ds[k], ss[k])
  {
    forall k | 0 <= k < |ops| ensures !Harmful(ops[k], ds[k]) {
      PullsGrow(ops, k);
      DistinctInRuns(node, ops, ds, ss, k);
    }
    LedgerIsExact(node, ops, ds, ss);
  }

  // ------------------------------------------------------- past 2^32 pulls

  lemma ExtendLedger(node: string, ops: seq<Op>, ds: seq<Manager>, ss: seq<Services>, op: Op, e: Manager, t: Services)
    requires LedgerRun(node, ops, ds, ss) && LedgerStep(node, op, ds[|ops|], ss[|ops|], e, t)
    ensures LedgerRun(node, ops + [op], ds + [e], ss + [t])
  {
    var ops', ds', ss' := ops + [op], ds + [e], ss + [t];
    forall k | 0 <= k < |ops'| ensures LedgerStep(node, ops'[k], ds'[k], ss'[k], ds'[k + 1], ss'[k + 1]) {
      if k < |ops| {
        assert LedgerStep(node, ops[k], ds[k], ss[k], ds[k + 1], ss[k + 1]);
      }
    }
  }

  lemma PullNext(node: string, ops: seq<Op>, ds: seq<Manager>, ss: seq<Services>, id: string, image: string)
      returns (ops': seq<Op>, ds': seq<Manager>, ss': seq<Services>)
    requires LedgerRun(node, ops, ds, ss) && FreshIds(ops, ds) && id !in ds[|ops|].container
    ensures LedgerRun(node, ops', ds', ss') && FreshIds(ops', ds')
    ensures ops' == ops + [PullOp(id, image)] && ds' == ds + [Pulled(ds[|ops|], id, image).0]
  {
    var (e, bundle, port) := Pulled(ds[|ops|], id, image);
    var t := RegisterService(ss[|ops|], node, bundle, port);
    ExtendLedger(node, ops, ds, ss, PullOp(id, image), e, t);
    ops', ds', ss' := ops + [PullOp(id, image)], ds + [e], ss + [t];
  }

  lemma RemoveNext(node: string, ops: seq<Op>, ds: seq<Manager>, ss: seq<Services>, id: string)
      returns (ops': seq<Op>, ds': seq<Manager>, ss': seq<Services>)
    requires LedgerRun(node, ops, ds, ss) && FreshIds(ops, ds) && id in ds[|ops|].container
    ensures LedgerRun(node, ops', ds', ss') && FreshIds(ops', ds')
    ensures ops' == ops + [RemoveOp(ds[|ops|].container[id].image, Some(id))]
    ensures ds' == ds + [ds[|ops|].(container := ds[|ops|].container - {id})]
  {
    var op := RemoveOp(ds[|ops|].container[id].image, Some(id));
    var (e, bundle, port) := Removed(ds[|ops|], Some(id));
    var t := UnregisterService(ss[|ops|], node, bundle, port);
    ExtendLedger(node, ops, ds, ss, op, e, t);
    ops', ds', ss' := ops + [op], ds + [e], ss + [t];
  }

  // One container stays while n others come and go.
  lemma {:induction false} Churn(node: string, n: nat) returns (ops: seq<Op>, ds: seq<Manager>, ss: seq<Services>)
    ensures LedgerRun(node, ops, ds, ss) && FreshIds(ops, ds)
    ensures ds[|ops|].container == map["a" := VirtualContainer(1, "x")] && ds[|ops|].nextAppIdx == AppIdx(n + 1)
  {
    if n == 0 {
      ops, ds, ss := PullNext(node, [], [Fresh()], [map[]], "a", "x");
    } else {
      ops, ds, ss := Churn(node, n - 1);
      WrapSucc(1 + n);
      ops, ds, ss := PullNext(node, ops, ds, ss, "b", "y");
      ops, ds, ss := RemoveNext(node, ops, ds, ss, "b");
      assert ds[|ops|].container == map["a" := VirtualContainer(1, "x")];
    }
  }

  // The bound is sharp: one pull more, and there is a run with fresh IDs that
  // ends the agreement. The index of the first container is issued again, and
  // removing one of the two takes the entry of both.
  lemma OverflowBreaksLedger(node: string) returns (ops: seq<Op>, ds: seq<Manager>, ss: seq<Services>)
    ensures LedgerRun(node, ops, ds, ss) && FreshIds(ops, ds)
    ensures exists k :: 0 <= k <= |ops| && !Agrees(node, ds[k], ss[k])
  {
    ops, ds, ss := Churn(node, 0xFFFF_FFFF);
    ops, ds, ss := PullNext(node, ops, ds, ss, "b", "y");
    var n := |ops|;
    assert ds[n].container["a"].appIdx == 1 == ds[n].container["b"].appIdx;
    assert HasTwin(ds[n], "a");
    ops, ds, ss := RemoveNext(node, ops, ds, ss, "a");
    assert Harmful(ops[n], ds[n]);
    LedgerIsExact(node, ops, ds, ss);
  }
}
