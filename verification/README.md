# CARISMA control plane and orchestrator: a Dafny model

CARISMA's control plane turns a service registry into one set of Envoy routing tables per node, while
registration and announcement streams keep changing it. Its orchestrator brings the containers of a node
to a desired deployment and reports what is running. This project models that logic and proves what it
promises over all inputs, all map iteration orders and all interleavings.

| file | models |
|---|---|
| `Text.dfy` | decimal printing and parsing, splitting, prefixes (Go's `strconv` and `strings`) |
| `Positions.dfy` | filtered sequences by position |
| `NodeRegistry.dfy` | node IDs, `Register`, `ValidateNodeID` |
| `ServiceRegistry.dfy` | the services map: register, unregister, announcement streams |
| `Compiler.dfy` | clusters, routes, listeners and snapshots as functions of a traversal order |
| `Routing.dfy`, `Delivery.dfy` | what the compiled tables of one proxy, and of the whole mesh, do to a request |
| `XdsServer.dfy` | the xDS server object: the compiler's loops, snapshot generation, consumer bodies |
| `Pipeline.dfy` | writers, channels and consumers as interleaved steps |
| `Aliasing.dfy` | the registry and server objects carrying out those steps on one shared map |
| `Images.dfy`, `Diffing.dfy`, `Reconciler.dfy` | image names, the two diffs, `process`, the actual-state report |
| `Broker.dfy` | the lossy fan-out broker as interleaved steps |
| `Deployment.dfy`, `Merge.dfy` | deployment configs, the global actual-state merge |
| `DebugManager.dfy` | the emulated container manager and its ledger in the registry |

`dafny verify dfyconfig.toml` checks the project.

## How the model is set up

- **Map iteration.** Go ranges over maps in any order. The compiler functions take the order as an argument,
  the methods of `XdsServer.Server` pick it arbitrarily, and every theorem is for all orders. The orders considered
  are those of two nested ranges, which keep a node's bundles together (`Compiler.Traverses`); where a theorem
  says that some order fails, it is one of them.
- **Aliasing.** The services map is sent by reference. `ServiceRegistry.ServiceMap` is a heap cell shared by the
  registry and the server object; in `Pipeline` the flag `attached` says that the server reads the registry's map, and
  `Aliasing.Models` ties the flag to the cell. `Aliasing.CopiesRegress` shows what sharing the map is good for: were copies
  sent, a run could end with nothing pending and a server that works on an old map.
- **Interleaving.** A step of `Pipeline` is what happens under one lock or at one channel rendezvous. A writer
  may have any number of sends pending, and they are received in any order.
- **Envoy.** A listener uses the route table it is bound to, the first route whose prefix matches decides, any
  endpoint of the named cluster may be picked. All requests are taken to be gRPC requests.
- **Errors** are `None` or a `false` result. Randomness (container IDs) is a parameter. `ParseFQIN` is an
  arbitrary partial function.
- **Machine integers.** Ports are 32-bit; the conversions between `int`, `int32` and `uint32` and the wrapping counters of
  the emulated container manager are written out. Indexes and the snapshot version are unbounded.

## What the proofs found in the code

- `makeEndpoints` rejects every index: its test reads `idx >= len || idx < len` (cds.go:34). The model carries the
  test as a parameter, `AsWritten` or `Intended` (`idx >= len || idx < 0`). `XdsServer.AsWrittenOutcome` and
  `Pipeline.AsWrittenKillsConsumer` say exactly what the code as written does, `Pipeline.AsWrittenRun` is a run; the delivery results are about
  the intended test.
- `x.nodes` keeps the order of the registry exactly if no `Register` call starts while another one is still sending
  (`Pipeline.RegisterIsExact`); otherwise the list may end up permuted (`Pipeline.OverlapSwapsNodes`).
- It is not enough that a node's append to `x.nodes` precedes its first announcement. With overlapping `Register`
  calls the second registrant may be appended first and then announce an index that `x.nodes` does not have yet
  (`Pipeline.OverlapKillsConsumer`). Announcing is safe exactly if the index is below the number of appended nodes at
  that moment, or zero (`Pipeline.AnnouncementIsExact`); the exact condition for a single generation is
  `XdsServer.GenerationIsExact`.
- Node IDs are parsed loosely: any text in front of the last dash names the same index
  (`NodeRegistry.NodeIdAliases`). The registries accept such an ID, but the compiler compares IDs as text and takes the
  bundle for a remote one, also on the node itself. The ingress of that node serves only what is offered under the
  node's own ID, so some mesh loses the request exactly if nothing there matches the path (`Delivery.LossIsExact`), and
  every mesh does if that is so of all candidates (`Delivery.AliasBreaksDelivery`).
- A request can end at a port of the wrong bundle exactly when a candidate of the egress it enters leads to one: a
  matching pair, remote if there is a remote one (`Delivery.DeliveryIsExact`).
- One pass of `process` fails to converge exactly when the desired list supersedes one of its own images that
  is the version running last (`Reconciler.Orchestrator.ConvergingPass`), and it stays quiet afterwards exactly when the
  desired images have one version per name and the Envoy images among them are the versions listed last
  (`Reconciler.Orchestrator.ProcessTwice`); Envoy images are never removed, so another version may still be running.
- The latches of the actual-state merge protect an entry, an operator's edit included, unless the file is written after
  a failed read, or the last known report of the host is already the releasing one and the file is written before the
  host reports again (`Merge.LatchIsExact`).
- A state file whose text decodes to a nil map (`null`, no object, no JSON) is not replaced by an empty map: the merge
  panics at the first report it applies (`Merge.GlobalMerge.OnMessage`, app.go:242-261).
- The emulated container manager's ledger survives any overflow of its 32-bit counters as long as no removal takes a
  container whose index another live container shares, and no pull hits a container ID in use
  (`DebugManager.LedgerIsExact`). Fresh IDs and up to 2^32 pulls rule that out (`DebugManager.LedgerAgreement`); one
  pull more does not (`DebugManager.OverflowBreaksLedger`).

## Model

| member | source | states |
|---|---|---|
| `Text.DecimalNotation` | cmd/carisma-control-plane/app/xds/resource.go:34-36 | what is printed for a number: its digit up to nine, one digit more for every power of ten, a minus sign in front |
| `NodeRegistry.NodeIdRoundTrip` | pkg/registry/node_regisry.go:43-47 | parsing the printed ID of any index in the int64 range gives back the index |
| `NodeRegistry.NodeIdInjective` | cmd/carisma-control-plane/app/xds/resource.go:34-36 | different indexes have different node IDs |
| `NodeRegistry.NodeIdxNeverNegative` | pkg/registry/node_regisry.go:43-47 | no string at all parses to a negative index |
| `NodeRegistry.NodeIdAliases` | pkg/registry/node_regisry.go:43-47 | whatever stands in front of the last dash, an ID that ends in a printed index names that index; only one such ID is ever issued |
| `NodeRegistry.ResolvesExactly` | pkg/registry/node_regisry.go:43-47 | exactly these texts name index n: anything up to a dash or nothing, an optional plus sign, leading zeros, and n in decimal, n in the int64 range |
| `NodeRegistry.IssuedIdsStayValid` | pkg/registry/node_regisry.go:166-180 | the ID of index i is accepted, as i, exactly while more than i nodes are registered, so from issue on for ever |
| `NodeRegistry.NodeRegistryServer.Register` | pkg/registry/node_regisry.go:62-89 | appends the address, sends it, and answers an ID that validates to its index |
| `NodeRegistry.NodeRegistryServer.ValidateNodeID` | pkg/registry/node_regisry.go:166-180 | accepts every issued ID with its own index and answers no index out of range |
| `ServiceRegistry.CompactOfSorted` | pkg/registry/service_regisry.go:90-92 | sorting and compacting leaves a strictly increasing list |
| `ServiceRegistry.IncreasingUnique` | pkg/registry/service_regisry.go:90-92 | a port list is determined by its set of ports |
| `ServiceRegistry.RegisterOne` | pkg/registry/service_regisry.go:81-97 | registering lists exactly one more triple, creates the node entry, and keeps every list sorted, duplicate-free and non-empty |
| `ServiceRegistry.UnregisterOne` | pkg/registry/service_regisry.go:99-114 | unregistering unlists exactly one triple, never creates or removes a node entry, and leaves no bundle with an empty list |
| `ServiceRegistry.LastWriteWins` | pkg/registry/service_regisry.go:52-114 | after any announcement sequence a port is listed iff some announcement registered it and no later one names its triple; lists are canonical; a node is present iff it ever registered |
| `ServiceRegistry.Confluence` | pkg/registry/service_regisry.go:52-114 | all interleavings of the same per-node streams yield the identical services map |
| `ServiceRegistry.ServiceRegistryServer.Register` | pkg/registry/service_regisry.go:81-97 | the in-place update lists exactly the new triple and sends the map by reference |
| `ServiceRegistry.ServiceRegistryServer.Unregister` | pkg/registry/service_regisry.go:99-114 | the in-place update unlists exactly the triple, also for nodes never seen, and sends the map by reference |
| `ServiceRegistry.ServiceRegistryServer.ProcessStream` | pkg/registry/service_regisry.go:51-78 | a stream's announcements take effect in order, one send each |
| `Compiler.ClusterNameCollision` | cmd/carisma-control-plane/app/xds/cds.go:21-27 | two cluster names are equal iff they are for the same bundle and side, or one bundle is `local_` plus the other |
| `Compiler.ExtendTraversal` | cmd/carisma-control-plane/app/xds/cds.go:80-81 | a beginning of the two nested ranges, bundles kept together by node, can be carried on to a whole iteration order |
| `Compiler.TraversalFrom` | cmd/carisma-control-plane/app/xds/cds.go:80-81 | any pair may be the first one the nested ranges visit |
| `Compiler.ClusterPassCovers` | cmd/carisma-control-plane/app/xds/cds.go:76-119 | whatever the order, names are pairwise distinct, every cluster comes from a pair and every pair has its cluster |
| `Compiler.ClustersInOrder` | cmd/carisma-control-plane/app/xds/cds.go:76-119 | the clusters stand in the order in which their names were first visited, each made of the pair that was visited first |
| `Compiler.PassFailsIff` | cmd/carisma-control-plane/app/xds/cds.go:76-119 | a pass fails iff the first pair visited of some name does not resolve |
| `Compiler.CompilesUnderEveryOrder` | cmd/carisma-control-plane/app/xds/cds.go:29-36 | a compilation succeeds under every order of the nested ranges iff every offering node resolves to an address |
| `Compiler.AsWrittenRejectsEverything` | cmd/carisma-control-plane/app/xds/cds.go:34-36 | with the index test as written a pass succeeds only over no pair at all |
| `Compiler.RoutePassHolds` | cmd/carisma-control-plane/app/xds/resource.go:84-131 | the tables hold exactly one route per pair, remote and local apart |
| `Compiler.RoutesInOrder` | cmd/carisma-control-plane/app/xds/resource.go:84-131 | both tables hold the routes of their pairs, prefixed with "/", in the order of the visits |
| `Compiler.ReferentialClosure` | cmd/carisma-control-plane/app/xds/resource.go:84-150 | clusters used by the egress table are exactly those defined, ingress uses only local ones, every ingress route is an egress route |
| `Compiler.ClusterNamesComplete` | cmd/carisma-control-plane/app/xds/cds.go:76-119 | cluster names are pairwise distinct and are exactly the names of the registered pairs |
| `Compiler.LocalClusterIs` | cmd/carisma-control-plane/app/xds/cds.go:82-114 | under injective naming a local cluster has one endpoint per local port, in order, at the node's host |
| `Compiler.RemoteClusterIs` | cmd/carisma-control-plane/app/xds/cds.go:82-114 | a remote cluster has one endpoint, the ingress of some remote node that offers the bundle |
| `Routing.EgressDecision` | cmd/carisma-control-plane/app/xds/resource.go:84-150 | in every order a matching remote bundle wins over local ones, a local one otherwise, and nothing matches when no bundle does |
| `Routing.RoutingIsExact` | cmd/carisma-control-plane/app/xds/resource.go:84-150 | a path goes to bundle b under every order of the nested ranges iff b is the only candidate of the class that decides |
| `Routing.Misroutes` | cmd/carisma-control-plane/app/xds/resource.go:92-97 | a second matching bundle visited first takes the path |
| `Delivery.DeliveryIsExact` | cmd/carisma-control-plane/app/xds/resource.go:84-217 | in every mesh the iteration orders lead to, a request reaches an instance of the chosen bundles within two proxies, iff there is a candidate pair and every candidate is good: the node it resolves to offers something for the path under its own ID, and all of that serves |
| `Delivery.LossIsExact` | cmd/carisma-control-plane/app/xds/resource.go:89-107 | some mesh loses a request to all matching bundles, iff nothing matches or some candidate's node offers nothing for the path under its own ID; only an alias can be such a candidate |
| `Delivery.AliasBreaksDelivery` | cmd/carisma-control-plane/app/xds/resource.go:89-107 | if that is so of all candidates, every mesh loses the request |
| `Delivery.CanonicalDelivery` | cmd/carisma-control-plane/app/xds/resource.go:84-217 | with canonical node IDs the condition is that there is a candidate and every candidate's ports are ports of the chosen bundles |
| `Delivery.EndToEndDelivery` | cmd/carisma-control-plane/app/xds/resource.go:84-217 | with canonical node IDs, from any node's egress every possible forwarding ends at an instance of a matching bundle within two proxies, iff the path is "/", an offered bundle and any rest |
| `Delivery.BundleDelivery` | cmd/carisma-control-plane/app/xds/resource.go:84-217 | with canonical node IDs and prefix-free bundle IDs every path of "/", an offered bundle b and any rest reaches an instance of b |
| `Routing.ListenersBind` | cmd/carisma-control-plane/app/xds/resource.go:153-217 | a proxy listens on its two ports only; the ingress port is bound to the local table, and a different egress port to the full one |
| `XdsServer.Server.MakeEndpoints` | cmd/carisma-control-plane/app/xds/cds.go:29-74 | the loop yields one endpoint per port at the node's host, or an error |
| `XdsServer.Server.MakeClusters` | cmd/carisma-control-plane/app/xds/cds.go:76-120 | the nested loops with `seen` compute the cluster pass of an order of the nested ranges, and fail only where the pass over such an order fails |
| `XdsServer.Server.MakeRoutes` | cmd/carisma-control-plane/app/xds/resource.go:84-151 | the nested loops compute both route tables of one traversal of the services |
| `XdsServer.Server.GenerateSnapshots` | cmd/carisma-control-plane/app/xds/resource.go:219-257 | bumps the version and caches a compilation for every node, or for those before the first failing one; every entry it changes carries the new version in decimal and ".0" |
| `XdsServer.Server.ConsumeNode` | cmd/carisma-control-plane/app/xds/server.go:52-68 | appends the node and regenerates from the new list |
| `XdsServer.Server.ConsumeServices` | cmd/carisma-control-plane/app/xds/server.go:71-87 | takes over the sender's map by reference and regenerates |
| `XdsServer.GenerationIsExact` | cmd/carisma-control-plane/app/xds/resource.go:219-256 | no order of the nested ranges makes a generation fail iff there is no node or every offering node resolves |
| `XdsServer.CanonicalResolves` | cmd/carisma-control-plane/app/xds/cds.go:29-38 | under the intended test a canonical ID resolves, to its own node's host, iff its index is below the node count |
| `XdsServer.AsWrittenOutcome` | cmd/carisma-control-plane/app/xds/cds.go:34-36 | with the test as written a generation succeeds iff there is no node or no bundle |
| `Pipeline.NodeConservation` | pkg/registry/node_regisry.go:62-78 | in every run each registered node is in exactly one place, once: appended, received, or being sent |
| `Pipeline.RegisterIsExact` | pkg/registry/node_regisry.go:62-78 | while the node consumer serves, a Register call keeps the server's list a prefix of the registry's, whatever follows, iff no other call is sending when it starts |
| `Pipeline.SerialPrefix` | cmd/carisma-control-plane/app/xds/server.go:52-68 | if no Register call starts while another is sending, it is a prefix in every reachable state |
| `Pipeline.LaterFirst` | pkg/registry/node_regisry.go:76-78 | of two nodes being sent the later one can be delivered first, after which the list is no prefix |
| `Pipeline.OverlapSwapsNodes` | pkg/registry/node_regisry.go:66-78 | a run of two overlapping registrations after which the two indexes are swapped |
| `Pipeline.QuiescentCoherence` | cmd/carisma-control-plane/app/xds/server.go:52-87 | over every interleaving, when nothing is pending every cached snapshot is a compilation of the current registry, which is what all announcements amount to, and of all registered nodes, which are those of the Register calls |
| `Pipeline.VersionCountsGenerations` | cmd/carisma-control-plane/app/xds/resource.go:220-237 | the version counts generations, and after a successful one every node's snapshot carries that count from zero, in decimal with ".0" behind it |
| `Pipeline.VersionsDiffer` | cmd/carisma-control-plane/app/xds/resource.go:235-236 | two generations that both refresh a node leave different version texts in its cache entry |
| `Pipeline.SuccessRefreshesAll` | cmd/carisma-control-plane/app/xds/resource.go:219-256 | a successful generation refreshes the entry of every node |
| `Pipeline.KeysAreValid` | pkg/registry/service_regisry.go:46-49 | the registry only has entries under IDs that resolve to registered nodes |
| `Pipeline.GenerationNeverFails` | cmd/carisma-control-plane/app/xds/server.go:60-84 | in runs that announce registrations only under known IDs no generation fails and no consumer dies |
| `Pipeline.AnnouncementIsExact` | pkg/registry/service_regisry.go:46-78 | announcing a registration leaves both consumers alive, whatever disciplined traffic follows, iff its ID is known to the server at that moment |
| `Pipeline.OverlapKillsConsumer` | cmd/carisma-control-plane/app/xds/server.go:82-84 | a run in which an appended node announces under its issued ID and the consumer dies |
| `Pipeline.AsWrittenKillsConsumer` | cmd/carisma-control-plane/app/xds/cds.go:34-36 | with the test as written a consumer dies in the first generation with a node and a bundle |
| `Pipeline.AsWrittenRun` | cmd/carisma-control-plane/app/xds/cds.go:34-36 | a run, calls one after the other, in which the first bundle announced kills the service consumer |
| `Pipeline.RestingMeshDelivers` | cmd/carisma-control-plane/app/xds/server.go:52-87 | when a disciplined run is at rest, the server's nodes are the registry's in its order, and a request from any of them reaches an instance of the given bundles within two proxies, provided all its candidates in the registry are good |
| `Pipeline.RestingBundleDelivers` | cmd/carisma-control-plane/app/xds/server.go:52-87 | so with canonical node IDs and prefix-free bundle IDs a request for "/", any offered bundle and any rest, from any registered node, reaches an instance of that bundle |
| `Pipeline.RunsComeToRest` | cmd/carisma-control-plane/app/xds/server.go:52-87 | without new calls a disciplined run takes no more steps than its backlog, and it can stop exactly where nothing is pending |
| `Pipeline.DrainRun` | cmd/carisma-control-plane/app/xds/server.go:52-87 | every disciplined run can be carried on to rest without another call |
| `Pipeline.OfferingRun` | cmd/carisma-control-plane/app/xds/server.go:52-87 | a run to rest, with a bundle offered, that meets the hypotheses of the delivery results |
| `Aliasing.Boot` | cmd/carisma-control-plane/app/xds/server.go:35-47 | new objects are in the initial state of the pipeline |
| `Aliasing.Announces` | pkg/registry/service_regisry.go:81-114 | the registry object carries out the announcement step, and an attached server reads the new entry without a delivery |
| `Aliasing.Consumes` | cmd/carisma-control-plane/app/xds/server.go:71-87 | consuming any message sent so far carries out the regeneration step on what the registry holds now |
| `Aliasing.ConsumesNode` | cmd/carisma-control-plane/app/xds/server.go:52-68 | consuming a node carries out the append step |
| `Aliasing.OneDelivery` | pkg/registry/service_regisry.go:96-113 | after two announcements and one delivery between them the server reads both |
| `Images.ParseOfPrint` | pkg/container/image.go:15-23 | parsing a printed image gives back the image |
| `Images.PrintOfParse` | pkg/container/image.go:15-23 | printing a parsed name gives the name back, with ":latest" added if it had no tag |
| `Images.ExtractImageList` | pkg/container/image.go:26-33 | the loop parses every container's image, in order |
| `Diffing.ComputeDiff` | cmd/carisma-orchestrator/app/orchestrator.go:22-36 | the map-based loop answers, in the order of b, those images whose name no image of a has, or whose name has another version at its greatest index in a |
| `Diffing.WithoutEnvoyInOrder` | cmd/carisma-orchestrator/app/orchestrator.go:89-94 | the removal loop skips exactly the images whose names end in Envoy's, whatever stands in front |
| `Diffing.DiffCounts` | cmd/carisma-orchestrator/app/orchestrator.go:22-36 | an image is missing with all its occurrences or with none, by the last version of its name |
| `Diffing.ConvergenceIsExact` | cmd/carisma-orchestrator/app/orchestrator.go:89-147 | the two diffs leave the desired images and the Envoy images found, iff the desired list does not supersede an image that runs last |
| `Diffing.OnePassConverges` | cmd/carisma-orchestrator/app/orchestrator.go:89-147 | one version per desired name suffices, whatever duplicates and versions were running |
| `Diffing.StabilityIsExact` | cmd/carisma-orchestrator/app/orchestrator.go:89-147 | the next pass with the same config is quiet iff there is one version per desired name and every desired Envoy image is the version of its name listed last |
| `Diffing.StableInEveryOrder` | cmd/carisma-orchestrator/app/orchestrator.go:89-147 | it is quiet in whatever order the containers are listed, iff there is one version per desired name and no other version of a desired Envoy image was running before |
| `Reconciler.CompactManaged` | cmd/carisma-orchestrator/app/orchestrator.go:62-70 | the in-place filter keeps, in order, exactly the containers whose status is "Up" and any rest and whose name does not begin with "/carisma-keep-" |
| `Reconciler.Orchestrator.ParseDesired` | cmd/carisma-orchestrator/app/orchestrator.go:74-87 | every name is parsed and normalized by index, its version kept; it fails iff some name has no normal form |
| `Reconciler.Orchestrator.RemoveAll` | cmd/carisma-orchestrator/app/orchestrator.go:89-125 | removes one container per listed image, never Envoy's, and announces what the manager answered |
| `Reconciler.Orchestrator.PullAll` | cmd/carisma-orchestrator/app/orchestrator.go:127-147 | installs one container per missing image and announces what the manager answered |
| `Reconciler.Orchestrator.Process` | cmd/carisma-orchestrator/app/orchestrator.go:54-151 | the images running afterwards are those before, less the removals, plus the additions; containers out of its care are untouched; the calls are one removal and then one pull per image, in order, each announced with its own answer |
| `Reconciler.Orchestrator.ConvergingPass` | cmd/carisma-orchestrator/app/orchestrator.go:54-151 | after a pass the running images are the desired ones and the Envoy images found, iff no desired image is superseded in the desired list while it is listed last; no image whose name ends in Envoy's loses a container |
| `Reconciler.Orchestrator.ProcessTwice` | cmd/carisma-orchestrator/app/orchestrator.go:54-151 | the second of two passes makes no manager call, and no announcement, iff the desired images have one version per name and the Envoy images among them are listed last |
| `Reconciler.Orchestrator.EchoPass` | cmd/carisma-orchestrator/app/app.go:291-313 | a tick's report fed back as the desired config makes no manager call, and no announcement, iff one version per name is running |
| `Reconciler.Orchestrator.ReportActual` | cmd/carisma-orchestrator/app/app.go:284-313 | reports, in order, the image of every container whose status begins with "Up" and whose name does not begin with "/carisma-keep-", with ":latest" added where it has no tag |
| `Broker.OffersAreOwed` | pkg/channel/broker.go:23-41 | a listener is offered exactly the messages taken since the step that added its channel, less one still to be offered |
| `Broker.NeverAdded` | pkg/channel/broker.go:23-41 | a channel that was never added is offered nothing |
| `Broker.DispatchedTo` | pkg/channel/broker.go:27-31 | every dispatch after its addition goes to a listener |
| `Broker.Isolation` | pkg/channel/broker.go:23-51 | what a listener received and buffers are messages it is owed, at increasing positions, all of them iff it never falls more than five behind, which its own offers and reads decide; and at most five are buffered |
| `Broker.GotGrows` | pkg/channel/broker.go:29-35 | what a listener has got is never taken back |
| `Broker.SlotsAndEnd` | pkg/channel/broker.go:14-20 | writers and new listeners are at most one ahead of the loop, which ends only after a Stop, and for good |
| `Broker.FirstMessage` | pkg/channel/broker.go:23-56 | a run in which the first message after a registration arrives |
| `Broker.ViewDetermines` | pkg/channel/broker.go:29-35 | it depends only on the messages offered to that listener and its own reads |
| `Broker.RunsTrack` | pkg/channel/broker.go:23-51 | a channel is a function of the offers to it and its own reads, which follow the dispatches since its registration |
| `Broker.Dispatch` | pkg/channel/broker.go:29-35 | one dispatch appends the message to every listener's buffer that holds fewer than five and touches nothing else |
| `Merge.GlobalMerge.OnMessage` | cmd/carisma-orchestrator/app/app.go:219-271 | one message updates the known reports and rewrites the file from all of them; unreadable files start empty, unwritable ones stay, and a file read as a nil map makes it panic iff there is a report to apply |
| `Merge.OneEvent` | cmd/carisma-orchestrator/app/app.go:219-271 | an event of a run is a message to the object, with the same outcome |
| `Merge.NonInterference` | cmd/carisma-orchestrator/app/app.go:227-262 | while reads and writes succeed the file's entry of a host is a fold of that host's own reports over its initial entry |
| `Merge.RunIsExact` | cmd/carisma-orchestrator/app/app.go:227-262 | while reads and writes succeed a host without running or stopped reports keeps its entry; otherwise it has the images of its last report, and that report's state unless the entry said stopping and no stopped report has come, or starting and no running one has |
| `Merge.HostsStay` | cmd/carisma-orchestrator/app/app.go:242-271 | a host stays in the file throughout iff no write follows a failed read before it has reported; so it stays while reads succeed, whatever the writes do |
| `Merge.LatchIsExact` | cmd/carisma-orchestrator/app/app.go:242-271 | from any state, edits and failures included, a latched entry survives traffic without a releasing report, iff no write follows a failed read and it is not so that the known report is the releasing one and the file is written before the host reports again |
| `Merge.LatchedInRuns` | cmd/carisma-orchestrator/app/app.go:242-271 | an entry that is latched after a run without outside edits or failures survives traffic without a releasing report of its own host, iff no write follows a failed read |
| `DebugManager.DebugContainerManager.PullImageAndCreateContainer` | pkg/container/debug_container_manager.go:151-177 | stores the container under the next index and answers the next bundle and port |
| `DebugManager.DebugContainerManager.RemoveImageAndContainer` | pkg/container/debug_container_manager.go:179-199 | drops some container of the image and recomputes its bundle and port, or answers ("", -1) without an error |
| `DebugManager.BundleIDInjective` | pkg/container/debug_container_manager.go:170-187 | different indexes have different bundle IDs, negative ones included |
| `DebugManager.PullAnswers` | pkg/container/debug_container_manager.go:151-177 | the n-th pull of a run, from zero, answers the bundle ID with number n + 1 and port 8080 + n, up to 32-bit overflow, and that is what gets registered |
| `DebugManager.RemovalIsSafe` | pkg/container/debug_container_manager.go:179-199 | removing an image keeps the agreement whatever container the map iteration picks, iff no live container of that image shares its index with another live one |
| `DebugManager.LedgerIsExact` | pkg/container/debug_container_manager.go:151-199 | throughout any run of announced pulls and removals the node's registry entries are exactly the bundle and port pairs of its live containers, iff no removal takes a container with a live twin of its index and no pull replaces one that alone has its index |
| `DebugManager.LedgerAgreement` | pkg/container/debug_container_manager.go:151-177 | so with fresh container IDs and up to 2^32 pulls, past the overflow of the counters |
| `DebugManager.OverflowBreaksLedger` | pkg/container/debug_container_manager.go:167-199 | with one pull more there is a run with fresh IDs that ends the agreement |

## Left out

- gRPC streams, JSON, file watching, UDP discovery, the Docker client, the status manager, logging and configuration: I/O and libraries.
- go-control-plane's cache and Envoy resources beyond cluster names, endpoints, route prefixes, table order and listener ports: the cache is a map; its panic on a failing `SetSnapshot` is not modelled.
- The endless loops of server.go, broker.go and app.go:331-352 as loops: their bodies are methods or steps, and runs are sequences of steps; the broker's channels are values.
- The body of `ParseFQIN`: an arbitrary partial function, with a fixed-point hypothesis where the echo result needs it.
- The STARTING and STOPPED broadcasts of node `OpenChannel`: their error tests are inverted (node_regisry.go:134 and 145), so they are never sent; the starting branch of the merge (app.go:230-233) is left out with them.
- JSON text of the wrong type inside an object: the state file is taken to hold what Go decodes of it.
- Driving `process` with the emulated container manager: its status `running` never passes the `Up` filter, so `process` is proved against an abstract engine.
- Failed removals: the retry is in the model, but the pass results are for engines that answer without errors.
- Delivery.DeliveryIsExact: assumes the intended index test, node IDs that resolve, distinct hosts, no node that offers a bundle while another ID offers the bundle named `local_` plus its name, and service ports that are non-negative and not a proxy's own listener port.
- Reconciler.Orchestrator.Process: the image results assume that no running container outside the orchestrator's care shares an image with a managed one, because the engine may then remove that one.
- Pipeline.RestingMeshDelivers: assumes non-overlapping registrations and announcements under known IDs, which `RegisterIsExact` and `AnnouncementIsExact` show to be the exact conditions of their kind.
- Merge.LatchedInRuns: assumes no failure before the entry is latched; from any state it is `Merge.LatchIsExact`.
- Merge.NonInterference: assumes that all reads and writes succeed, because a report that a failed write has lost is written by the next message, whoever sends it.
