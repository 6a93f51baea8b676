# A model of the clustered faasd provider

This fork of faasd turns a single function host into a peer-to-peer cluster.
Each node keeps a catalog of replicas (its own and, by gossip, everyone
else's), schedules requests over the nodes by learned execution time, scales a
function outwards from the nearest node, and can deploy a function again from
what it reads back from a container. The project models that logic in Dafny and
proves what it keeps. `dafny verify dfyconfig.toml` checks everything.

| file | what it holds |
|---|---|
| `CatalogModel.dfy` | the catalog of one node as a value, every catalog operation as a function, the invariant they all keep |
| `CatalogEffects.dfy` | what each catalog operation does to every single entry, and what it leaves as it was |
| `CatalogStore.dfy` | the catalog as the object the provider updates in place, each method tied to its function |
| `Gossip.dfy`, `GossipTheorems.dfy`, `GossipOrder.dfy`, `GossipLimits.dfy` | the cluster as a state machine over publish, connect, subscribe, snapshot, deliver and lose events; what holds of all runs; the exact condition of agreement at rest; two runs that end with a wrong record |
| `Ranking.dfy`, `PingRanking.dfy` | ranking the nodes by round-trip time, and what the ranking says about the pings |
| `Scheduler.dfy`, `Placement.dfy` | the weights, the choice of a node, the node to explore next |
| `Trigger.dfy`, `ExecTime.dfy` | the request handler, when it crashes, the one-hop offload; the moving average under races |
| `Scale.dfy` | scaling up and down |
| `DepGraph.dfy`, `Deployment.dfy`, `Hosts.dfy` | the dependency resolver, the start-up order, the hosts file |
| `Codecs.dfy` | environment, labels and annotations, written and read back |
| `Sums.dfy`, `Strings.dfy` | sums over tables visited in any order, splitting strings |

Conventions. A Go loop over a map becomes a loop that picks any remaining key,
so every contract holds for every order. JSON is the identity. A panic is a
failure result, and a `requires` stands only where the callers guarantee it.
Ping results, container outcomes, assigned addresses and the load of the machine
are parameters. The weighted-random library is a choice of any item of positive
weight that fails exactly when the weights sum to zero, or to the largest int or
more, as its vendored source does on a 64-bit platform. Weights are exact reals
rounded down. When the fastest holder is recorded at 0 milliseconds the source
divides zero by zero; then every weight is the integer the platform converts
not-a-number to, a parameter of the model.

Where a promised property is false of the code, the code is kept and the exact
condition is proved:

- with gossip in order and not lost, and join snapshots in any order or lost, a
  record agrees with its owner at rest exactly when the last packet that arrived
  is gossip, or a snapshot that still holds, or nothing arrived and there is
  nothing to report (`GossipOrder.QuietIff`). A snapshot that arrives after a
  newer publish, or a room joined too late, breaks it (`GossipLimits`);
- for a request it places itself the handler crashes on a nil dereference exactly
  when no node holds a replica and all ranked nodes are overloaded, or the weights are
  refused and this node never had a time, or a peer just deployed to has neither
  a time nor reported yet (`Trigger.CrashIff`); an input is
  `Trigger.FallbackCrashes`. For an offloaded request it crashes exactly when its
  answer is measured and this node has no time for the function
  (`Trigger.HandleOffloaded`);
- the ranking is a permutation of the nodes exactly when no two round-trip times
  are equal (`Ranking.RankingIsPermutationIff`, `Ranking.TieLosesANode`);
- an environment survives being written and read exactly when it has no `=` in a
  key, a value or the process, and no variable called `PATH` or `fprocess`
  (`Environment.RoundTripIff`,
  `Environment.EqualsSignIsLost`); a variable `fprocess` is written without its name;
- when some node holds a replica, the scheduler returns one that does exactly when
  the library accepts the weights or this node holds one
  (`Placement.WeightExecTimeScheduler`); an example in which neither is so is
  `Placement.FallbackWithoutReplica`, and `Placement.ZeroTimeRefused` says when a
  holder recorded at 0 makes the library refuse. The request after a refusal goes
  to a holder again (`Placement.NextAfterRefusal`);
- the start-up order exists exactly when every dependency is a declared service
  and there is no cycle (`Deployment.BuildDeploymentOrder`); an undeclared
  dependency is a null edge, which panics;
- labels and annotations survive being built and split exactly when no label
  starts with the annotation prefix (`Labels.BuildThenSplitIff`,
  `Labels.PrefixedLabelMoves`);
- when no node holds a replica and all ranked nodes are overloaded, the placement
  returns the empty name without an error (`Placement.FindSuitableNode`).

An update of a name that is not catalogued, or of a count without an execution
time, would break the catalog invariant (`CatalogModel.UpdateKeepsInvIff`). No
caller does that: both call sites pass count 0 on a catalogued name, which
`Scale.ScaleDownEffect` covers.

Where the source's comments and its code differ, the code is followed. The
replica limit is 10 where its comment speaks of 5. Scaling down says it removes
replicas from the far end but looks at the nearest node only. A failed local
deployment inside a scale-up returns the earlier, empty error and so counts as
deployed.

## Model

| member | source | states |
|---|---|---|
| CatalogModel.AddKeepsInv | pkg/provider/catalog/catalog_cluster_level.go:53-67 | adding a function keeps the catalog invariant: every aggregate is the sum of the records, what runs anywhere is catalogued, every replica has an execution time, no time is negative, entries carry their own name, own functions can be packed |
| CatalogModel.UpdateKeepsInvIff | pkg/provider/catalog/catalog_cluster_level.go:69-78 | an update keeps the invariant if and only if the name is catalogued and a positive count has an execution time |
| CatalogModel.DeleteKeepsInv | pkg/provider/catalog/catalog_cluster_level.go:80-94 | deleting keeps the invariant, for names known or not |
| CatalogModel.DeleteDropsIff | pkg/provider/catalog/catalog_cluster_level.go:80-94 | deleting a catalogued function drops it if and only if no peer still runs it, and drops no other |
| CatalogModel.SetOverloadKeepsInv | pkg/provider/catalog/catalog_local_level.go:75-106 | a change of the overload flag keeps the invariant |
| CatalogModel.MeasureKeepsInv | pkg/provider/handlers/trigger.go:305-326 | storing the average of any earlier loaded time and a measurement keeps the invariant |
| CatalogModel.ResetKeepsInv | pkg/provider/handlers/trigger.go:182-187 | the scheduler's reset of the holders' times keeps the invariant |
| CatalogModel.NewPeerKeepsInv | pkg/provider/catalog/catalog.go:84-92 | an empty record for a new peer keeps the invariant |
| CatalogModel.UnpackKeepsInv | pkg/provider/catalog/info_room.go:117-146 | unpacking any message, repeated names and all, keeps the invariant |
| CatalogModel.MsgCountsMeaning | pkg/provider/catalog/info_room.go:122-142 | the replica table a message leaves holds every name it lists, with the count of the last entry for it |
| CatalogModel.PackThenUnpack | pkg/provider/catalog/info_room.go:104-146 | the receiver's record becomes the sender's replica table, zeros included, and overload flag; functions whose count rose become fresh, other times are kept, other records untouched |
| CatalogModel.StartupInv | cmd/provider.go:161-183 | start-up from the containers found establishes the invariant |
| CatalogModel.RunKeepsInv | pkg/provider/catalog/catalog_cluster_level.go:53-122 | after any sequence of adds, safe updates, deletes, overload changes, new peers, measurements, resets and messages of any content the invariant holds |
| CatalogEffects.AddEffect | pkg/provider/catalog/catalog_local_level.go:23-27 | the own count of the added function is the one given and its time is 1; every other own count and time, the flag and every peer record are kept; a known function keeps its fields apart from the aggregate, an unknown one is stored as given; one publish is asked for |
| CatalogEffects.UpdateEffect | pkg/provider/catalog/catalog_cluster_level.go:69-78 | the own count becomes the one given and no time changes; all else is kept apart from the aggregate; a publish is asked for exactly when the name is catalogued |
| CatalogEffects.DeleteEffect | pkg/provider/catalog/catalog_cluster_level.go:80-94 | the function is gone from the own record while its time is kept; what remains of its aggregate is what the peers hold, and it is dropped when that is nothing; all else is kept |
| CatalogEffects.SetOverloadEffect | pkg/provider/catalog/catalog_local_level.go:101-105 | the flag becomes the load in both directions, and a publish is asked for exactly when it flips |
| CatalogEffects.MeasureEffect | pkg/provider/handlers/trigger.go:312-324 | only that time at that node changes: over the mark 1 to the whole milliseconds of the run, else halfway to them |
| CatalogEffects.ResetEffect | pkg/provider/handlers/trigger.go:182-187 | every holder has time 1 for the function; every other time, all replica tables and all flags are as before |
| CatalogEffects.LearntIsFirst | pkg/provider/catalog/info_room.go:134-137 | an unknown function is stored as the first entry of the message that names it |
| CatalogEffects.UnpackFunctions | pkg/provider/catalog/info_room.go:124-145 | after a message known functions keep all fields apart from the aggregate, new ones are first entries, no others appear, and every aggregate is its sum |
| CatalogEffects.UnpackTimes | pkg/provider/catalog/info_room.go:124-133 | after any message a time is 1 exactly where an entry reports more than was on record or something that runs without a time; every other time is kept |
| CatalogEffects.UnpackRecord | pkg/provider/catalog/info_room.go:117-146 | the sender's record takes the counts of the last entries and the flag; no other record changes and nothing is published |
| CatalogEffects.NewPeerEffect | pkg/provider/catalog/catalog.go:72-92 | an unknown peer gets an empty record that is not overloaded; nothing else changes |
| CatalogEffects.StartupEffect | cmd/provider.go:161-183 | after start-up this node alone is on record, not overloaded; every function found is catalogued as found, has its count and time 1 |
| CatalogStore.TimesAfterOneMore | pkg/provider/catalog/info_room.go:124-133 | handling the entries of a message one by one gives 1 to what is new or has grown at any entry and keeps every other time |
| CatalogStore.Refresh | pkg/provider/catalog/info_room.go:125-133 | the two tests on one entry reset the time exactly when the reported count exceeds the recorded one or a running function has no time |
| CatalogStore.Store.constructor | pkg/provider/catalog/catalog.go:63-70 | an empty catalog that ranks nobody |
| CatalogStore.Store.InitSelfCatalog | cmd/provider.go:161-183 | start-up gives the start-up catalog and ranks this node alone; fails exactly when the ranking has room for no node |
| CatalogStore.Store.FillSelf | cmd/provider.go:171-180 | the loop over the functions found leaves the self record and the function table of start-up |
| CatalogStore.Store.CountReplicas | pkg/provider/catalog/catalog_cluster_level.go:114-119 | adding up the records in any order gives the sum |
| CatalogStore.Store.UpdateReplicasWithFunctionName | pkg/provider/catalog/catalog_cluster_level.go:109-122 | sets that one aggregate to the sum; fails exactly when the name is not catalogued |
| CatalogStore.Store.UpdateReplicas | pkg/provider/catalog/catalog_cluster_level.go:96-107 | sets every aggregate to its sum and nothing else |
| CatalogStore.Store.AddAvailableFunctions | pkg/provider/catalog/catalog_cluster_level.go:53-67 | performs the add on the object and asks for one publish |
| CatalogStore.Store.UpdateAvailableFunctions | pkg/provider/catalog/catalog_cluster_level.go:69-78 | performs the update on the object; on an unknown name fails after the record is written |
| CatalogStore.Store.DeleteAvailableFunctions | pkg/provider/catalog/catalog_cluster_level.go:80-94 | performs the delete on the object; fails exactly on an unknown name |
| CatalogStore.Store.ListenUpdateInfo | pkg/provider/catalog/catalog_local_level.go:37-46 | one round publishes exactly when the overload flag flips |
| CatalogStore.Store.RankNodeByRTT | pkg/provider/catalog/faas_client.go:82-115 | leaves a ranking by ping: peers in order of their pings, this node after peers of negative ping only and before those of positive ping, every node or one it ties with listed; this node first when all pings are positive; every node exactly once when pings are distinct and not 0; fails exactly without room |
| CatalogStore.Store.NewNodeCatalogEntry | pkg/provider/catalog/catalog.go:84-92 | adds an empty record for an unknown peer and leaves a ranking by ping of all nodes, failing exactly when there is no room; a known peer changes nothing |
| CatalogStore.Store.PackNodeInfoMsg | pkg/provider/catalog/info_room.go:104-116 | in any order of the functions the result is a packing of the self record, and no lookup fails |
| CatalogStore.Store.UnpackNodeInfoMsg | pkg/provider/catalog/info_room.go:117-146 | performs the unpacking of any message on the object |
| CatalogStore.Store.StreamAvailableFunctions | pkg/provider/catalog/catalog_cluster_level.go:124-147 | a snapshot on its own stream creates the entry and ranks by ping again if the peer is unknown, and is then unpacked; fails exactly when there is no room for the peer |
| CatalogStore.Store.RecordTime | pkg/provider/handlers/trigger.go:305-326 | in nanoseconds: over the mark 1 the time becomes the whole milliseconds of the run, else it moves halfway to them; nothing else changes; fails exactly without a recorded time |
| CatalogStore.Store.GetAvailableFunction | pkg/provider/catalog/catalog_cluster_level.go:14-27 | a catalogued function with this node's own count, 0 when it has none; nothing for an unknown name |
| CatalogStore.Store.ListAvailableFunctions | pkg/provider/catalog/catalog_cluster_level.go:39-50 | the cluster listing has every catalogued function once, with its deployment fields, the sum over all nodes and this node's own count |
| Gossip.LocalFrame | pkg/provider/catalog/catalog_cluster_level.go:53-94 | a local operation, measurements and resets included, leaves the recorded reports of the peers and leaves a publish pending whenever it changes the node's own |
| Gossip.ReachableInv | pkg/provider/catalog/info_room.go:67-146 | in every reachable state of the cluster, whatever is lost or reordered, each catalog keeps its invariant, records and rooms are between members, and each gossip message in flight has an entry at its destination |
| Gossip.AnyPacketCanArrive | pkg/provider/catalog/info_room.go:85-103 | in every reachable state any packet in flight can arrive next, or be lost |
| GossipTheorems.NoInventedState | pkg/provider/catalog/info_room.go:104-146 | for any delivery order and loss, each peer record and each message in flight is empty or a replica table and overload flag its owner held together at one moment so far |
| GossipTheorems.LatestIsLastSent | pkg/provider/catalog/info_room.go:67-103 | with each link one in-order queue the newest word on it is the last one sent |
| GossipTheorems.SentIsOwn | pkg/provider/catalog/discovery.go:146-179 | once the peer joined before the snapshot, a node with nothing to publish has sent exactly what it holds |
| GossipTheorems.QuietLastSent | pkg/provider/catalog/info_room.go:67-146 | with each link one in-order queue, at rest a record is right if and only if the last report sent still is |
| GossipTheorems.QuietAgreement | pkg/provider/catalog/info_room.go:67-146 | with each link one in-order queue and a join before the snapshot, at rest the record equals its owner's replica table and overload flag |
| GossipTheorems.ClusterAgreement | pkg/provider/catalog/catalog_cluster_level.go:96-107 | with in-order links, at rest a node that joined all others before their snapshots holds, for each function it knows, the number of replicas in the cluster, and knows whatever runs anywhere |
| GossipOrder.RecordIsLastDelivered | pkg/provider/catalog/info_room.go:85-146 | for any order and any loss a record is the report of the last packet that arrived, or empty |
| GossipOrder.NewestIsLastSent | pkg/provider/catalog/info_room.go:67-103 | with gossip in order and snapshots at will, the newest gossip in flight, else the last one that arrived, is the last one sent |
| GossipOrder.GossipSentIsOwn | pkg/provider/catalog/info_room.go:67-84 | once a node has gossiped to a peer, with nothing left to publish the last gossip sent is its own report |
| GossipOrder.QuietIff | pkg/provider/catalog/discovery.go:146-179 | with gossip in order and snapshots at will, at rest a record is right if and only if the last packet that arrived is gossip, or a snapshot that still holds, or nothing arrived and there is nothing to report |
| GossipOrder.SettledClusterAgreement | pkg/provider/catalog/catalog_cluster_level.go:96-107 | at rest a node for whose links that holds has, for each function it knows, the number of replicas in the cluster, and knows whatever runs anywhere |
| GossipLimits.OvertakenSnapshot | pkg/provider/catalog/catalog_cluster_level.go:124-147 | a run with all gossip in order and a join in time, in which a snapshot is overtaken by a publish, comes to rest with a wrong record |
| GossipLimits.MissedPublish | pkg/provider/catalog/discovery.go:90-116 | a run in which the room is joined after the snapshot comes to rest with a wrong record |
| Ranking.Collect | pkg/provider/catalog/faas_client.go:84-106 | the times collected are those of all nodes with multiplicity, and each time leads back to a node that has it |
| Ranking.Rank | pkg/provider/catalog/faas_client.go:82-115 | the times of the ranked nodes are all round-trip times in order, ties included, and tied nodes all give way to one of them |
| Ranking.RankingIsPermutationIff | pkg/provider/catalog/faas_client.go:82-115 | the ranking lists every node exactly once if and only if no two round-trip times are equal |
| Ranking.TieLosesANode | pkg/provider/catalog/faas_client.go:104-114 | of two peers at the same distance one is left out whatever the order of the loop |
| Ranking.NearestFirst | pkg/provider/catalog/faas_client.go:87-103 | when every peer has a positive round-trip time this node is ranked first |
| PingRanking.RankingByPing | pkg/provider/catalog/faas_client.go:82-115 | any ranking of the distances orders the nodes by ping, with this node at 0, as the ranking method promises |
| Scheduler.WeightAtLeastTen | pkg/provider/handlers/trigger.go:150-176 | every holder of a replica gets weight at least ten |
| Scheduler.FasterWeighsMore | pkg/provider/handlers/trigger.go:150-176 | a node that is no slower, and not overloaded unless the other is, never gets a smaller weight |
| Scheduler.OverloadSquares | pkg/provider/handlers/trigger.go:152-161 | a node that is not overloaded counts as slow as the fourth power of its relative time, an overloaded one as slow as the square of that |
| Scheduler.CollectTimes | pkg/provider/handlers/trigger.go:131-147 | in any order: returns a fresh holder if there is one, else all holders' times and their minimum |
| Scheduler.ComputeSlowness | pkg/provider/handlers/trigger.go:150-164 | in any order: each holder's relative time to the fourth or eighth power, and the product of all |
| Scheduler.RaiseTo | pkg/provider/handlers/trigger.go:158-161 | the loop of multiplications is the power with the factor as exponent |
| Scheduler.ComputeWeights | pkg/provider/handlers/trigger.go:171-176 | in any order: the weight of each holder, and their total |
| Scheduler.ComputeEqualWeights | pkg/provider/handlers/trigger.go:150-176 | when the fastest time is 0, in any order: the same weight for every holder, and their total |
| Placement.Offer | pkg/provider/handlers/trigger.go:150-176 | the weights offered to the library, whatever the fastest time |
| Placement.Pick | vendor/github.com/mroth/weightedrand/v2/weightedrand.go:41-99 | an item of positive weight, or a refusal exactly when the sum is zero, or the largest int or more |
| Placement.Choose | pkg/provider/handlers/trigger.go:171-192 | chooses a holder, and fails exactly when the weights sum to zero, or to the largest int or more |
| Placement.Decide | pkg/provider/handlers/trigger.go:129-192 | no answer exactly without a holder, a fresh holder before all others, else some holder unless the library refuses the weights |
| Placement.Reset | pkg/provider/handlers/trigger.go:182-187 | in any order: exactly the times of the holders become 1, and all else is kept |
| Placement.WeightExecTimeScheduler | pkg/provider/handlers/trigger.go:129-193 | no answer exactly without a holder, a fresh holder before all others; on a refusal this node is returned, every holder then has time 1 and all else is as before, so that every holder is fresh and the next request is not refused; the node returned holds a replica if and only if there was no refusal or this node holds one |
| Placement.AfterReset | pkg/provider/handlers/trigger.go:182-189 | with the holders' times at 1 the holders are the same, all are fresh, and the weights are not refused |
| Placement.NextAfterRefusal | pkg/provider/handlers/trigger.go:177-199 | the request after a refusal is placed on a holder that is fresh |
| Placement.RefusedIsTooLarge | vendor/github.com/mroth/weightedrand/v2/weightedrand.go:41-71 | with a positive fastest time the library refuses if and only if the weights sum to at least two to the 63, less one |
| Placement.ZeroTimeRefused | pkg/provider/handlers/trigger.go:150-190 | with a holder at 0 the library refuses if and only if not-a-number converts to zero or to a number too large for the holders together |
| Placement.RisenIsFresh | pkg/provider/catalog/info_room.go:117-146 | after a message that reports more replicas than are on record that peer is fresh and the weights are not refused, so that the scheduler picks a node not yet timed |
| Placement.AddedIsFresh | pkg/provider/catalog/catalog_local_level.go:23-27 | a function added with a replica makes this node fresh and the weights are not refused, so that the scheduler picks a fresh holder |
| Placement.FindSuitableNode | pkg/provider/handlers/trigger.go:195-211 | a holder, a fresh one if there is any, whenever there is one and the weights are not refused; this node on a refusal; without a holder the nearest node that is not overloaded, or else the empty name; a deployment is asked for exactly without a holder and with a node that is not overloaded |
| Placement.ExplorePotentialNode | pkg/provider/handlers/trigger.go:105-126 | the nearest empty node with a smaller recorded time, else the nearest untried one, else nothing; a missing time of the target is exactly when it dereferences nothing |
| Placement.ExploreIsWorthwhile | pkg/provider/handlers/trigger.go:105-126 | the node suggested holds no replica; it is the nearest faster one, or the nearest untried one while no empty ranked node is faster; with no suggestion every empty ranked node is on record as no faster |
| Placement.FallbackWithoutReplica | pkg/provider/handlers/trigger.go:177-190 | an example in which the weights sum to too much and the node returned holds no replica |
| Trigger.TimesAfterArrivals | pkg/provider/catalog/info_room.go:124-133 | messages give a node a time exactly by reporting that it runs the function, and take none away |
| Trigger.OffloadIff | pkg/provider/handlers/trigger.go:99-104 | a request is offloaded exactly when the first value it gives for offload is 1 |
| Trigger.PreparedEffect | pkg/provider/handlers/trigger.go:47-64 | until the request goes out the catalog changes in two cases only: a refusal resets the holders' times, and a deployment here is added |
| Trigger.AnsweredEffect | pkg/provider/handlers/trigger.go:305-326 | the measurement moves the target's time if it has one by then; apart from that the catalog is what the messages make of it |
| Trigger.CrashIff | pkg/provider/handlers/trigger.go:45-94 | the crash in terms of the catalog before the call: with a holder, exactly on a refusal with this node untimed; without one, exactly when all are overloaded or the peer deployed to is untimed and silent; a holder chosen by weight never crashes the handler |
| Trigger.FallbackCrashes | pkg/provider/handlers/trigger.go:105-106 | with two holders a hundred thousand times apart and this node untimed every request crashes |
| Trigger.Answer | pkg/provider/handlers/trigger.go:305-326 | after the answer the catalog has the messages that came in and the measurement; fails exactly when a measurement has no time to go to |
| Trigger.Prepare | pkg/provider/handlers/trigger.go:47-64 | placement, reset on a refusal, and the report of a deployment on this node; fails exactly when a deployment does not come up |
| Trigger.Finish | pkg/provider/handlers/trigger.go:66-82 | answer and exploration of the suggested node; fails exactly when the target is untimed and silent |
| Trigger.HandleOffloaded | pkg/provider/handlers/trigger.go:45-92 | an offloaded request is invoked here once; nothing is placed, deployed or explored, and the catalog changes by messages and the measurement only |
| Trigger.HandlePlaced | pkg/provider/handlers/trigger.go:45-94 | deploys exactly when needed, invokes the target once, explores at most one node; its result, crash and final catalog |
| Trigger.Handle | pkg/provider/handlers/trigger.go:33-94 | for every request: unknown functions change nothing, the crash occurs exactly on its condition, a failed deployment is reported exactly when one was needed, and the actions and the final catalog are as stated; works on every catalog in which replicas have times |
| Trigger.HandledKeepsInv | pkg/provider/handlers/trigger.go:33-94 | handling any request keeps the catalog invariant |
| Trigger.Route | pkg/provider/handlers/trigger.go:30-104 | over the handlers of a whole cluster, whatever their catalogs: the request is handled where it enters, with all that the handler promises, and at a second node if and only if the first invokes a node of the cluster other than itself; that node gets the marked request, only answers it, and no other node is touched |
| Trigger.WayGoesOn | pkg/provider/handlers/trigger.go:88-104 | for any way nodes handle requests: a node that sends a request on makes it a way of exactly two nodes |
| Trigger.SecondOnlyAnswered | pkg/provider/handlers/trigger.go:85-104 | the catalog of the second node changes by messages and the measurement only |
| ExecTime.RacesStayWithin | pkg/provider/handlers/trigger.go:305-326 | for any interleaving of loads, stores and resets the recorded time is 1 or between the whole milliseconds of two runs measured so far |
| ExecTime.RequestMoves | pkg/provider/handlers/trigger.go:312-324 | a request that nothing comes between moves the recorded time to its own over the mark 1, else halfway to it, and leaves other requests alone |
| ExecTime.ResetThenRequest | pkg/provider/handlers/trigger.go:185 | after a reset the next request leaves its own time |
| ExecTime.Converges | pkg/provider/handlers/trigger.go:320-324 | after n equal requests the distance to their time is less than the first one over two to the n, plus one |
| ExecTime.NeverNegative | pkg/provider/handlers/trigger.go:314-324 | the recorded time never becomes negative |
| ExecTime.ZeroIsRecorded | pkg/provider/handlers/trigger.go:317-324 | a first run of less than a millisecond is recorded as 0 |
| Scale.Decide | pkg/provider/handlers/scale.go:77-107 | refuses exactly zero; else aims at the smaller of the request and ten, upwards only from below it and downwards only from above, never for a forwarded request; stays only when forwarded or already there |
| Scale.ScaleUp | pkg/provider/handlers/scale.go:111-158 | with records that change during the loop: the nodes deployed to are those free when visited, never more than were missing, each without an error; on an error the position visited is free and failed; otherwise the loop ends exactly where nothing is missing, where a peer takes over, or with the ranking |
| Scale.FreePositions | pkg/provider/handlers/scale.go:116-124 | the free nodes are those of all ranked positions that are not overloaded and without a replica when visited, in the order of the ranking |
| Scale.NoneTookOver | pkg/provider/handlers/scale.go:146-155 | whoever is visited before the end and agrees to scale further is this node or overloaded |
| Scale.ReportsAdd | pkg/provider/catalog/catalog_cluster_level.go:53-67 | the reports of distinct nodes that held no replica raise the aggregate by exactly their number |
| Scale.ScaleUpBounded | pkg/provider/handlers/scale.go:77-158 | for every ranking, ties included, whatever reports come in during the loop, and whichever of the nodes deployed to report, in any order: the aggregate grows by the number of reports and is at most the request and at most ten |
| Scale.ScaleDown | pkg/provider/handlers/scale.go:160-204 | looks at the nearest node only; if it is this one and holds a replica its count becomes zero, otherwise at most one request goes to that peer; no count underflows |
| Scale.ScaleDownEffect | pkg/provider/handlers/scale.go:171-200 | touches no peer record, leaves no replica here, lowers the aggregate by exactly what this node held, keeps the function catalogued and the invariant |
| DependencyOrder.OrderedIsSound | pkg/depgraph/depgraph.go:61-80 | a graph all of whose names can be put in dependency order declares every dependency and has no cycle |
| DependencyOrder.BackEdge | pkg/depgraph/depgraph.go:91-93 | depending on a name of the active path closes a cycle |
| DepGraph.Graph.Contains | pkg/depgraph/depgraph.go:28-38 | finds a node by name |
| DepGraph.Graph.Add | pkg/depgraph/depgraph.go:40-43 | appends the node |
| DepGraph.Graph.Remove | pkg/depgraph/depgraph.go:45-59 | removes the first occurrence of exactly that node |
| DepGraph.ResolveEdge | pkg/depgraph/depgraph.go:91-95 | panics only on a cycle or an undeclared name; else the edge is resolved, everything in the unresolved list is on the active path or resolved, and the termination bound still holds |
| DepGraph.ResolveEdges | pkg/depgraph/depgraph.go:89-96 | after the loop all edges are resolved and the resolved list only grew |
| DepGraph.Settle | pkg/depgraph/depgraph.go:98-105 | the node is resolved and off the active path, the order of the resolved list is kept |
| DepGraph.Resolve1 | pkg/depgraph/depgraph.go:82-106 | terminates; panics only on a cycle or an undeclared name; else resolves the node in dependency order although it re-visits resolved nodes and leaves entries behind |
| DepGraph.ResolveNodes | pkg/depgraph/depgraph.go:69-71 | after the loop every node is resolved and the list is in dependency order; panics only on a cycle or an undeclared name |
| DepGraph.Resolve | pkg/depgraph/depgraph.go:61-80 | succeeds if and only if every dependency is declared and there is no cycle, and then lists every name once, each after all it depends on |
| Deployment.BuildServiceGraph | pkg/deployment_order.go:23-41 | the nodes and edges built are the dependency graph of the services, with a null edge for an undeclared dependency |
| Deployment.CreateNodes | pkg/deployment_order.go:26-32 | one fresh node per service, in order and without edges, and a table that finds each by its name |
| Deployment.ConnectNodes | pkg/deployment_order.go:34-38 | every node has exactly the edges its service declares, in order |
| Deployment.BuildDeploymentOrder | pkg/deployment_order.go:9-21 | an order exists if and only if every dependency is a service and none depends on itself through others; it is a permutation of the services and each comes strictly after its dependencies |
| Hosts.LocalResolver.Rebuild | pkg/local_resolver.go:53-75 | adds the entries of the file line by line, keeps what is gone from it, changes nothing when it cannot be read |
| Hosts.LocalResolver.Get | pkg/local_resolver.go:95-104 | the address on record, or the empty string |
| Hosts.ReadLine | pkg/local_resolver.go:66-73 | one line binds its host to the text before the first tab, or nothing |
| Hosts.ReadPrinted | pkg/supervisor.go:258-269 | reading a file with printed entries appended adds exactly those, the last one for a host winning and nothing dropped |
| Hosts.ReadStarted | pkg/supervisor.go:101-103 | reading what start-up printed gives the two fixed entries and exactly one binding per printed service |
| Hosts.Start | pkg/supervisor.go:141-283 | panics exactly on an undeclared or circular dependency; without a failure all services start, in dependency order, each finding its dependencies in the hosts file; the file returned is the header and one entry per service reached, and reads to exactly those |
| Hosts.StartInOrder | pkg/supervisor.go:143-283 | services start in the given order up to a failure before or after the write; the file gains exactly one entry for each, and one for a service that fails after the write |
| Environment.ReadEnvFromProcessEnv | pkg/provider/handlers/functions.go:342-364 | the loop computes the reading of the list, whose properties the next rows state |
| Environment.ReadsFirstTwo | pkg/provider/handlers/functions.go:345-361 | of an element k=v=... exactly k and v are read: PATH is skipped, fprocess is the process, any other k is a variable |
| Environment.SkipsPlain | pkg/provider/handlers/functions.go:346-349 | an element without an equals sign is skipped |
| Environment.PrepareEnv | pkg/provider/handlers/deploy.go:256-276 | in any order of the variables: each as a pair once, then the process entry |
| Environment.PreparedContents | pkg/provider/handlers/deploy.go:256-276 | every variable but fprocess is written once as a pair; a variable called fprocess comes last as its bare value, else the process under its name, else nothing |
| Environment.RoundTripIff | pkg/provider/handlers/deploy.go:256-276 | writing and reading gives the environment back if and only if it has no equals sign in a key, a value or the process and no variable PATH or fprocess |
| Environment.EqualsSignIsLost | pkg/provider/handlers/functions.go:346-360 | a value with an equals sign does not come back |
| Environment.RedeployIsStable | pkg/provider/handlers/functions.go:342-364 | for every process environment, writing what was read and reading it again gives the same |
| Labels.BuildLabels | pkg/provider/handlers/deploy.go:232-254 | in any order: fails if and only if a prefixed annotation collides with a label, else gives the labels with the prefixed annotations |
| Labels.BuildLabelsAndAnnotations | pkg/provider/handlers/functions.go:378-393 | in any order: splits the container labels by the prefix |
| Labels.SplitThenBuild | pkg/provider/handlers/functions.go:378-393 | splitting any container labels and building them again never fails and is the identity |
| Labels.BuildThenSplitIff | pkg/provider/handlers/deploy.go:232-254 | building and splitting is the identity if and only if no label starts with the prefix |
| Labels.PrefixedLabelMoves | pkg/provider/handlers/functions.go:384-390 | a label under the prefix comes back as an annotation |

## Left out

- Counts are unbounded naturals: wrap-around of the 64-bit counters is not modelled.
- Node records are values in the catalog object's table and not shared objects: pointer identity is not captured. The source stores a record under one key only, and the update loop's own pointer is to the self record.
- Each catalog operation is one atomic step: data races on the unlocked maps are not modelled. Only the separate load and store of a recorded time are.
- A new execution-time cell holds 0 between its creation and its first store; the two are one step here.
- Messages are never duplicated. A failed publish is a lost message, which the any-order runs have and the runs with gossip in order exclude.
- Floating-point rounding of the weights, and weights beyond the range of a float, are not modelled.
- CatalogStore.Store.RankNodeByRTT: a ping that cannot be set up, where the source panics, is excluded.
- Deployment.BuildDeploymentOrder: two services of one name are excluded; the compose loader builds the services from a table keyed by name.
- Hosts.Start: reads and writes of the hosts file succeed, service names and addresses have no tab or line break where it matters, and image pulling, mounts, containers and networks are reduced to one point of failure before the write and one after it.
- Trigger.Handle: other requests handled at the same time are not modelled; the messages that come in are those until the answer. The deployment that an exploration starts in the background is recorded as an action and not followed. A response worth recording is a parameter.
- Trigger.Route: the query is a list of decoded pairs that reaches the next node unchanged, and the namespace suffix of a function name is already trimmed.
- Scale.ScaleUp: the records change during the loop but the ranking is fixed. What a peer does with the remote request to scale further, and whether it can tell that the request was forwarded, is not part of this model.
- Scale.ScaleDown: the removal of the container on either side is not part of this model.
- Environment.RoundTripIff: the merge of the written list into the image's own environment is not part of this model.
- Containers, secrets, images, HTTP plumbing, the reverse proxy, peer discovery, keys, Prometheus queries and logs.
- The local listing level of the catalog and the read-only handlers, which would only add easy members.
