# bootkube status controller: readiness checking

This project models the readiness-checking half of bootkube's
`statusController` (pkg/bootkube/status.go). While a self-hosted control
plane comes up, bootkube polls this controller until every watched
control-plane pod is Running and every node is Ready, or until a timeout.

The model has four modules:

- `Kube` (kube.dfy) holds the slice of the Kubernetes API the controller reads:
  - pod phases, node conditions and nodes;
  - the pod store as a key list plus the items and lookup errors behind each key;
  - the status lines the controller prints.
- `Snapshot` (snapshot.dfy) holds the pure specification and the lemmas about it:
  - how a watched prefix resolves to a store key;
  - the pod snapshot and the node snapshot;
  - what "all running" and "all ready" mean;
  - which lines a check prints.
- `Status` (status.dfy) holds the controller as a class and the poll loop:
  - `StatusController` has the fields `watchPods`, `podStore`, `nodeStore`,
    `lastPodPhases` and `lastNodeConditions`, and a ghost log `output` of
    the printed lines;
  - its methods run the source's loops and are proved equal to the
    `Snapshot` functions;
  - `WaitUntilPodsRunning` runs one evaluation per poll tick against the
    stores as they are at that tick.
- `Scenarios` (scenarios.dfy) holds concrete cases:
  - prefix resolution;
  - a missing pod;
  - an ambiguous prefix;
  - an end-to-end "ready";
  - a node that is not Ready.

Go maps have no iteration order, so contracts about printed lines state the
multiset of lines a call appends, not their order.

Change detection works on whole snapshots:
- The first successful check seeds the stored snapshot before comparing
  (status.go:141-143, 170-172), so it prints nothing.
- A later check prints every entry once anything in the snapshot differs,
  including entries whose phase or condition did not change
  (status.go:150-153, 178-181). The comment at status.go:145 speaks of
  printing only the pods whose phase changed; the model follows the code,
  and `Snapshot.UnchangedPodReprinted` shows an unchanged pod's line in
  such a report.

## Model

| member | source | states |
|---|---|---|
| Status.StatusController.constructor | pkg/bootkube/status.go:44-51 | a new controller holds the watched prefixes and the given stores, has no stored snapshots (nil maps) and has printed nothing |
| Kube.PodStore.Get | pkg/bootkube/status.go:202 | GetByKey: a store error wins over an item; the answer is "absent" exactly when the key has neither an error nor an item; a found item is the one stored under the key |
| Status.StatusController.PodStatus | pkg/bootkube/status.go:190-215 | the result is exactly the pod snapshot: each watched name is resolved to the first key it prefixes and looked up; a missing key records DoesNotExist; a non-pod item records nothing; the first lookup error aborts with that error |
| Status.StatusController.NodeStatus | pkg/bootkube/status.go:217-230 | the result is exactly the node snapshot: each node name maps to the node's first Ready-typed condition, later nodes overwrite earlier ones, and nodes without one are skipped |
| Status.StatusController.AllPodsRunning | pkg/bootkube/status.go:134-160 | the answer is true iff the snapshot succeeds and every entry is Running; a lookup error answers false and leaves the stored snapshot and the log unchanged; otherwise the snapshot is stored, and the printed lines are one per entry when a stored snapshot existed and differed, else none |
| Status.StatusController.AllNodesReady | pkg/bootkube/status.go:162-188 | the answer is true iff every entry's status is True; the snapshot is always stored; it is printed, one line per entry, only when a stored one existed and differed |
| Status.StatusController.AllRunning | pkg/bootkube/status.go:118-132 | the error is always nil; the answer is pods-ready and nodes-ready; nodes are checked (stored and reported) only when all pods run |
| Status.ScanPodPhases | pkg/bootkube/status.go:149-157 | the range loop answers whether every entry is Running, and when changed prints exactly one line per entry |
| Status.ScanNodeConditions | pkg/bootkube/status.go:177-185 | the range loop answers whether every entry has status True, and when changed prints exactly one line per entry |
| Status.RepeatedPodCheck | pkg/bootkube/status.go:141-147 | change detection: a second pod check against unchanged stores prints nothing more and gives the same answer |
| Status.RepeatedNodeCheck | pkg/bootkube/status.go:170-175 | change detection: a second node check against an unchanged store prints nothing more and gives the same answer |
| Status.WaitUntilPodsRunning | pkg/bootkube/status.go:25-42 | polling stops at the first tick whose stores are ready and returns nil; the result is nil iff some tick is ready; otherwise every tick is polled and the timeout error is returned |
| Status.PollTick | pkg/bootkube/status.go:36 | one tick of the poll: the stores now hold the tick's view; the answer is whether that view is ready; the stored snapshots and the printed lines are those `AllRunning` gives against that view |
| Status.ReadyAt | pkg/bootkube/status.go:118-131 | what the controller answers against one view: true only when the pod snapshot succeeds, and with no watched pods it is the nodes' readiness alone |
| Snapshot.FirstPrefixed | pkg/bootkube/status.go:196-201 | the index found is the first key that has the watched name as a prefix; no earlier key has it; the index is past the end when no key matches |
| Snapshot.Resolve | pkg/bootkube/status.go:196-201 | the name a watched pod is looked up under has the watched name as a prefix and is a store key or the watched name itself |
| Snapshot.ResolveAll | pkg/bootkube/status.go:194-201 | every watched name, in watch order, is resolved on its own against the same key list, one name per watched name |
| Snapshot.LookupOf | pkg/bootkube/status.go:196-202 | a watched name's lookup is GetByKey of its resolved name: it errs exactly when that name has a store error, and a found item is the one stored under it |
| Snapshot.ResolveIsStoreKeyOrWatched | pkg/bootkube/status.go:194-201 | the lookup name extends the watched name and is a store key or the watched name; it is the unlisted watched name iff no key matches |
| Snapshot.EntryOf | pkg/bootkube/status.go:206-212 | a lookup records nothing exactly when it failed or found an item that is not a pod; a missing key records DoesNotExist |
| Snapshot.Record | pkg/bootkube/status.go:202-212 | one lookup fails the snapshot exactly when GetByKey errs, with that error; otherwise it sets the looked-up name to what the lookup records (or leaves it) and keeps every other entry |
| Snapshot.Collect | pkg/bootkube/status.go:194-213 | a successful collection has at most one entry per looked-up name |
| Snapshot.PodSnapshot | pkg/bootkube/status.go:190-215 | a successful pod snapshot has at most as many entries as watched names |
| Snapshot.CollectStaysFailed | pkg/bootkube/status.go:202-205 | once a lookup fails, the rest of the lookups cannot change the result |
| Snapshot.CollectFails | pkg/bootkube/status.go:202-205 | collection fails iff some lookup fails, and then with the first failing lookup's error |
| Snapshot.CollectEntries | pkg/bootkube/status.go:202-212 | a successful collection records each looked-up name's entry, has no keys but those names, and has at most one entry per name |
| Snapshot.PodSnapshotFails | pkg/bootkube/status.go:190-215 | the pod snapshot fails iff some watched name's lookup fails, with the first such error |
| Snapshot.PodSnapshotEntries | pkg/bootkube/status.go:190-215 | each watched name's entry is under its resolved name: the pod's phase, DoesNotExist if the key is missing, nothing for a non-pod item; every key comes from some watched name; there are at most as many entries as watched names |
| Snapshot.PodSnapshotKeys | pkg/bootkube/status.go:196-207 | every snapshot key is a store key or a watched name |
| Snapshot.MissingPodsUnderWatchedName | pkg/bootkube/status.go:206-208 | against a store whose key list matches its contents, a lookup is absent iff no key has the watched prefix, and DoesNotExist is then recorded under the watched name |
| Snapshot.FirstReady | pkg/bootkube/status.go:221-226 | the index found is the first condition of type Ready; no earlier condition is Ready-typed |
| Snapshot.ReadyCondition | pkg/bootkube/status.go:221-226 | the condition picked is one of the node's conditions and is Ready-typed; there is none exactly when no condition is Ready-typed |
| Snapshot.NodeSnapshot | pkg/bootkube/status.go:220-227 | every entry of the node snapshot is a Ready-typed condition |
| Snapshot.NodeSnapshotCovers | pkg/bootkube/status.go:220-227 | every node with a Ready condition has an entry under its name |
| Snapshot.NodeSnapshotOrigin | pkg/bootkube/status.go:220-227 | every entry is the first Ready condition of some listed node with that name |
| Snapshot.NodeSnapshotLastWins | pkg/bootkube/status.go:220-227 | among nodes sharing a name, the last one with a Ready condition decides the entry |
| Snapshot.NodeSnapshotOfUniqueNames | pkg/bootkube/status.go:220-227 | with unique node names, each node with a Ready condition maps to exactly that condition |
| Snapshot.RunningOrSkippedMeans | pkg/bootkube/status.go:206-212 | a lookup lets the pods be ready iff it finds a Running pod or a non-pod item; a missing pod or a lookup error always holds them back |
| Snapshot.PodsReadyIff | pkg/bootkube/status.go:134-160 | the pods are ready iff every watched name resolves to a Running pod or to a non-pod item |
| Snapshot.NodesReadyIff | pkg/bootkube/status.go:177-185 | if every node's Ready condition is True, the nodes are ready; with unique names the converse holds too |
| Snapshot.AllRunningIn | pkg/bootkube/status.go:149-157 | the pod loop starts from true, so an empty snapshot counts as all running |
| Snapshot.AllReadyIn | pkg/bootkube/status.go:177-185 | the node loop starts from true, so an empty snapshot counts as all ready |
| Snapshot.PodsReady | pkg/bootkube/status.go:134-160 | what allPodsRunning answers: true only when the snapshot succeeds, and true with no watched pods |
| Snapshot.NodesReady | pkg/bootkube/status.go:162-188 | what allNodesReady answers: true with no nodes listed |
| Snapshot.Differs | pkg/bootkube/status.go:141-146 | nothing differs on the first check (the stored value is seeded with the new one) or when the stored snapshot equals the new one |
| Snapshot.PodReport | pkg/bootkube/status.go:141-153 | a failed snapshot, a first check or an unchanged snapshot prints nothing; otherwise as many lines as entries |
| Snapshot.NodeReport | pkg/bootkube/status.go:170-181 | a first check or an unchanged snapshot prints nothing; otherwise as many lines as entries |
| Snapshot.UnchangedPodReprinted | pkg/bootkube/status.go:145-153 | once the snapshot differs, a pod whose phase did not change is printed too, exactly once |
| Snapshot.PodLinesExact | pkg/bootkube/status.go:150-153 | a pod report has one line per snapshot entry: each entry's line exactly once and no other line |
| Snapshot.NodeLinesExact | pkg/bootkube/status.go:178-181 | a node report has one line per snapshot entry: each entry's line exactly once and no other line |
| Scenarios.PrefixResolution | pkg/bootkube/status.go:196-201 | watching "etcd" against keys etcd-abcde and kube-scheduler-xyz reports etcd-abcde's phase under etcd-abcde |
| Scenarios.MissingPod | pkg/bootkube/status.go:206-208 | a watched name no key starts with is reported as DoesNotExist and keeps the pods from being ready |
| Scenarios.AmbiguousPrefix | pkg/bootkube/status.go:196-200 | when two keys share the prefix, the first in key order wins, and an exact key also counts as a match |
| Scenarios.EndToEndReady | pkg/bootkube/status.go:118-132 | a running etcd-1 pod watched as "etcd", plus one node whose Ready condition is True, gives an answer of true |
| Scenarios.NodeNotReady | pkg/bootkube/status.go:182-184 | one node whose Ready condition is False keeps the answer false |

## Left out

- Informers, the Kubernetes client, list/watch and the goroutines are left out:
  - `NewStatusController`, `Run`, `podWatcher` and `nodeWatcher` are not part of this model;
  - the stores are fields that the environment assigns between calls, and each call reads them once as a point-in-time view.
- Logging and formatting are left out:
  - glog messages and the text of `UserOutput` are not modelled;
  - a printed status line is reduced to the entry it reports;
  - the final "successfully started" message of `WaitUntilPodsRunning` is not logged.
- Lines are recorded in the order printed, but contracts only state their multiset. Go's map iteration order is unspecified.
- Time is modelled by poll ticks:
  - `WaitUntilPodsRunning` gets the stores' content at each poll tick as a sequence of views;
  - the 5-second interval and the timeout are represented by the number of ticks;
  - the controller's creation error path is not modelled.
- The type assertion of a node-store item to a node is not modelled; a non-node item would panic. Every node-store item is a `Node`.
- `NodeStatus` always returns a nil error in the source, so it returns only the map here. The unreachable error branch of `allNodesReady` is therefore left out.
- Node conditions compare structurally:
  - the timestamps are integers, compared as part of the structural equality that replaces `reflect.DeepEqual`;
  - time-zone location pointers inside Go timestamps are not modelled.
- A missing pod is recorded under the name it was looked up under (status.go:198, 207). That name is the watched name unless a store key has the watched name as a prefix. A resolved key that the store then reports as absent is possible only when the key list and the contents disagree; `Snapshot.MissingPodsUnderWatchedName` shows that a consistent store records DoesNotExist under the watched name.
