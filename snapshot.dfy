/**
 The status projector as pure functions: how a watched name is resolved
 against the pod store's keys, how the pod and node snapshots are built,
 what "all running" and "all ready" mean, and which report lines a check
 emits. The controller's methods are proved equal to these functions.
 */
module Snapshot {
  import opened Kube

  // ---------------------------------------------------------------------
  // Prefix resolution of watched pod names
  // ---------------------------------------------------------------------

  /** Index of the first key that has `watched` as a prefix, or |keys| when
      none does. A key equal to `watched` counts as a match. */
  function FirstPrefixed(watched: string, keys: seq<string>): (i: nat)
    ensures i <= |keys|
    ensures i < |keys| ==> watched <= keys[i]
    ensures forall j | 0 <= j < i :: !(watched <= keys[j])
  {
    if keys == [] then 0
    else if watched <= keys[0] then 0
    else 1 + FirstPrefixed(watched, keys[1..])
  }

  /** The name a watched pod is looked up under: the first store key it is
      a prefix of, or the watched name itself when there is none. */
  function Resolve(watched: string, keys: seq<string>): (r: string)
    ensures watched <= r
    ensures r in keys || r == watched
  {
    var i := FirstPrefixed(watched, keys);
    if i < |keys| then keys[i] else watched
  }

  /** What the pod store answers for a watched name. */
  function LookupOf(store: PodStore, watched: string): (r: Lookup)
    ensures r.Failed? <==> Resolve(watched, store.keys) in store.failures
    ensures r.Found? ==> Resolve(watched, store.keys) in store.items && r.item == store.items[Resolve(watched, store.keys)]
  {
    store.Get(Resolve(watched, store.keys))
  }

  /** The resolved name is the watched name or a store key, and the watched
      name is a prefix of it; it is the watched name itself, absent from the
      keys, exactly when no key has the watched name as a prefix. */
  lemma ResolveIsStoreKeyOrWatched(watched: string, keys: seq<string>)
    ensures var r := Resolve(watched, keys);
      watched <= r && (r in keys || r == watched)
    ensures (forall j | 0 <= j < |keys| :: !(watched <= keys[j])) <==> Resolve(watched, keys) == watched && watched !in keys
  {
  }

  /** The names the watched pods are looked up under, in watch order. */
  function ResolveAll(watch: seq<string>, keys: seq<string>): (names: seq<string>)
    ensures |names| == |watch|
    ensures forall i | 0 <= i < |watch| :: names[i] == Resolve(watch[i], keys)
  {
    seq(|watch|, i requires 0 <= i < |watch| => Resolve(watch[i], keys))
  }

  // ---------------------------------------------------------------------
  // Pod snapshot
  // ---------------------------------------------------------------------

  /** The phase a lookup that did not fail records: the pod's phase, the
      DoesNotExist sentinel for a missing key, and nothing for an item that
      is not a pod. */
  function EntryOf(lookup: Lookup): (e: Option<PodPhase>)
    ensures e.None? <==> lookup.Failed? || lookup == Found(NotAPod)
    ensures lookup.Absent? ==> e == Some(DoesNotExist)
  {
    match lookup
    case Found(Pod(phase)) => Some(phase)
    case Absent => Some(DoesNotExist)
    case _ => None
  }

  /** The effect of one lookup on the snapshot built so far. */
  function Record(m: map<string, PodPhase>, key: string, lookup: Lookup): (r: Result<map<string, PodPhase>>)
    ensures r.Err? <==> lookup.Failed?
    ensures r.Err? ==> r.error == lookup.error
    ensures r.Ok? && EntryOf(lookup).Some? ==> key in r.value && r.value[key] == EntryOf(lookup).value
    ensures r.Ok? ==> (key in r.value <==> key in m || EntryOf(lookup).Some?)
    ensures r.Ok? ==> forall k | k != key :: k in r.value <==> k in m
    ensures r.Ok? ==> forall k | k in m && k != key :: r.value[k] == m[k]
  {
    if lookup.Failed? then Err(lookup.error)
    else if EntryOf(lookup).Some? then Ok(m[key := EntryOf(lookup).value])
    else Ok(m)
  }

  /** Looks the names up in order, recording each under its own name; the
      first failing lookup aborts. */
  function Collect(names: seq<string>, store: PodStore): (r: Result<map<string, PodPhase>>)
    ensures r.Ok? ==> |r.value| <= |names|
    decreases |names|
  {
    if names == [] then Ok(map[])
    else
      var previous := Collect(names[..|names| - 1], store);
      var name := names[|names| - 1];
      if previous.Err? then previous
      else Record(previous.value, name, store.Get(name))
  }

  /** The pod snapshot: every watched name resolved against the store's
      keys, then looked up. */
  function PodSnapshot(watch: seq<string>, store: PodStore): (r: Result<map<string, PodPhase>>)
    ensures r.Ok? ==> |r.value| <= |watch|
  {
    Collect(ResolveAll(watch, store.keys), store)
  }

  /** What a successful snapshot holds under a key whose lookup gave
      `lookup`: the recorded phase, or no entry. */
  predicate Recorded(m: map<string, PodPhase>, key: string, lookup: Lookup)
  {
    && !lookup.Failed?
    && (key in m <==> EntryOf(lookup).Some?)
    && (key in m ==> m[key] == EntryOf(lookup).value)
  }

  /** Recording a lookup under a key that holds nothing, or holds what the
      lookup records already, makes the key hold what the lookup records;
      other keys keep what they hold. */
  lemma RecordKeeps(m: map<string, PodPhase>, key: string, lookup: Lookup, k: string, l: Lookup)
    requires !lookup.Failed?
    requires k == key ==> l == lookup && (key in m ==> Recorded(m, key, lookup))
    requires k != key ==> Recorded(m, k, l)
    ensures Recorded(Record(m, key, lookup).value, k, l)
  {
  }

  /** Collecting one more name records its lookup on top of the prefix. */
  lemma CollectStep(names: seq<string>, store: PodStore, i: nat)
    requires i < |names| && Collect(names[..i], store).Ok?
    ensures Collect(names[..i + 1], store) == Record(Collect(names[..i], store).value, names[i], store.Get(names[i]))
  {
    assert names[..i + 1][..i] == names[..i];
  }

  /** Once a prefix of the names fails, the whole collection fails with the
      same error. */
  lemma {:induction false} CollectStaysFailed(names: seq<string>, store: PodStore, n: nat)
    requires n <= |names|
    requires Collect(names[..n], store).Err?
    ensures Collect(names, store) == Collect(names[..n], store)
    decreases |names|
  {
    if n == |names| {
      assert names[..n] == names;
    } else {
      var front := names[..|names| - 1];
      assert front[..n] == names[..n];
      CollectStaysFailed(front, store, n);
    }
  }

  /** The collection fails exactly when some name's lookup fails, and then
      with the error of the first such name. */
  lemma {:induction false} CollectFails(names: seq<string>, store: PodStore)
    ensures Collect(names, store).Err? <==> exists i | 0 <= i < |names| :: store.Get(names[i]).Failed?
    ensures Collect(names, store).Err? ==>
      exists i | 0 <= i < |names| ::
        store.Get(names[i]) == Failed(Collect(names, store).error) &&
        forall j | 0 <= j < i :: !store.Get(names[j]).Failed?
    decreases |names|
  {
    if names != [] {
      var front := names[..|names| - 1];
      CollectFails(front, store);
      assert forall i | 0 <= i < |front| :: front[i] == names[i];
      if Collect(front, store).Err? {
        var i :| 0 <= i < |front| && store.Get(front[i]) == Failed(Collect(front, store).error) &&
          forall j | 0 <= j < i :: !store.Get(front[j]).Failed?;
        assert store.Get(names[i]) == Failed(Collect(names, store).error);
      } else if !store.Get(names[|names| - 1]).Failed? {
        forall i | 0 <= i < |names| ensures !store.Get(names[i]).Failed? {
          if i < |front| { assert names[i] == front[i]; }
        }
      }
    }
  }

  /** A successful collection holds, for every name, what its lookup
      records; has no other keys; and has at most one entry per name. */
  lemma {:induction false} CollectEntries(names: seq<string>, store: PodStore)
    requires Collect(names, store).Ok?
    ensures forall i | 0 <= i < |names| :: Recorded(Collect(names, store).value, names[i], store.Get(names[i]))
    ensures forall k | k in Collect(names, store).value :: k in names
    ensures |Collect(names, store).value| <= |names|
    decreases |names|
  {
    if names != [] {
      var front := names[..|names| - 1];
      var key := names[|names| - 1];
      CollectEntries(front, store);
      var m0 := Collect(front, store).value;
      if key in m0 {
        var j :| 0 <= j < |front| && front[j] == key;
      }
      forall i | 0 <= i < |names|
        ensures Recorded(Collect(names, store).value, names[i], store.Get(names[i]))
      {
        if i < |front| {
          assert names[i] == front[i];
        }
        RecordKeeps(m0, key, store.Get(key), names[i], store.Get(names[i]));
      }
      assert forall k | k in front :: k in names;
    }
  }

  /** The pod snapshot fails exactly when some watched name's lookup fails,
      and then with the error of the first such name. */
  lemma PodSnapshotFails(watch: seq<string>, store: PodStore)
    ensures PodSnapshot(watch, store).Err? <==>
      exists i | 0 <= i < |watch| :: LookupOf(store, watch[i]).Failed?
    ensures PodSnapshot(watch, store).Err? ==>
      exists i | 0 <= i < |watch| ::
        LookupOf(store, watch[i]) == Failed(PodSnapshot(watch, store).error) &&
        forall j | 0 <= j < i :: !LookupOf(store, watch[j]).Failed?
  {
    var names := ResolveAll(watch, store.keys);
    CollectFails(names, store);
    assert forall i | 0 <= i < |watch| :: LookupOf(store, watch[i]) == store.Get(names[i]);
  }

  /** A successful pod snapshot holds, for every watched name, what the
      lookup of its resolved name records; every key is the resolved name
      of some watched name; and there are at most as many entries as
      watched names, so names resolving to one key share one entry. */
  lemma PodSnapshotEntries(watch: seq<string>, store: PodStore)
    requires PodSnapshot(watch, store).Ok?
    ensures forall i | 0 <= i < |watch| ::
      Recorded(PodSnapshot(watch, store).value, Resolve(watch[i], store.keys), LookupOf(store, watch[i]))
    ensures forall k | k in PodSnapshot(watch, store).value ::
      exists i | 0 <= i < |watch| :: k == Resolve(watch[i], store.keys)
    ensures |PodSnapshot(watch, store).value| <= |watch|
  {
    var names := ResolveAll(watch, store.keys);
    CollectEntries(names, store);
    forall k | k in PodSnapshot(watch, store).value
      ensures exists i | 0 <= i < |watch| :: k == Resolve(watch[i], store.keys)
    {
      var i :| 0 <= i < |names| && names[i] == k;
    }
  }

  /** Every key of a successful snapshot is a store key or a watched name. */
  lemma PodSnapshotKeys(watch: seq<string>, store: PodStore)
    requires PodSnapshot(watch, store).Ok?
    ensures forall k | k in PodSnapshot(watch, store).value :: k in store.keys || k in watch
  {
    PodSnapshotEntries(watch, store);
    forall k | k in PodSnapshot(watch, store).value ensures k in store.keys || k in watch {
      var i :| 0 <= i < |watch| && k == Resolve(watch[i], store.keys);
      ResolveIsStoreKeyOrWatched(watch[i], store.keys);
    }
  }

  /** A store is consistent when its key list holds exactly the keys whose
      lookup does not answer "absent". */
  ghost predicate Consistent(store: PodStore)
  {
    forall k :: k in store.keys <==> k in store.items || k in store.failures
  }

  /** Against a consistent store, a watched name's lookup answers "absent"
      exactly when no store key has it as a prefix, and the snapshot then
      records DoesNotExist under the watched name itself. */
  lemma MissingPodsUnderWatchedName(watch: seq<string>, store: PodStore)
    requires Consistent(store)
    requires PodSnapshot(watch, store).Ok?
    ensures forall i | 0 <= i < |watch| ::
      LookupOf(store, watch[i]).Absent? <==> forall j | 0 <= j < |store.keys| :: !(watch[i] <= store.keys[j])
    ensures forall i | 0 <= i < |watch| && (forall j | 0 <= j < |store.keys| :: !(watch[i] <= store.keys[j])) ::
      watch[i] in PodSnapshot(watch, store).value && PodSnapshot(watch, store).value[watch[i]] == DoesNotExist
  {
    PodSnapshotEntries(watch, store);
    forall i | 0 <= i < |watch|
      ensures LookupOf(store, watch[i]).Absent? <==> forall j | 0 <= j < |store.keys| :: !(watch[i] <= store.keys[j])
    {
      ResolveIsStoreKeyOrWatched(watch[i], store.keys);
      var r := Resolve(watch[i], store.keys);
      assert r in store.keys <==> r in store.items || r in store.failures;
    }
  }

  // ---------------------------------------------------------------------
  // Node snapshot
  // ---------------------------------------------------------------------

  /** Index of the first condition of type Ready, or |conds| when none is. */
  function FirstReady(conds: seq<NodeCondition>): (i: nat)
    ensures i <= |conds|
    ensures i < |conds| ==> conds[i].kind == NodeReady
    ensures forall j | 0 <= j < i :: conds[j].kind != NodeReady
  {
    if conds == [] then 0
    else if conds[0].kind == NodeReady then 0
    else 1 + FirstReady(conds[1..])
  }

  /** The first Ready-typed condition of a node, if it has one. */
  function ReadyCondition(conds: seq<NodeCondition>): (r: Option<NodeCondition>)
    ensures r.Some? ==> r.value in conds && r.value.kind == NodeReady
    ensures r.None? <==> forall c | c in conds :: c.kind != NodeReady
  {
    var i := FirstReady(conds);
    if i < |conds| then Some(conds[i]) else None
  }

  /** The node snapshot: node name to its first Ready condition, built in
      list order; nodes without one are skipped. */
  function NodeSnapshot(nodes: seq<Node>): (m: map<string, NodeCondition>)
    ensures forall n | n in m :: m[n].kind == NodeReady
    decreases |nodes|
  {
    if nodes == [] then map[]
    else
      var m := NodeSnapshot(nodes[..|nodes| - 1]);
      var node := nodes[|nodes| - 1];
      match ReadyCondition(node.conditions)
      case None => m
      case Some(c) => m[node.name := c]
  }

  /** Listing one more node adds its first Ready condition, if any, on top
      of the snapshot of the nodes before it. */
  lemma NodeSnapshotStep(nodes: seq<Node>, i: nat)
    requires i < |nodes|
    ensures NodeSnapshot(nodes[..i + 1]) ==
      match ReadyCondition(nodes[i].conditions)
      case None => NodeSnapshot(nodes[..i])
      case Some(c) => NodeSnapshot(nodes[..i])[nodes[i].name := c]
  {
    assert nodes[..i + 1][..i] == nodes[..i];
  }

  /** No two listed nodes share a name (the node store is keyed by name). */
  predicate UniqueNames(nodes: seq<Node>)
  {
    forall i, j | 0 <= i < j < |nodes| :: nodes[i].name != nodes[j].name
  }

  /** Every node that has a Ready condition has an entry under its name. */
  lemma {:induction false} NodeSnapshotCovers(nodes: seq<Node>)
    ensures forall i | 0 <= i < |nodes| && ReadyCondition(nodes[i].conditions).Some? ::
      nodes[i].name in NodeSnapshot(nodes)
    decreases |nodes|
  {
    if nodes != [] {
      var front := nodes[..|nodes| - 1];
      NodeSnapshotCovers(front);
      forall i | 0 <= i < |nodes| - 1 && ReadyCondition(nodes[i].conditions).Some?
        ensures nodes[i].name in NodeSnapshot(nodes)
      {
        assert nodes[i] == front[i];
      }
    }
  }

  /** Every entry is the first Ready condition of some listed node of that
      name, so nodes without a Ready condition contribute nothing. */
  lemma {:induction false} NodeSnapshotOrigin(nodes: seq<Node>)
    ensures forall n | n in NodeSnapshot(nodes) :: exists i | 0 <= i < |nodes| ::
      nodes[i].name == n && ReadyCondition(nodes[i].conditions) == Some(NodeSnapshot(nodes)[n])
    decreases |nodes|
  {
    if nodes != [] {
      var front := nodes[..|nodes| - 1];
      var last := nodes[|nodes| - 1];
      NodeSnapshotOrigin(front);
      var m0 := NodeSnapshot(front);
      var m := NodeSnapshot(nodes);
      forall n | n in m
        ensures exists i | 0 <= i < |nodes| :: nodes[i].name == n && ReadyCondition(nodes[i].conditions) == Some(m[n])
      {
        if ReadyCondition(last.conditions).Some? && n == last.name {
          assert nodes[|nodes| - 1] == last;
        } else {
          assert n in m0 && m[n] == m0[n];
          var i :| 0 <= i < |front| && front[i].name == n && ReadyCondition(front[i].conditions) == Some(m0[n]);
          assert nodes[i] == front[i];
        }
      }
    }
  }

  /** Among listed nodes sharing a name, the last one with a Ready condition
      decides the entry. */
  lemma {:induction false} NodeSnapshotLastWins(nodes: seq<Node>, i: nat)
    requires i < |nodes| && ReadyCondition(nodes[i].conditions).Some?
    requires forall j | i < j < |nodes| :: nodes[j].name == nodes[i].name ==> ReadyCondition(nodes[j].conditions).None?
    ensures nodes[i].name in NodeSnapshot(nodes)
    ensures NodeSnapshot(nodes)[nodes[i].name] == ReadyCondition(nodes[i].conditions).value
    decreases |nodes|
  {
    if i < |nodes| - 1 {
      var front := nodes[..|nodes| - 1];
      assert nodes[i] == front[i];
      forall j | i < j < |front| ensures front[j] == nodes[j] { }
      NodeSnapshotLastWins(front, i);
    }
  }

  /** With unique names, each node that has a Ready condition maps to its
      first Ready condition. */
  lemma NodeSnapshotOfUniqueNames(nodes: seq<Node>)
    requires UniqueNames(nodes)
    ensures forall i | 0 <= i < |nodes| && ReadyCondition(nodes[i].conditions).Some? ::
      nodes[i].name in NodeSnapshot(nodes) &&
      NodeSnapshot(nodes)[nodes[i].name] == ReadyCondition(nodes[i].conditions).value
  {
    forall i | 0 <= i < |nodes| && ReadyCondition(nodes[i].conditions).Some?
      ensures nodes[i].name in NodeSnapshot(nodes) &&
        NodeSnapshot(nodes)[nodes[i].name] == ReadyCondition(nodes[i].conditions).value
    {
      NodeSnapshotLastWins(nodes, i);
    }
  }

  // ---------------------------------------------------------------------
  // Readiness
  // ---------------------------------------------------------------------

  /** Every entry of a pod snapshot is Running (vacuously true when empty). */
  predicate AllRunningIn(m: map<string, PodPhase>): (b: bool)
    ensures m == map[] ==> b
  {
    forall p | p in m :: m[p] == PodRunning
  }

  /** Every entry of a node snapshot has status True (vacuously true when empty). */
  predicate AllReadyIn(m: map<string, NodeCondition>): (b: bool)
    ensures m == map[] ==> b
  {
    forall n | n in m :: m[n].status == ConditionTrue
  }

  /** What allPodsRunning answers for given watched names and pod store. */
  predicate PodsReady(watch: seq<string>, store: PodStore): (b: bool)
    ensures b ==> PodSnapshot(watch, store).Ok?
    ensures watch == [] ==> b
  {
    PodSnapshot(watch, store).Ok? && AllRunningIn(PodSnapshot(watch, store).value)
  }

  /** What allNodesReady answers for a node list. */
  predicate NodesReady(nodes: seq<Node>): (b: bool)
    ensures nodes == [] ==> b
  {
    AllReadyIn(NodeSnapshot(nodes))
  }

  /** A lookup that does not hold the pods back: it did not fail, and it
      records Running or nothing at all. */
  predicate RunningOrSkipped(lookup: Lookup)
  {
    !lookup.Failed? && (EntryOf(lookup).None? || EntryOf(lookup).value == PodRunning)
  }

  /** Only a running pod, or an item that is not a pod, does not hold the
      pods back; a missing pod always does. */
  lemma RunningOrSkippedMeans(lookup: Lookup)
    ensures RunningOrSkipped(lookup) <==> lookup == Found(Pod(PodRunning)) || lookup == Found(NotAPod)
  {
    assert |DoesNotExist| != |PodRunning|;
  }

  /** Pods are ready exactly when every watched name resolves to a running
      pod (or to an item that is not a pod). */
  lemma PodsReadyIff(watch: seq<string>, store: PodStore)
    ensures PodsReady(watch, store) <==> forall i | 0 <= i < |watch| :: RunningOrSkipped(LookupOf(store, watch[i]))
  {
    if PodsReady(watch, store) {
      PodsReadyOnlyIfAllRunning(watch, store);
    } else if PodSnapshot(watch, store).Ok? {
      PodSnapshotEntries(watch, store);
      var m := PodSnapshot(watch, store).value;
      var p :| p in m && m[p] != PodRunning;
      var i :| 0 <= i < |watch| && p == Resolve(watch[i], store.keys);
      assert Recorded(m, p, LookupOf(store, watch[i]));
    } else {
      PodSnapshotFails(watch, store);
      var i :| 0 <= i < |watch| && LookupOf(store, watch[i]).Failed?;
      assert !RunningOrSkipped(LookupOf(store, watch[i]));
    }
  }

  lemma PodsReadyOnlyIfAllRunning(watch: seq<string>, store: PodStore)
    requires PodsReady(watch, store)
    ensures forall i | 0 <= i < |watch| :: RunningOrSkipped(LookupOf(store, watch[i]))
  {
    PodSnapshotEntries(watch, store);
    var m := PodSnapshot(watch, store).value;
    forall i | 0 <= i < |watch| ensures RunningOrSkipped(LookupOf(store, watch[i])) {
      assert Recorded(m, Resolve(watch[i], store.keys), LookupOf(store, watch[i]));
    }
  }

  /** Nodes are ready when every node's Ready condition (if any) is True;
      with unique names the converse holds too. */
  lemma NodesReadyIff(nodes: seq<Node>)
    ensures (forall i | 0 <= i < |nodes| && ReadyCondition(nodes[i].conditions).Some? ::
      ReadyCondition(nodes[i].conditions).value.status == ConditionTrue) ==> NodesReady(nodes)
    ensures UniqueNames(nodes) ==> (NodesReady(nodes) <==>
      forall i | 0 <= i < |nodes| && ReadyCondition(nodes[i].conditions).Some? ::
        ReadyCondition(nodes[i].conditions).value.status == ConditionTrue)
  {
    NodeSnapshotOrigin(nodes);
    var m := NodeSnapshot(nodes);
    if forall i | 0 <= i < |nodes| && ReadyCondition(nodes[i].conditions).Some? ::
      ReadyCondition(nodes[i].conditions).value.status == ConditionTrue
    {
      forall n | n in m ensures m[n].status == ConditionTrue {
        var i :| 0 <= i < |nodes| && nodes[i].name == n && ReadyCondition(nodes[i].conditions) == Some(m[n]);
      }
    }
    if UniqueNames(nodes) && NodesReady(nodes) {
      NodeSnapshotOfUniqueNames(nodes);
    }
  }

  // ---------------------------------------------------------------------
  // Change detection and report lines
  // ---------------------------------------------------------------------

  /** The new snapshot is reported only when a previous one exists and
      differs structurally; on the first call the stored value is seeded
      with the new snapshot, so nothing differs. */
  predicate Differs<V(==)>(last: Option<map<string, V>>, now: map<string, V>): (d: bool)
    ensures last.None? ==> !d
    ensures last == Some(now) ==> !d
  {
    last.Some? && last.value != now
  }

  /** The pod lines for the entries of `m` under the keys `keys`. */
  ghost function PodLinesOf(m: map<string, PodPhase>, keys: set<string>): multiset<Line>
  {
    multiset(set p | p in keys && p in m :: PodLine(p, m[p]))
  }

  /** One pod line per snapshot entry. */
  ghost function PodLines(m: map<string, PodPhase>): multiset<Line>
  {
    PodLinesOf(m, m.Keys)
  }

  /** The node lines for the entries of `m` under the keys `keys`. */
  ghost function NodeLinesOf(m: map<string, NodeCondition>, keys: set<string>): multiset<Line>
  {
    multiset(set n | n in keys && n in m :: NodeLine(n, m[n]))
  }

  /** One node line per snapshot entry. */
  ghost function NodeLines(m: map<string, NodeCondition>): multiset<Line>
  {
    NodeLinesOf(m, m.Keys)
  }

  /** The lines a pod check emits, given the stored and the new snapshot. */
  ghost function PodReport(last: Option<map<string, PodPhase>>, snap: Result<map<string, PodPhase>>): (r: multiset<Line>)
    ensures snap.Err? || last.None? || last == Some(snap.value) ==> r == multiset{}
    ensures snap.Ok? && Differs(last, snap.value) ==> |r| == |snap.value|
  {
    match snap
    case Err(_) => multiset{}
    case Ok(ps) =>
      PodLinesExact(ps);
      if Differs(last, ps) then PodLines(ps) else multiset{}
  }

  /** The lines a node check emits, given the stored and the new snapshot. */
  ghost function NodeReport(last: Option<map<string, NodeCondition>>, ns: map<string, NodeCondition>): (r: multiset<Line>)
    ensures last.None? || last == Some(ns) ==> r == multiset{}
    ensures Differs(last, ns) ==> |r| == |ns|
  {
    NodeLinesExact(ns);
    if Differs(last, ns) then NodeLines(ns) else multiset{}
  }

  /** `after` is `before` followed by exactly the lines `lines`, in some order. */
  ghost predicate Appended(before: seq<Line>, after: seq<Line>, lines: multiset<Line>)
  {
    |before| <= |after| && after[..|before|] == before && multiset(after[|before|..]) == lines
  }

  lemma AppendedTrans(a: seq<Line>, b: seq<Line>, c: seq<Line>, x: multiset<Line>, y: multiset<Line>)
    requires Appended(a, b, x) && Appended(b, c, y)
    ensures Appended(a, c, x + y)
  {
    assert c[..|b|] == b;
    assert c[|a|..] == b[|a|..] + c[|b|..];
  }

  /** Appending a batch of lines appends its multiset. */
  lemma AppendedBatch(before: seq<Line>, batch: seq<Line>, lines: multiset<Line>)
    requires multiset(batch) == lines
    ensures Appended(before, before + batch, lines)
  {
    assert (before + batch)[..|before|] == before;
    assert (before + batch)[|before|..] == batch;
  }

  /** Reporting one more entry adds exactly its line. */
  lemma PodLinesAdd(m: map<string, PodPhase>, done: set<string>, p: string)
    requires p in m && p !in done
    ensures PodLinesOf(m, done + {p}) == PodLinesOf(m, done) + multiset{PodLine(p, m[p])}
  {
    var s0 := set q | q in done && q in m :: PodLine(q, m[q]);
    var s1 := set q | q in done + {p} && q in m :: PodLine(q, m[q]);
    assert s1 == s0 + {PodLine(p, m[p])};
    assert PodLine(p, m[p]) !in s0;
  }

  /** Reporting one more entry adds exactly its line. */
  lemma NodeLinesAdd(m: map<string, NodeCondition>, done: set<string>, n: string)
    requires n in m && n !in done
    ensures NodeLinesOf(m, done + {n}) == NodeLinesOf(m, done) + multiset{NodeLine(n, m[n])}
  {
    var s0 := set q | q in done && q in m :: NodeLine(q, m[q]);
    var s1 := set q | q in done + {n} && q in m :: NodeLine(q, m[q]);
    assert s1 == s0 + {NodeLine(n, m[n])};
    assert NodeLine(n, m[n]) !in s0;
  }

  /** Once anything in the pod snapshot differs, a pod whose phase did not
      change is printed again along with the rest. */
  lemma UnchangedPodReprinted(last: map<string, PodPhase>, ps: map<string, PodPhase>, p: string)
    requires last != ps
    requires p in last && p in ps && last[p] == ps[p]
    ensures PodReport(Some(last), Ok(ps))[PodLine(p, ps[p])] == 1
  {
    PodLinesExact(ps);
  }

  /** A report holds one line per entry: the line of each entry exactly
      once, and nothing else. */
  lemma PodLinesExact(m: map<string, PodPhase>)
    ensures |PodLines(m)| == |m|
    ensures forall p, phase :: PodLines(m)[PodLine(p, phase)] == if p in m && m[p] == phase then 1 else 0
  {
    PodLinesOfSize(m, m.Keys);
  }

  lemma {:induction false} PodLinesOfSize(m: map<string, PodPhase>, keys: set<string>)
    requires keys <= m.Keys
    ensures |PodLinesOf(m, keys)| == |keys|
    decreases keys
  {
    if keys != {} {
      var p :| p in keys;
      PodLinesOfSize(m, keys - {p});
      PodLinesAdd(m, keys - {p}, p);
      assert keys - {p} + {p} == keys;
    }
  }

  /** A report holds one line per entry: the line of each entry exactly
      once, and nothing else. */
  lemma NodeLinesExact(m: map<string, NodeCondition>)
    ensures |NodeLines(m)| == |m|
    ensures forall n, c :: NodeLines(m)[NodeLine(n, c)] == if n in m && m[n] == c then 1 else 0
  {
    NodeLinesOfSize(m, m.Keys);
  }

  lemma {:induction false} NodeLinesOfSize(m: map<string, NodeCondition>, keys: set<string>)
    requires keys <= m.Keys
    ensures |NodeLinesOf(m, keys)| == |keys|
    decreases keys
  {
    if keys != {} {
      var n :| n in keys;
      NodeLinesOfSize(m, keys - {n});
      NodeLinesAdd(m, keys - {n}, n);
      assert keys - {n} + {n} == keys;
    }
  }
}
