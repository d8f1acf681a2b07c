/**
 The bootkube status controller: the object polled while a self-hosted
 control plane comes up. It reads point-in-time views of the pod and node
 stores, decides whether all watched pods are Running and all nodes Ready,
 and remembers the last snapshots so that status lines are printed only
 when something changed.
 */
module Status {
  import opened Kube
  import opened Snapshot

  /** The message of the error returned when the poll deadline passes. */
  const TimeoutError: string := "error while checking pod status: timed out waiting for the condition"

  class StatusController {
    /** Pod-name prefixes of the control-plane pods to wait for. */
    const watchPods: seq<string>
    /** The pod and node stores as the informers currently hold them. The
        informers, not the controller, assign these. */
    var podStore: PodStore
    var nodeStore: seq<Node>
    /** The snapshots seen by the last successful checks; None stands for
        the nil map before the first one. */
    var lastPodPhases: Option<map<string, PodPhase>>
    var lastNodeConditions: Option<map<string, NodeCondition>>
    /** Every status line printed so far. */
    ghost var output: seq<Line>

    /** A controller whose informers have started with the given stores. */
    constructor (pods: seq<string>, pods0: PodStore, nodes0: seq<Node>)
      ensures watchPods == pods && podStore == pods0 && nodeStore == nodes0
      ensures lastPodPhases == None && lastNodeConditions == None
      ensures output == []
    {
      watchPods := pods;
      podStore := pods0;
      nodeStore := nodes0;
      lastPodPhases := None;
      lastNodeConditions := None;
      output := [];
    }

    /** The pod snapshot: each watched name resolved to the first store key
        it prefixes and looked up; a store error aborts. */
    method PodStatus() returns (r: Result<map<string, PodPhase>>)
      ensures r == PodSnapshot(watchPods, podStore)
    {
      var status: map<string, PodPhase> := map[];
      var podNames := podStore.keys;
      ghost var resolved := ResolveAll(watchPods, podNames);
      var i := 0;
      while i < |watchPods|
        invariant 0 <= i <= |watchPods|
        invariant Collect(resolved[..i], podStore) == Ok(status)
      {
        var watchedPod := watchPods[i];
        var j := 0;
        while j < |podNames|
          invariant 0 <= j <= |podNames|
          invariant watchedPod == watchPods[i]
          invariant forall l | 0 <= l < j :: !(watchPods[i] <= podNames[l])
        {
          if watchPods[i] <= podNames[j] {
            watchedPod := podNames[j];
            break;
          }
          j := j + 1;
        }
        assert watchedPod == resolved[i];
        CollectStep(resolved, podStore, i);
        match podStore.Get(watchedPod) {
          case Failed(e) =>
            CollectStaysFailed(resolved, podStore, i + 1);
            return Err(e);
          case Absent =>
            status := status[watchedPod := DoesNotExist];
          case Found(Pod(phase)) =>
            status := status[watchedPod := phase];
          case Found(NotAPod) =>
        }
        i := i + 1;
      }
      assert resolved[..i] == resolved;
      return Ok(status);
    }

    /** The node snapshot: each node's first Ready condition under its name. */
    method NodeStatus() returns (status: map<string, NodeCondition>)
      ensures status == NodeSnapshot(nodeStore)
    {
      status := map[];
      var nodes := nodeStore;
      var i := 0;
      while i < |nodes|
        invariant 0 <= i <= |nodes|
        invariant NodeSnapshot(nodes[..i]) == status
      {
        var node := nodes[i];
        var j := 0;
        while j < |node.conditions|
          invariant 0 <= j <= |node.conditions|
          invariant j <= FirstReady(node.conditions)
          invariant status == NodeSnapshot(nodes[..i])
        {
          var condition := node.conditions[j];
          if condition.kind == NodeReady {
            status := status[node.name := condition];
            break;
          }
          j := j + 1;
        }
        assert FirstReady(node.conditions) == j;
        NodeSnapshotStep(nodes, i);
        i := i + 1;
      }
      assert nodes[..i] == nodes;
    }

    /** Are all watched pods Running? Reports the snapshot when it differs
        from the stored one and then stores it; a store error answers false
        and changes nothing. */
    method AllPodsRunning() returns (running: bool)
      modifies this`lastPodPhases, this`output
      ensures running == PodsReady(watchPods, podStore)
      ensures lastPodPhases ==
        if PodSnapshot(watchPods, podStore).Ok? then Some(PodSnapshot(watchPods, podStore).value)
        else old(lastPodPhases)
      ensures Appended(old(output), output, PodReport(old(lastPodPhases), PodSnapshot(watchPods, podStore)))
    {
      var r := PodStatus();
      if r.Err? {
        return false;
      }
      var ps := r.value;
      ghost var last := lastPodPhases;
      if lastPodPhases.None? {
        lastPodPhases := Some(ps);
      }
      var changed := lastPodPhases.value != ps;
      lastPodPhases := Some(ps);

      ghost var emitted;
      running, emitted := ScanPodPhases(ps, changed);
      AppendedBatch(output, emitted, PodReport(last, r));
      output := output + emitted;
    }

    /** Do all nodes have a Ready condition with status True? Reports the
        snapshot when it differs from the stored one and then stores it. */
    method AllNodesReady() returns (running: bool)
      modifies this`lastNodeConditions, this`output
      ensures running == NodesReady(nodeStore)
      ensures lastNodeConditions == Some(NodeSnapshot(nodeStore))
      ensures Appended(old(output), output, NodeReport(old(lastNodeConditions), NodeSnapshot(nodeStore)))
    {
      var ns := NodeStatus();
      ghost var last := lastNodeConditions;
      if lastNodeConditions.None? {
        lastNodeConditions := Some(ns);
      }
      var changed := lastNodeConditions.value != ns;
      lastNodeConditions := Some(ns);

      ghost var emitted;
      running, emitted := ScanNodeConditions(ns, changed);
      AppendedBatch(output, emitted, NodeReport(last, ns));
      output := output + emitted;
    }

    /** The polled predicate: pods first, nodes only when all pods run. The
        error result is always None. */
    method AllRunning() returns (running: bool, err: Option<string>)
      modifies this`lastPodPhases, this`lastNodeConditions, this`output
      ensures err == None
      ensures running == ReadyAt(watchPods, View(podStore, nodeStore))
      ensures lastPodPhases ==
        if PodSnapshot(watchPods, podStore).Ok? then Some(PodSnapshot(watchPods, podStore).value)
        else old(lastPodPhases)
      ensures lastNodeConditions ==
        if PodsReady(watchPods, podStore) then Some(NodeSnapshot(nodeStore))
        else old(lastNodeConditions)
      ensures Appended(old(output), output,
        PodReport(old(lastPodPhases), PodSnapshot(watchPods, podStore)) +
        if PodsReady(watchPods, podStore) then NodeReport(old(lastNodeConditions), NodeSnapshot(nodeStore))
        else multiset{})
    {
      ghost var before := output;
      var podsRunning := AllPodsRunning();
      var nodesReady := false;
      if podsRunning {
        ghost var middle := output;
        nodesReady := AllNodesReady();
        AppendedTrans(before, middle, output,
          PodReport(old(lastPodPhases), PodSnapshot(watchPods, podStore)),
          NodeReport(old(lastNodeConditions), NodeSnapshot(nodeStore)));
      }
      running := podsRunning && nodesReady;
      err := None;
    }
  }

  /** Two pod checks against the same stores print exactly what the first
      one prints: the first stores the snapshot (or fails and changes
      nothing), so the second finds nothing changed. Both answer alike. */
  method RepeatedPodCheck(sc: StatusController) returns (first: bool, second: bool)
    modifies sc`lastPodPhases, sc`output
    ensures first == second == PodsReady(sc.watchPods, sc.podStore)
    ensures Appended(old(sc.output), sc.output, PodReport(old(sc.lastPodPhases), PodSnapshot(sc.watchPods, sc.podStore)))
  {
    ghost var start := sc.output;
    first := sc.AllPodsRunning();
    ghost var middle := sc.output;
    second := sc.AllPodsRunning();
    AppendedTrans(start, middle, sc.output,
      PodReport(old(sc.lastPodPhases), PodSnapshot(sc.watchPods, sc.podStore)), multiset{});
  }

  /** Two node checks against the same store print exactly what the first
      one prints, and answer alike. */
  method RepeatedNodeCheck(sc: StatusController) returns (first: bool, second: bool)
    modifies sc`lastNodeConditions, sc`output
    ensures first == second == NodesReady(sc.nodeStore)
    ensures Appended(old(sc.output), sc.output, NodeReport(old(sc.lastNodeConditions), NodeSnapshot(sc.nodeStore)))
  {
    ghost var start := sc.output;
    first := sc.AllNodesReady();
    ghost var middle := sc.output;
    second := sc.AllNodesReady();
    AppendedTrans(start, middle, sc.output,
      NodeReport(old(sc.lastNodeConditions), NodeSnapshot(sc.nodeStore)), multiset{});
  }

  /** The loop over a pod snapshot: prints each entry when `changed` (in
      map iteration order, which is unspecified) and answers whether every
      entry is Running. `lines` are the lines printed, in order. */
  method ScanPodPhases(ps: map<string, PodPhase>, changed: bool) returns (running: bool, ghost lines: seq<Line>)
    ensures running == AllRunningIn(ps)
    ensures multiset(lines) == if changed then PodLines(ps) else multiset{}
  {
    running := true;
    var remaining := ps.Keys;
    ghost var done: set<string> := {};
    lines := [];
    while remaining != {}
      invariant remaining <= ps.Keys && done == ps.Keys - remaining
      invariant running == forall p | p in done :: ps[p] == PodRunning
      invariant multiset(lines) == if changed then PodLinesOf(ps, done) else multiset{}
      decreases remaining
    {
      var p :| p in remaining;
      var phase := ps[p];
      if changed {
        PodLinesAdd(ps, done, p);
        lines := lines + [PodLine(p, phase)];
      }
      if phase != PodRunning {
        running := false;
      }
      remaining := remaining - {p};
      done := done + {p};
    }
    assert done == ps.Keys;
  }

  /** The loop over a node snapshot: prints each entry when `changed` and
      answers whether every entry has status True. */
  method ScanNodeConditions(ns: map<string, NodeCondition>, changed: bool) returns (running: bool, ghost lines: seq<Line>)
    ensures running == AllReadyIn(ns)
    ensures multiset(lines) == if changed then NodeLines(ns) else multiset{}
  {
    running := true;
    var remaining := ns.Keys;
    ghost var done: set<string> := {};
    lines := [];
    while remaining != {}
      invariant remaining <= ns.Keys && done == ns.Keys - remaining
      invariant running == forall n | n in done :: ns[n].status == ConditionTrue
      invariant multiset(lines) == if changed then NodeLinesOf(ns, done) else multiset{}
      decreases remaining
    {
      var node :| node in remaining;
      var condition := ns[node];
      if changed {
        NodeLinesAdd(ns, done, node);
        lines := lines + [NodeLine(node, condition)];
      }
      if condition.status != ConditionTrue {
        running := false;
      }
      assert running == forall n | n in done + {node} :: ns[n].status == ConditionTrue;
      remaining := remaining - {node};
      done := done + {node};
    }
    assert done == ns.Keys;
  }

  /** What the pod and node stores hold at one poll. */
  datatype View = View(pods: PodStore, nodes: seq<Node>)

  /** Whether the controller answers true against a view: all watched
      pods Running and all nodes Ready. */
  predicate ReadyAt(watch: seq<string>, view: View): (b: bool)
    ensures b ==> PodSnapshot(watch, view.pods).Ok?
    ensures watch == [] ==> (b <==> NodesReady(view.nodes))
  {
    PodsReady(watch, view.pods) && NodesReady(view.nodes)
  }

  /** One poll tick: the informers have brought the stores to `view`, then
      the controller is evaluated. */
  method PollTick(sc: StatusController, view: View) returns (running: bool)
    modifies sc`podStore, sc`nodeStore, sc`lastPodPhases, sc`lastNodeConditions, sc`output
    ensures running == ReadyAt(sc.watchPods, view)
    ensures sc.podStore == view.pods && sc.nodeStore == view.nodes
    ensures sc.lastPodPhases ==
      if PodSnapshot(sc.watchPods, view.pods).Ok? then Some(PodSnapshot(sc.watchPods, view.pods).value)
      else old(sc.lastPodPhases)
    ensures sc.lastNodeConditions ==
      if PodsReady(sc.watchPods, view.pods) then Some(NodeSnapshot(view.nodes))
      else old(sc.lastNodeConditions)
    ensures Appended(old(sc.output), sc.output,
      PodReport(old(sc.lastPodPhases), PodSnapshot(sc.watchPods, view.pods)) +
      if PodsReady(sc.watchPods, view.pods) then NodeReport(old(sc.lastNodeConditions), NodeSnapshot(view.nodes))
      else multiset{})
  {
    sc.podStore, sc.nodeStore := view.pods, view.nodes;
    var err;
    running, err := sc.AllRunning();
  }

  /** The poll loop: one evaluation per tick against the stores as they
      are at that tick, stopping at the first true answer; running out of
      ticks before the deadline is the timeout error. `polls` is the number
      of evaluations made. */
  method WaitUntilPodsRunning(pods: seq<string>, ticks: seq<View>) returns (err: Option<string>, polls: nat)
    ensures polls <= |ticks|
    ensures forall t | 0 <= t < polls - 1 :: !ReadyAt(pods, ticks[t])
    ensures err == None <==> exists t | 0 <= t < |ticks| :: ReadyAt(pods, ticks[t])
    ensures err == None ==> 0 < polls && ReadyAt(pods, ticks[polls - 1])
    ensures err != None ==> err == Some(TimeoutError) && polls == |ticks|
  {
    if |ticks| == 0 {
      return Some(TimeoutError), 0;
    }
    var sc := new StatusController(pods, ticks[0].pods, ticks[0].nodes);
    polls := 0;
    while polls < |ticks|
      invariant polls <= |ticks|
      invariant sc.watchPods == pods
      invariant forall t | 0 <= t < polls :: !ReadyAt(pods, ticks[t])
    {
      var running := PollTick(sc, ticks[polls]);
      if running {
        return None, polls + 1;
      }
      polls := polls + 1;
    }
    return Some(TimeoutError), polls;
  }
}
