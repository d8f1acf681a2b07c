/**
 Concrete situations the controller is expected to handle: prefix
 resolution, a missing pod, an ambiguous prefix, and whole evaluations.
 */
module Scenarios {
  import opened Kube
  import opened Snapshot
  import opened Status

  function SampleStore(): PodStore
  {
    PodStore(["etcd-abcde", "kube-scheduler-xyz"],
      map["etcd-abcde" := Pod("Running"), "kube-scheduler-xyz" := Pod("Pending")], map[])
  }

  function ReadyNode(name: string, status: string): Node
  {
    Node(name, [NodeCondition("MemoryPressure", "False", 0, 0, "", ""),
                NodeCondition(NodeReady, status, 0, 0, "KubeletReady", "")])
  }

  /** A watched prefix is reported under the full pod name it resolves to. */
  lemma PrefixResolution()
    ensures PodSnapshot(["etcd"], SampleStore()) == Ok(map["etcd-abcde" := "Running"])
  {
  }

  /** A watched name no key starts with is reported as DoesNotExist. */
  lemma MissingPod()
    ensures PodSnapshot(["missing-pod"], SampleStore()) == Ok(map["missing-pod" := DoesNotExist])
    ensures !PodsReady(["missing-pod"], SampleStore())
  {
    var keys := SampleStore().keys;
    assert "missing-pod"[0] != keys[0][0] && "missing-pod"[0] != keys[1][0];
    assert keys[1..][1..] == [];
    assert FirstPrefixed("missing-pod", keys) == 2;
  }

  /** Two keys share the prefix: the first in key order wins. */
  lemma AmbiguousPrefix()
    ensures Resolve("kube-apiserver", ["kube-apiserver-proxy-1", "kube-apiserver-2"]) == "kube-apiserver-proxy-1"
    ensures Resolve("kube-apiserver", ["kube-apiserver", "kube-apiserver-2"]) == "kube-apiserver"
  {
  }

  /** One running pod and one ready node: the controller answers true. */
  lemma EndToEndReady()
    ensures ReadyAt(["etcd"], View(PodStore(["etcd-1"], map["etcd-1" := Pod(PodRunning)], map[]),
                                   [ReadyNode("node1", ConditionTrue)]))
  {
    var store := PodStore(["etcd-1"], map["etcd-1" := Pod(PodRunning)], map[]);
    assert Resolve("etcd", store.keys) == "etcd-1";
    var names := ResolveAll(["etcd"], store.keys);
    assert names == ["etcd-1"] && names[..0] == [];
    assert store.Get("etcd-1") == Found(Pod(PodRunning));
    assert PodSnapshot(["etcd"], store) == Ok(map["etcd-1" := PodRunning]);
    var nodes := [ReadyNode("node1", ConditionTrue)];
    assert NodeSnapshot(nodes) == map["node1" := nodes[0].conditions[1]];
  }

  /** A node whose Ready condition is False holds the answer back. */
  lemma NodeNotReady()
    ensures !ReadyAt(["etcd"], View(SampleStore(), [ReadyNode("node1", ConditionTrue), ReadyNode("node2", "False")]))
  {
    var nodes := [ReadyNode("node1", ConditionTrue), ReadyNode("node2", "False")];
    assert nodes[..1] == [nodes[0]];
    assert ReadyCondition(nodes[1].conditions) == Some(nodes[1].conditions[1]);
    assert NodeSnapshot(nodes)["node2"].status == "False";
  }
}
