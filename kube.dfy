/**
 The slice of the Kubernetes API that the bootkube status controller reads:
 pod phases, node conditions, and point-in-time views of the two informer
 stores (pods and nodes).
 */
module Kube {

  datatype Option<T> = None | Some(value: T)

  datatype Result<T> = Ok(value: T) | Err(error: string)

  /** A pod phase is a plain string in the API (Pending, Running, ...). */
  type PodPhase = string

  const PodRunning: PodPhase := "Running"

  /** Sentinel phase recorded for a watched pod the pod store does not hold. */
  const DoesNotExist: PodPhase := "DoesNotExist"

  /** Condition type of the node condition the controller looks at. */
  const NodeReady: string := "Ready"

  /** Condition status that counts as ready. */
  const ConditionTrue: string := "True"

  /** An item of the pod store. The store is untyped, so an item may fail
      the type assertion to a pod. */
  datatype StoredObject = Pod(phase: PodPhase) | NotAPod

  /** Outcome of GetByKey: the item, "no such key", or a store error. */
  datatype Lookup = Found(item: StoredObject) | Absent | Failed(error: string)

  /** A point-in-time view of the pod store: ListKeys() in the order the
      store returns them, the items it holds by key, and the keys whose
      lookup fails with a store error. */
  datatype PodStore = PodStore(keys: seq<string>, items: map<string, StoredObject>, failures: map<string, string>)
  {
    /** GetByKey: a store error first, then the item, else "no such key". */
    function Get(key: string): (r: Lookup)
      ensures r.Failed? <==> key in failures
      ensures r.Absent? <==> key !in failures && key !in items
      ensures r.Found? ==> r.item == items[key]
    {
      if key in failures then Failed(failures[key])
      else if key in items then Found(items[key])
      else Absent
    }
  }

  /** A node condition. The two timestamps stand for the API's heartbeat
      and transition times; they take part in the structural comparison
      used for change detection. */
  datatype NodeCondition = NodeCondition(
    kind: string,
    status: string,
    lastHeartbeatTime: int,
    lastTransitionTime: int,
    reason: string,
    message: string)

  /** A node as listed by the node store: its name and its condition list
      in API order. */
  datatype Node = Node(name: string, conditions: seq<NodeCondition>)

  /** A user-visible status line, reduced to the entry it reports. */
  datatype Line = PodLine(pod: string, phase: PodPhase) | NodeLine(node: string, condition: NodeCondition)
}
