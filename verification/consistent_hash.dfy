/** Consistent-hash queue allocation: each consumer places a fixed number of
    virtual nodes on a hash ring, each queue is hashed onto the same ring and
    belongs to the consumer of the nearest virtual node clockwise.

    The hash function is not modelled: a `Ring` carries the position of every
    virtual node and of every queue as uninterpreted functions. The stability
    properties are proved for any such functions that give the virtual nodes
    distinct positions.
 */
module ConsistentHash {
  import opened Wrappers
  import opened MessageQueues

  /** Virtual nodes per consumer, as the strategy is built for the allocation tests. */
  const VirtualNodeCount: nat := 3

  /** Replica `replica` of consumer `cid` on the ring. */
  datatype VirtualNode = VirtualNode(cid: string, replica: nat)

  /** Positions on the ring of virtual nodes and of queues. */
  datatype Ring = Ring(nodePosition: VirtualNode -> int, queuePosition: MessageQueue -> int)

  /** The `IllegalArgumentException`s of `allocate`. */
  datatype AllocateError = CurrentCidEmpty | MqAllEmpty | CidAllEmpty

  /** The virtual nodes of one consumer, replica 0 first. */
  function Replicas(cid: string, n: nat): (r: seq<VirtualNode>)
    ensures |r| == n
    ensures forall i :: 0 <= i < n ==> r[i] == VirtualNode(cid, i)
  {
    if n == 0 then [] else Replicas(cid, n - 1) + [VirtualNode(cid, n - 1)]
  }

  /** The ring of a consumer list: every replica of every listed consumer. */
  function VirtualNodes(cids: seq<string>): (r: seq<VirtualNode>)
    ensures forall v :: v in r <==> v.cid in cids && v.replica < VirtualNodeCount
  {
    if |cids| == 0 then []
    else
      var r := VirtualNodes(cids[..|cids| - 1]) + Replicas(cids[|cids| - 1], VirtualNodeCount);
      assert cids == cids[..|cids| - 1] + [cids[|cids| - 1]];
      assert forall v :: v in Replicas(cids[|cids| - 1], VirtualNodeCount) ==> v.replica < VirtualNodeCount;
      r
  }

  /** Walking clockwise from key position `k`, position `p` is met strictly
      before position `q`: positions at or after `k` come first in increasing
      order, then the ring wraps to the positions below `k`. */
  predicate Before(k: int, p: int, q: int) {
    if (p >= k) == (q >= k) then p < q else p >= k
  }

  /** No two distinct virtual nodes of `nodes` share a ring position. */
  ghost predicate DistinctOn(ring: Ring, nodes: seq<VirtualNode>) {
    forall a, b :: a in nodes && b in nodes && a != b ==> ring.nodePosition(a) != ring.nodePosition(b)
  }

  /** No two distinct virtual nodes of the consumers share a ring position. */
  ghost predicate DistinctPositions(ring: Ring, cids: seq<string>) {
    DistinctOn(ring, VirtualNodes(cids))
  }

  /** The first virtual node met clockwise from key position `k`; of nodes at
      the same position the earliest in `nodes` wins. */
  function Route(ring: Ring, k: int, nodes: seq<VirtualNode>): (r: Option<VirtualNode>)
    ensures r.None? <==> |nodes| == 0
    ensures r.Some? ==> r.value in nodes
    ensures r.Some? ==> forall v :: v in nodes ==> !Before(k, ring.nodePosition(v), ring.nodePosition(r.value))
  {
    if |nodes| == 0 then None
    else
      var rest := Route(ring, k, nodes[1..]);
      assert forall v :: v in nodes ==> v == nodes[0] || v in nodes[1..];
      if rest.Some? && Before(k, ring.nodePosition(rest.value), ring.nodePosition(nodes[0])) then rest
      else Some(nodes[0])
  }

  /** The consumer that owns queue `q`, if the list has any consumer. */
  function Owner(ring: Ring, q: MessageQueue, cids: seq<string>): (r: Option<string>)
    ensures r.None? <==> |cids| == 0
    ensures r.Some? ==> r.value in cids
  {
    assert |cids| > 0 ==> VirtualNode(cids[0], 0) in VirtualNodes(cids);
    match Route(ring, ring.queuePosition(q), VirtualNodes(cids))
    case None => None
    case Some(v) => Some(v.cid)
  }

  /** The queues of `mqs` owned by `cid`, in their original order. */
  function OwnedBy(ring: Ring, cid: string, mqs: seq<MessageQueue>, cids: seq<string>): (r: seq<MessageQueue>)
    ensures forall q :: q in r <==> q in mqs && Owner(ring, q, cids) == Some(cid)
  {
    if |mqs| == 0 then []
    else
      var rest := OwnedBy(ring, cid, mqs[1..], cids);
      assert forall q :: q in mqs <==> q == mqs[0] || q in mqs[1..];
      if Owner(ring, mqs[0], cids) == Some(cid) then [mqs[0]] + rest else rest
  }

  /** `allocate(consumerGroup, currentCID, mqAll, cidAll)`. The group name is
      only logged and is left out. */
  function Allocate(ring: Ring, currentCID: string, mqAll: Option<seq<MessageQueue>>,
                    cidAll: Option<seq<string>>): (r: Result<seq<MessageQueue>, AllocateError>)
    ensures r.Failure? <==>
      |currentCID| == 0 || mqAll.None? || |mqAll.value| == 0 || cidAll.None? || |cidAll.value| == 0
    ensures |currentCID| == 0 ==> r == Failure(CurrentCidEmpty)
    ensures r.Success? ==> forall q :: q in r.value ==> q in mqAll.value
    ensures r.Success? && currentCID !in cidAll.value ==> r.value == []
    ensures r.Success? ==> forall q :: q in r.value <==>
      q in mqAll.value && Owner(ring, q, cidAll.value) == Some(currentCID)
  {
    if |currentCID| == 0 then Failure(CurrentCidEmpty)
    else if mqAll.None? || |mqAll.value| == 0 then Failure(MqAllEmpty)
    else if cidAll.None? || |cidAll.value| == 0 then Failure(CidAllEmpty)
    else if currentCID !in cidAll.value then Success([])
    else Success(OwnedBy(ring, currentCID, mqAll.value, cidAll.value))
  }

  /** Coverage and exclusivity: with a non-empty consumer list every queue is
      allocated to the consumer that owns it, and to no other consumer, so the
      allocations of all consumers together contain exactly the queues. */
  lemma AllocationPartitionsQueues(ring: Ring, mqAll: seq<MessageQueue>, cids: seq<string>)
    requires |mqAll| > 0 && |cids| > 0
    requires forall c :: c in cids ==> |c| > 0
    ensures forall q :: q in mqAll ==>
      && Owner(ring, q, cids).value in cids
      && q in Allocate(ring, Owner(ring, q, cids).value, Some(mqAll), Some(cids)).value
    ensures forall c, q :: c in cids && q in Allocate(ring, c, Some(mqAll), Some(cids)).value ==>
      q in mqAll && Owner(ring, q, cids) == Some(c)
  {
  }

  /** If `v` is reached first among `nodes` and positions are distinct,
      routing over `nodes` picks `v` whatever the order of `nodes`. */
  lemma RouteIsClockwiseMinimum(ring: Ring, k: int, nodes: seq<VirtualNode>, v: VirtualNode)
    requires DistinctOn(ring, nodes)
    requires v in nodes
    requires forall w :: w in nodes ==> !Before(k, ring.nodePosition(w), ring.nodePosition(v))
    ensures Route(ring, k, nodes) == Some(v)
  {
    var u := Route(ring, k, nodes).value;
    assert !Before(k, ring.nodePosition(u), ring.nodePosition(v));
    assert !Before(k, ring.nodePosition(v), ring.nodePosition(u));
    assert ring.nodePosition(u) == ring.nodePosition(v);
  }

  /** The owner of a queue depends on the set of consumers only, not on the
      order of the list nor on repetitions, as long as positions are distinct. */
  lemma OwnerDependsOnConsumerSetOnly(ring: Ring, q: MessageQueue, cids: seq<string>, cids': seq<string>)
    requires forall c :: c in cids <==> c in cids'
    requires DistinctPositions(ring, cids)
    ensures Owner(ring, q, cids) == Owner(ring, q, cids')
  {
    if |cids| > 0 {
      assert cids[0] in cids';
      var k := ring.queuePosition(q);
      var u := Route(ring, k, VirtualNodes(cids)).value;
      RouteIsClockwiseMinimum(ring, k, VirtualNodes(cids'), u);
    } else {
      assert forall i :: 0 <= i < |cids'| ==> cids'[i] in cids;
    }
  }

  /** The queue-to-consumer map the allocation test accumulates from the
      allocations of all consumers. */
  function Assignment(ring: Ring, mqAll: seq<MessageQueue>, cids: seq<string>): map<MessageQueue, string> {
    map q | q in mqAll && |cids| > 0 :: Owner(ring, q, cids).value
  }

  /** `verifyAfterRemove`: every queue not owned by the removed consumer keeps its owner. */
  ghost predicate KeptUnlessRemoved(before: map<MessageQueue, string>, after: map<MessageQueue, string>,
                                    removed: string) {
    forall q :: q in before && before[q] != removed ==> q in after && after[q] == before[q]
  }

  /** `verifyAfterAdd`: every queue not owned by the new consumer had the same owner before. */
  ghost predicate MovedOnlyToNew(before: map<MessageQueue, string>, after: map<MessageQueue, string>,
                                 added: string) {
    forall q :: q in after && after[q] != added ==> q in before && before[q] == after[q]
  }

  /** Removing one consumer reassigns only the queues it owned. */
  lemma AfterRemove(ring: Ring, mqAll: seq<MessageQueue>, cids: seq<string>, cids': seq<string>, removed: string)
    requires forall c :: c in cids' <==> c in cids && c != removed
    requires DistinctPositions(ring, cids)
    ensures KeptUnlessRemoved(Assignment(ring, mqAll, cids), Assignment(ring, mqAll, cids'), removed)
  {
    var before := Assignment(ring, mqAll, cids);
    var after := Assignment(ring, mqAll, cids');
    forall q | q in before && before[q] != removed
      ensures q in after && after[q] == before[q]
    {
      var k := ring.queuePosition(q);
      var u := Route(ring, k, VirtualNodes(cids)).value;
      assert u.cid == before[q];
      assert u in VirtualNodes(cids');
      assert DistinctOn(ring, VirtualNodes(cids'));
      RouteIsClockwiseMinimum(ring, k, VirtualNodes(cids'), u);
    }
  }

  /** Adding one consumer moves queues only to that consumer. */
  lemma AfterAdd(ring: Ring, mqAll: seq<MessageQueue>, cids: seq<string>, cids': seq<string>, added: string)
    requires forall c :: c in cids' <==> c in cids || c == added
    requires DistinctPositions(ring, cids')
    ensures MovedOnlyToNew(Assignment(ring, mqAll, cids), Assignment(ring, mqAll, cids'), added)
  {
    var before := Assignment(ring, mqAll, cids);
    var after := Assignment(ring, mqAll, cids');
    forall q | q in after && after[q] != added
      ensures q in before && before[q] == after[q]
    {
      var k := ring.queuePosition(q);
      var u := Route(ring, k, VirtualNodes(cids')).value;
      assert u.cid == after[q];
      assert u in VirtualNodes(cids);
      assert DistinctOn(ring, VirtualNodes(cids));
      RouteIsClockwiseMinimum(ring, k, VirtualNodes(cids), u);
    }
  }

  /** `verifyAllocateAll`: with no consumers nothing is allocated; otherwise the
      allocated queues and the queue list contain each other. */
  ghost predicate AllocatedAll(cids: seq<string>, mqAll: seq<MessageQueue>, allocatedRes: seq<MessageQueue>) {
    if |cids| == 0 then |allocatedRes| == 0
    else (forall q :: q in allocatedRes ==> q in mqAll) && (forall q :: q in mqAll ==> q in allocatedRes)
  }

  /** What one round of the allocation test collects from every consumer. */
  datatype Round = Round(allocatedRes: seq<MessageQueue>, assignment: map<MessageQueue, string>)

  /** The assignment after the first `i` consumers of the list have been asked. */
  function PartialAssignment(ring: Ring, mqAll: seq<MessageQueue>, cids: seq<string>, i: nat): map<MessageQueue, string>
    requires i <= |cids|
  {
    map q | q in mqAll && |cids| > 0 && Owner(ring, q, cids).value in cids[..i] :: Owner(ring, q, cids).value
  }

  /** Asking consumer `i` adds exactly the queues it owns to the assignment,
      and the collected queues stay the assignment's keys. */
  lemma PartialAssignmentStep(ring: Ring, mqAll: seq<MessageQueue>, cids: seq<string>, i: nat,
                              allocatedRes: seq<MessageQueue>)
    requires i < |cids| && |mqAll| > 0 && |cids[i]| > 0
    requires forall q :: q in allocatedRes <==> q in PartialAssignment(ring, mqAll, cids, i)
    ensures Allocate(ring, cids[i], Some(mqAll), Some(cids)).Success?
    ensures var rs := Allocate(ring, cids[i], Some(mqAll), Some(cids)).value;
      && PartialAssignment(ring, mqAll, cids, i) + (map q | q in rs :: cids[i])
         == PartialAssignment(ring, mqAll, cids, i + 1)
      && forall q :: q in allocatedRes + rs <==> q in PartialAssignment(ring, mqAll, cids, i + 1)
  {
    assert cids[..i + 1] == cids[..i] + [cids[i]];
    var rs := Allocate(ring, cids[i], Some(mqAll), Some(cids)).value;
    assert forall q :: q in allocatedRes + rs <==> q in allocatedRes || q in rs;
  }

  /** After every consumer was asked, the collected queues are all the
      queues and the assignment is that of the whole list. */
  lemma RoundComplete(ring: Ring, mqAll: seq<MessageQueue>, cids: seq<string>, allocatedRes: seq<MessageQueue>)
    requires forall j :: 0 <= j < |cids| ==> |cids[j]| > 0
    requires |cids| > 0 ==> |mqAll| > 0
    requires |cids| == 0 ==> allocatedRes == []
    requires forall q :: q in allocatedRes <==> q in PartialAssignment(ring, mqAll, cids, |cids|)
    ensures PartialAssignment(ring, mqAll, cids, |cids|) == Assignment(ring, mqAll, cids)
    ensures AllocatedAll(cids, mqAll, allocatedRes)
  {
    assert cids[..|cids|] == cids;
  }

  /** The loop body of a round: ask consumer `i` and record its queues. */
  method AskConsumer(ring: Ring, mqAll: seq<MessageQueue>, cids: seq<string>, i: nat,
                     allocatedRes: seq<MessageQueue>, assignment: map<MessageQueue, string>)
    returns (next: Result<(seq<MessageQueue>, map<MessageQueue, string>), AllocateError>)
    requires i < |cids|
    requires assignment == PartialAssignment(ring, mqAll, cids, i)
    requires forall q :: q in allocatedRes <==> q in assignment
    ensures next.Failure? <==> |cids[i]| == 0 || |mqAll| == 0
    ensures next.Success? ==> next.value.1 == PartialAssignment(ring, mqAll, cids, i + 1)
    ensures next.Success? ==> forall q :: q in next.value.0 <==> q in next.value.1
  {
    var cid := cids[i];
    var rs := Allocate(ring, cid, Some(mqAll), Some(cids));
    if rs.Failure? {
      return Failure(rs.error);
    }
    PartialAssignmentStep(ring, mqAll, cids, i, allocatedRes);
    return Success((allocatedRes + rs.value, assignment + (map q | q in rs.value :: cid)));
  }

  /** One round of the allocation test: call `allocate` for each consumer in
      turn, concatenate the results and record each queue's consumer. An
      `IllegalArgumentException` ends the round. */
  method AllocateRound(ring: Ring, mqAll: seq<MessageQueue>, cids: seq<string>)
    returns (r: Result<Round, AllocateError>)
    ensures r.Failure? <==> |cids| > 0 && (|mqAll| == 0 || exists c :: c in cids && |c| == 0)
    ensures r.Success? ==> AllocatedAll(cids, mqAll, r.value.allocatedRes)
    ensures r.Success? ==> r.value.assignment == Assignment(ring, mqAll, cids)
  {
    var allocatedRes: seq<MessageQueue> := [];
    var assignment: map<MessageQueue, string> := map[];
    var i := 0;
    while i < |cids|
      invariant 0 <= i <= |cids|
      invariant forall j :: 0 <= j < i ==> |cids[j]| > 0
      invariant i > 0 ==> |mqAll| > 0
      invariant i == 0 ==> allocatedRes == []
      invariant assignment == PartialAssignment(ring, mqAll, cids, i)
      invariant forall q :: q in allocatedRes <==> q in assignment
    {
      var next := AskConsumer(ring, mqAll, cids, i, allocatedRes, assignment);
      if next.Failure? {
        assert cids[i] in cids;
        return Failure(next.error);
      }
      allocatedRes, assignment := next.value.0, next.value.1;
      i := i + 1;
    }
    RoundComplete(ring, mqAll, cids, allocatedRes);
    return Success(Round(allocatedRes, assignment));
  }
}
