/** internal/dht/routing/table.go:176-224: what the failure counter and the time stamp of a stored node mean. */
module Bookkeeping {
  import opened NodeIDs
  import opened Buckets
  import opened Tables

  /** What is on record about a contact. */
  datatype Record = Record(failures: int, seen: int)

  /**
   * The record of `id` by the history of operations alone: set by its last accepted insertion; a failure counts one
   * more, a success starts again from zero and notes the time.
   */
  function RecordOf(self: NodeID, ops: seq<Op>, id: NodeID): Record {
    if ops == [] then Record(0, 0)
    else
      var front, op := ops[..|ops| - 1], ops[|ops| - 1];
      var r := RecordOf(self, front, id);
      match op
      case Insert(n) => if n.id == id && Accepts(Exec(self, front), n) then Record(n.failCount, n.lastSeen) else r
      case Remove(_) => r
      case RecordFailure(q) => if q == id then r.(failures := r.failures + 1) else r
      case RecordSuccess(q, now) => if q == id then Record(0, now) else r
  }

  ghost predicate Agrees(self: NodeID, ops: seq<Op>, n: Node) {
    n.failCount == RecordOf(self, ops, n.id).failures && n.lastSeen == RecordOf(self, ops, n.id).seen
  }

  ghost predicate AllAgree(self: NodeID, ops: seq<Op>, nodes: seq<Node>) {
    forall n :: n in nodes ==> Agrees(self, ops, n)
  }

  lemma Untouched(self: NodeID, ops: seq<Op>, n: Node)
    requires ops != [] && Agrees(self, ops[..|ops| - 1], n)
    requires (if ops[|ops| - 1].Insert? then ops[|ops| - 1].node.id else ops[|ops| - 1].id) != n.id || ops[|ops| - 1].Remove?
    ensures Agrees(self, ops, n)
  {
    hide Exec, Accepts;
  }

  lemma Refused(self: NodeID, ops: seq<Op>, n: Node)
    requires ops != [] && Agrees(self, ops[..|ops| - 1], n) && ops[|ops| - 1].Insert?
    requires !Accepts(Exec(self, ops[..|ops| - 1]), ops[|ops| - 1].node)
    ensures Agrees(self, ops, n)
  {
    hide Exec, Accepts;
  }

  lemma InsertAgrees(self: NodeID, ops: seq<Op>, nodes: seq<Node>)
    requires ops != [] && ops[|ops| - 1].Insert? && DistinctIDs(nodes) && AllAgree(self, ops[..|ops| - 1], nodes)
    requires Accepts(Exec(self, ops[..|ops| - 1]), ops[|ops| - 1].node) <==> InsertOutcome(nodes, ops[|ops| - 1].node).Inserted?
    ensures AllAgree(self, ops, InsertNodes(nodes, ops[|ops| - 1].node))
  {
    hide Exec, Accepts, InsertNodes, InsertOutcome, Evicts, Agrees;
    var x := ops[|ops| - 1].node;
    RefusedExactly(nodes, x);
    forall n | n in InsertNodes(nodes, x) ensures Agrees(self, ops, n) {
      if InsertOutcome(nodes, x).Inserted? {
        AcceptedExactly(nodes, x);
        if n == x { Inserted(self, ops); } else { Untouched(self, ops, n); }
      } else {
        Refused(self, ops, n);
      }
    }
  }

  lemma Inserted(self: NodeID, ops: seq<Op>)
    requires ops != [] && ops[|ops| - 1].Insert? && Accepts(Exec(self, ops[..|ops| - 1]), ops[|ops| - 1].node)
    ensures Agrees(self, ops, ops[|ops| - 1].node)
  {
    hide Exec, Accepts;
  }

  lemma RemoveAgrees(self: NodeID, ops: seq<Op>, nodes: seq<Node>)
    requires ops != [] && ops[|ops| - 1].Remove? && DistinctIDs(nodes) && AllAgree(self, ops[..|ops| - 1], nodes)
    ensures AllAgree(self, ops, RemoveNodes(nodes, ops[|ops| - 1].id))
  {
    hide RemoveNodes, Agrees;
    RemoveMeaning(nodes, ops[|ops| - 1].id);
    forall n | n in RemoveNodes(nodes, ops[|ops| - 1].id) ensures Agrees(self, ops, n) {
      Untouched(self, ops, n);
    }
  }

  /** The node that is updated, and the others. */
  lemma UpdateAgrees(self: NodeID, ops: seq<Op>, nodes: seq<Node>, j: nat, x: Node)
    requires ops != [] && DistinctIDs(nodes) && AllAgree(self, ops[..|ops| - 1], nodes)
    requires j < |nodes| && x.id == nodes[j].id && Agrees(self, ops, x)
    requires !ops[|ops| - 1].Insert? && ops[|ops| - 1].id == x.id
    ensures AllAgree(self, ops, nodes[j := x])
  {
    hide Agrees;
    forall n | n in nodes[j := x] ensures Agrees(self, ops, n) {
      var k :| 0 <= k < |nodes| && nodes[j := x][k] == n;
      if k != j {
        assert nodes[k] in nodes && nodes[k].id != nodes[j].id;
        Untouched(self, ops, n);
      }
    }
  }

  /** If the identifier is not in the bucket, or its node is taken out, the others are untouched. */
  lemma OthersAgree(self: NodeID, ops: seq<Op>, nodes: seq<Node>, rest: seq<Node>)
    requires ops != [] && AllAgree(self, ops[..|ops| - 1], nodes) && !ops[|ops| - 1].Insert?
    requires forall n :: n in rest ==> n in nodes && n.id != ops[|ops| - 1].id
    ensures AllAgree(self, ops, rest)
  {
    hide Agrees;
    forall n | n in rest ensures Agrees(self, ops, n) {
      Untouched(self, ops, n);
    }
  }

  lemma FailureAgrees(self: NodeID, ops: seq<Op>, nodes: seq<Node>)
    requires ops != [] && ops[|ops| - 1].RecordFailure? && DistinctIDs(nodes) && AllAgree(self, ops[..|ops| - 1], nodes)
    ensures AllAgree(self, ops, Failed(nodes, ops[|ops| - 1].id))
  {
    hide Find, AllAgree, Without;
    var id := ops[|ops| - 1].id;
    var j := Find(nodes, id, 0);
    if j == |nodes| {
      OthersAgree(self, ops, nodes, nodes);
    } else {
      WithoutElements(nodes, j);
      OthersAgree(self, ops, nodes, Without(nodes, j));
      AgreeHere(self, ops[..|ops| - 1], nodes, j);
      UpdateAgrees(self, ops, nodes, j, nodes[j].(failCount := nodes[j].failCount + 1));
    }
  }

  lemma AgreeHere(self: NodeID, ops: seq<Op>, nodes: seq<Node>, j: nat)
    requires AllAgree(self, ops, nodes) && j < |nodes|
    ensures Agrees(self, ops, nodes[j])
  {
  }

  lemma SuccessAgrees(self: NodeID, ops: seq<Op>, nodes: seq<Node>)
    requires ops != [] && ops[|ops| - 1].RecordSuccess? && DistinctIDs(nodes) && AllAgree(self, ops[..|ops| - 1], nodes)
    ensures AllAgree(self, ops, Succeeded(nodes, ops[|ops| - 1].id, ops[|ops| - 1].now))
  {
    hide Find, AllAgree;
    var j := Find(nodes, ops[|ops| - 1].id, 0);
    if j == |nodes| {
      OthersAgree(self, ops, nodes, nodes);
    } else {
      UpdateAgrees(self, ops, nodes, j, nodes[j].(failCount := 0, lastSeen := ops[|ops| - 1].now));
    }
  }

  /** An operation on another bucket. */
  lemma ElsewhereAgrees(self: NodeID, ops: seq<Op>, nodes: seq<Node>, i: nat)
    requires ops != [] && BucketInv(self, i, nodes) && AllAgree(self, ops[..|ops| - 1], nodes)
    requires CommonBits(self, if ops[|ops| - 1].Insert? then ops[|ops| - 1].node.id else ops[|ops| - 1].id) != i
    ensures AllAgree(self, ops, nodes)
  {
    hide Agrees, CommonBits;
    forall n | n in nodes ensures Agrees(self, ops, n) {
      Untouched(self, ops, n);
    }
  }

  lemma StepAgrees(self: NodeID, ops: seq<Op>, t: Table, i: nat)
    requires ops != [] && i < ID_BITS && t == Exec(self, ops[..|ops| - 1]) && BucketInv(self, i, t.buckets[i])
    requires AllAgree(self, ops[..|ops| - 1], t.buckets[i])
    ensures AllAgree(self, ops, Apply(t, ops[|ops| - 1]).buckets[i])
  {
    hide CommonBits, AllAgree, Exec, InsertNodes, RemoveNodes, Failed, Succeeded, InsertOutcome;
    var op, nodes := ops[|ops| - 1], t.buckets[i];
    if CommonBits(self, if op.Insert? then op.node.id else op.id) != i {
      ElsewhereAgrees(self, ops, nodes, i);
    } else {
      match op {
        case Insert(_) => InsertAgrees(self, ops, nodes);
        case Remove(_) => RemoveAgrees(self, ops, nodes);
        case RecordFailure(_) => FailureAgrees(self, ops, nodes);
        case RecordSuccess(_, _) => SuccessAgrees(self, ops, nodes);
      }
    }
  }

  lemma {:induction false} AgreesInEveryRun(self: NodeID, ops: seq<Op>, i: nat)
    requires i < ID_BITS
    ensures AllAgree(self, ops, Exec(self, ops).buckets[i])
  {
    hide CommonBits, Agrees, Apply;
    if ops != [] {
      var front := ops[..|ops| - 1];
      AgreesInEveryRun(self, front, i);
      ExecInv(self, front);
      assert BucketInv(self, i, Exec(self, front).buckets[i]);
      StepAgrees(self, ops, Exec(self, front), i);
    }
  }

  // ----- Never five failures -----

  ghost predicate Below(nodes: seq<Node>) {
    forall n :: n in nodes ==> n.failCount < MAX_FAILURES
  }

  lemma StepBelow(self: NodeID, t: Table, op: Op, i: nat)
    requires Inv(t) && i < ID_BITS && Below(t.buckets[i]) && (op.Insert? ==> op.node.failCount < MAX_FAILURES)
    ensures Below(Apply(t, op).buckets[i])
  {
    hide CommonBits, InsertNodes, RemoveNodes, InsertOutcome, Evicts, Find, Without;
    var nodes := t.buckets[i];
    assert BucketInv(t.self, i, nodes);
    match op {
      case Insert(x) =>
        RefusedExactly(nodes, x);
        if InsertOutcome(nodes, x).Inserted? { AcceptedExactly(nodes, x); }
      case Remove(id) => RemoveMeaning(nodes, id);
      case RecordFailure(id) =>
        var j := Find(nodes, id, 0);
        if j < |nodes| { WithoutElements(nodes, j); }
      case RecordSuccess(_, _) =>
    }
  }

  lemma {:induction false} BelowInEveryRun(self: NodeID, ops: seq<Op>, i: nat)
    requires i < ID_BITS && forall k :: 0 <= k < |ops| && ops[k].Insert? ==> ops[k].node.failCount < MAX_FAILURES
    ensures Below(Exec(self, ops).buckets[i])
  {
    hide Apply;
    if ops != [] {
      var front := ops[..|ops| - 1];
      assert forall k :: 0 <= k < |front| ==> front[k] == ops[k];
      BelowInEveryRun(self, front, i);
      ExecInv(self, front);
      StepBelow(self, Exec(self, front), ops[|ops| - 1], i);
    }
  }

  /**
   * After any sequence of operations that inserts nodes with fewer than five failures: a stored node's counter is what it
   * was inserted with, or zero after a success, plus the failures since, and that is at most four; its time stamp is that
   * of the last insertion or success.
   */
  lemma CountersMean(self: NodeID, ops: seq<Op>, i: nat, n: Node)
    requires i < ID_BITS && n in Exec(self, ops).buckets[i]
    requires forall k :: 0 <= k < |ops| && ops[k].Insert? ==> ops[k].node.failCount < MAX_FAILURES
    ensures n.failCount == RecordOf(self, ops, n.id).failures < MAX_FAILURES
    ensures n.lastSeen == RecordOf(self, ops, n.id).seen
  {
    hide Exec, RecordOf;
    AgreesInEveryRun(self, ops, i);
    BelowInEveryRun(self, ops, i);
  }
}
