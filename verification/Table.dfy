/** internal/dht/routing/table.go on values: the 160 buckets, the operations on them, and what every run keeps. */
module Tables {
  import opened NodeIDs
  import opened Buckets

  /** Consecutive failed queries before a node is evicted. */
  const MAX_FAILURES := 5

  datatype Table = Table(self: NodeID, buckets: seq<seq<Node>>)

  function Empty(self: NodeID): Table {
    Table(self, seq(ID_BITS, _ => []))
  }

  ghost predicate BucketInv(self: NodeID, i: nat, nodes: seq<Node>) {
    && |nodes| <= K
    && DistinctIDs(nodes)
    && forall n :: n in nodes ==> CommonBits(self, n.id) == i
  }

  /** Every node sits in the bucket of its prefix length, at most K to a bucket, no two with one ID. */
  ghost predicate Inv(t: Table) {
    |t.buckets| == ID_BITS && forall i :: 0 <= i < ID_BITS ==> BucketInv(t.self, i, t.buckets[i])
  }

  // ----- Operations -----

  function Edit(t: Table, i: nat, nodes: seq<Node>): Table
    requires i < |t.buckets|
  {
    t.(buckets := t.buckets[i := nodes])
  }

  function InsertTable(t: Table, n: Node): Table
    requires |t.buckets| == ID_BITS
  {
    var i := CommonBits(t.self, n.id);
    if i >= ID_BITS then t else Edit(t, i, InsertNodes(t.buckets[i], n))
  }

  predicate Accepts(t: Table, n: Node)
    requires |t.buckets| == ID_BITS
  {
    var i := CommonBits(t.self, n.id);
    i < ID_BITS && InsertOutcome(t.buckets[i], n).Inserted?
  }

  function RemoveTable(t: Table, id: NodeID): Table
    requires |t.buckets| == ID_BITS
  {
    var i := CommonBits(t.self, id);
    if i >= ID_BITS then t else Edit(t, i, RemoveNodes(t.buckets[i], id))
  }

  function Failed(nodes: seq<Node>, id: NodeID): seq<Node> {
    var j := Find(nodes, id, 0);
    if j == |nodes| then nodes
    else if nodes[j].failCount + 1 >= MAX_FAILURES then Without(nodes, j)
    else nodes[j := nodes[j].(failCount := nodes[j].failCount + 1)]
  }

  function FailTable(t: Table, id: NodeID): Table
    requires |t.buckets| == ID_BITS
  {
    var i := CommonBits(t.self, id);
    if i >= ID_BITS then t else Edit(t, i, Failed(t.buckets[i], id))
  }

  function Succeeded(nodes: seq<Node>, id: NodeID, now: int): seq<Node> {
    var j := Find(nodes, id, 0);
    if j == |nodes| then nodes else nodes[j := nodes[j].(failCount := 0, lastSeen := now)]
  }

  function SucceedTable(t: Table, id: NodeID, now: int): Table
    requires |t.buckets| == ID_BITS
  {
    var i := CommonBits(t.self, id);
    if i >= ID_BITS then t else Edit(t, i, Succeeded(t.buckets[i], id, now))
  }

  // ----- Runs -----

  /** One locked region. `replaceIfDead` is a `Remove` and, some steps later, an `Insert`. */
  datatype Op = Insert(node: Node) | Remove(id: NodeID) | RecordFailure(id: NodeID) | RecordSuccess(id: NodeID, now: int)

  function Apply(t: Table, op: Op): (r: Table)
    requires |t.buckets| == ID_BITS
    ensures |r.buckets| == ID_BITS && r.self == t.self
  {
    match op
    case Insert(n) => InsertTable(t, n)
    case Remove(id) => RemoveTable(t, id)
    case RecordFailure(id) => FailTable(t, id)
    case RecordSuccess(id, now) => SucceedTable(t, id, now)
  }

  /** What other callers do, in order. */
  function Applied(t: Table, ops: seq<Op>): (r: Table)
    requires |t.buckets| == ID_BITS
    ensures |r.buckets| == ID_BITS && r.self == t.self
  {
    if ops == [] then t else Apply(Applied(t, ops[..|ops| - 1]), ops[|ops| - 1])
  }

  function Exec(self: NodeID, ops: seq<Op>): (t: Table)
    ensures |t.buckets| == ID_BITS && t.self == self
  {
    if ops == [] then Empty(self) else Apply(Exec(self, ops[..|ops| - 1]), ops[|ops| - 1])
  }

  // ----- The invariant -----

  lemma FailedKeepsBucket(self: NodeID, i: nat, nodes: seq<Node>, id: NodeID)
    requires BucketInv(self, i, nodes)
    ensures BucketInv(self, i, Failed(nodes, id))
  {
    hide Find, CommonBits;
    var j := Find(nodes, id, 0);
    if j < |nodes| {
      WithoutElements(nodes, j);
      UpdateKeepsBucket(self, i, nodes, j, nodes[j].(failCount := nodes[j].failCount + 1));
    }
  }

  lemma UpdateKeepsBucket(self: NodeID, i: nat, nodes: seq<Node>, j: nat, n: Node)
    requires BucketInv(self, i, nodes) && j < |nodes| && n.id == nodes[j].id
    ensures BucketInv(self, i, nodes[j := n])
  {
    hide CommonBits;
    forall m | m in nodes[j := n] ensures CommonBits(self, m.id) == i {
      var k :| 0 <= k < |nodes| && nodes[j := n][k] == m;
      assert nodes[k] in nodes;
    }
  }

  lemma SucceededKeepsBucket(self: NodeID, i: nat, nodes: seq<Node>, id: NodeID, now: int)
    requires BucketInv(self, i, nodes)
    ensures BucketInv(self, i, Succeeded(nodes, id, now))
  {
    hide Find, CommonBits;
    var j := Find(nodes, id, 0);
    if j < |nodes| {
      UpdateKeepsBucket(self, i, nodes, j, nodes[j].(failCount := 0, lastSeen := now));
    }
  }

  lemma InsertKeepsBucketInv(self: NodeID, i: nat, nodes: seq<Node>, n: Node)
    requires BucketInv(self, i, nodes) && CommonBits(self, n.id) == i
    ensures BucketInv(self, i, InsertNodes(nodes, n))
  {
    hide CommonBits, InsertNodes, InsertOutcome, Evicts;
    InsertKeepsBucket(nodes, n);
    RefusedExactly(nodes, n);
    if InsertOutcome(nodes, n).Inserted? {
      AcceptedExactly(nodes, n);
    }
  }

  lemma ApplyKeepsInv(t: Table, op: Op)
    requires Inv(t)
    ensures Inv(Apply(t, op))
  {
    hide CommonBits, BucketInv, InsertNodes, RemoveNodes, Failed, Succeeded;
    var id := if op.Insert? then op.node.id else op.id;
    var i := CommonBits(t.self, id);
    if i < ID_BITS {
      var nodes := t.buckets[i];
      match op {
        case Insert(n) => InsertKeepsBucketInv(t.self, i, nodes, n);
        case Remove(_) => RemoveKeepsBucketInv(t.self, i, nodes, id);
        case RecordFailure(_) => FailedKeepsBucket(t.self, i, nodes, id);
        case RecordSuccess(_, now) => SucceededKeepsBucket(t.self, i, nodes, id, now);
      }
    }
  }

  lemma {:induction false} AppliedInv(t: Table, ops: seq<Op>)
    requires Inv(t)
    ensures Inv(Applied(t, ops))
  {
    hide BucketInv, Apply;
    if ops != [] {
      AppliedInv(t, ops[..|ops| - 1]);
      ApplyKeepsInv(Applied(t, ops[..|ops| - 1]), ops[|ops| - 1]);
    }
  }

  lemma RemoveKeepsBucketInv(self: NodeID, i: nat, nodes: seq<Node>, id: NodeID)
    requires BucketInv(self, i, nodes)
    ensures BucketInv(self, i, RemoveNodes(nodes, id))
  {
    hide CommonBits, RemoveNodes;
    RemoveMeaning(nodes, id);
  }

  lemma {:induction false} ExecInv(self: NodeID, ops: seq<Op>)
    ensures Inv(Exec(self, ops))
  {
    if ops == [] {
      assert forall i :: 0 <= i < ID_BITS ==> Empty(self).buckets[i] == [];
    } else {
      ExecInv(self, ops[..|ops| - 1]);
      ApplyKeepsInv(Exec(self, ops[..|ops| - 1]), ops[|ops| - 1]);
    }
  }

  /** Stored nodes: the bucket they are in is determined, and so is the node by its ID; the table's own ID is never stored. */
  lemma StoredNodes(t: Table, i: nat, a: Node, j: nat, b: Node)
    requires Inv(t) && i < ID_BITS && j < ID_BITS && a in t.buckets[i] && b in t.buckets[j]
    ensures a.id != t.self
    ensures a.id == b.id ==> i == j && a == b
  {
    SameBitsEqual(t.self, a.id);
    assert BucketInv(t.self, i, t.buckets[i]) && BucketInv(t.self, j, t.buckets[j]);
  }

  // ----- Least recently inserted first -----

  /** The step of the last accepted insertion of `id`, or -1. */
  function LastInsert(self: NodeID, ops: seq<Op>, id: NodeID): (k: int)
    ensures -1 <= k < |ops|
  {
    if ops == [] then -1
    else
      var front, op := ops[..|ops| - 1], ops[|ops| - 1];
      if op.Insert? && op.node.id == id && Accepts(Exec(self, front), op.node) then |front|
      else LastInsert(self, front, id)
  }

  ghost predicate InsertOrder(self: NodeID, ops: seq<Op>, nodes: seq<Node>) {
    && (forall a :: 0 <= a < |nodes| ==> LastInsert(self, ops, nodes[a].id) >= 0)
    && (forall a, b :: 0 <= a < b < |nodes| ==> LastInsert(self, ops, nodes[a].id) < LastInsert(self, ops, nodes[b].id))
  }

  lemma OrderWithout(self: NodeID, ops: seq<Op>, nodes: seq<Node>, j: nat)
    requires InsertOrder(self, ops, nodes) && j < |nodes|
    ensures InsertOrder(self, ops, Without(nodes, j))
  {
    hide LastInsert;
    var w := Without(nodes, j);
    forall a | 0 <= a < |w| ensures w[a] == nodes[if a < j then a else a + 1] {
    }
  }

  lemma OrderSameIDs(self: NodeID, ops: seq<Op>, ops': seq<Op>, nodes: seq<Node>, nodes': seq<Node>)
    requires InsertOrder(self, ops, nodes) && |nodes'| == |nodes|
    requires forall a :: 0 <= a < |nodes| ==>
               nodes'[a].id == nodes[a].id && LastInsert(self, ops', nodes[a].id) == LastInsert(self, ops, nodes[a].id)
    ensures InsertOrder(self, ops', nodes')
  {
    hide LastInsert;
  }

  lemma OrderAppend(self: NodeID, ops: seq<Op>, nodes: seq<Node>, n: Node)
    requires InsertOrder(self, ops, nodes)
    requires forall a :: 0 <= a < |nodes| ==> LastInsert(self, ops, nodes[a].id) < LastInsert(self, ops, n.id)
    requires LastInsert(self, ops, n.id) >= 0
    ensures InsertOrder(self, ops, nodes + [n])
  {
    hide LastInsert;
  }

  /** The step of an accepted insertion, in its own bucket. */
  lemma OrderAfterInsert(self: NodeID, ops: seq<Op>, nodes: seq<Node>, i: nat)
    requires ops != [] && ops[|ops| - 1].Insert? && BucketInv(self, i, nodes)
    requires Accepts(Exec(self, ops[..|ops| - 1]), ops[|ops| - 1].node)
    requires InsertOutcome(nodes, ops[|ops| - 1].node).Inserted?
    requires InsertOrder(self, ops[..|ops| - 1], nodes)
    ensures InsertOrder(self, ops, InsertNodes(nodes, ops[|ops| - 1].node))
  {
    hide CommonBits, Accepts, Exec, InsertOrder, Find, FindNonCompliant, Without;
    var front, n := ops[..|ops| - 1], ops[|ops| - 1].node;
    var f, c := Find(nodes, n.id, 0), FindNonCompliant(nodes, 0);
    var kept := if f < |nodes| then Without(nodes, f) else if |nodes| != K then nodes else Without(nodes, c);
    if f < |nodes| {
      OrderWithout(self, front, nodes, f);
      WithoutElements(nodes, f);
    } else if |nodes| == K {
      OrderWithout(self, front, nodes, c);
      WithoutElements(nodes, c);
    }
    assert InsertNodes(nodes, n) == kept + [n];
    assert forall a :: 0 <= a < |kept| ==> kept[a] in kept && kept[a].id != n.id;
    OrderSameIDs(self, front, ops, kept, kept);
    assert LastInsert(self, ops, n.id) == |front|;
    OrderAppend(self, ops, kept, n);
  }

  lemma {:induction false} OrderOfEveryRun(self: NodeID, ops: seq<Op>, i: nat)
    requires i < ID_BITS
    ensures InsertOrder(self, ops, Exec(self, ops).buckets[i])
  {
    hide CommonBits, InsertOrder, InsertNodes, RemoveNodes, Failed, Succeeded, LastInsert;
    if ops == [] {
      NoOrder(self);
      assert Exec(self, ops).buckets[i] == [];
    } else {
      var front, op := ops[..|ops| - 1], ops[|ops| - 1];
      var t := Exec(self, front);
      OrderOfEveryRun(self, front, i);
      ExecInv(self, front);
      assert BucketInv(self, i, t.buckets[i]);
      OrderStep(self, ops, t, i);
    }
  }

  lemma NoOrder(self: NodeID)
    ensures InsertOrder(self, [], [])
  {
  }

  lemma OrderStep(self: NodeID, ops: seq<Op>, t: Table, i: nat)
    requires ops != [] && i < ID_BITS && t == Exec(self, ops[..|ops| - 1]) && BucketInv(self, i, t.buckets[i])
    requires InsertOrder(self, ops[..|ops| - 1], t.buckets[i])
    ensures InsertOrder(self, ops, Apply(t, ops[|ops| - 1]).buckets[i])
  {
    hide CommonBits, InsertOrder, Exec, LastInsert, InsertNodes, RemoveNodes, Failed, Succeeded;
    var front, op := ops[..|ops| - 1], ops[|ops| - 1];
    var nodes := t.buckets[i];
    var id := if op.Insert? then op.node.id else op.id;
    if op.Insert? && Accepts(t, op.node) && CommonBits(self, id) == i {
      OrderAfterInsert(self, ops, nodes, i);
    } else {
      OrderKept(self, ops, t, i);
      if CommonBits(self, id) == i {
        OrderAfterOther(self, ops, nodes, op);
      }
    }
  }

  /** An operation elsewhere, or a refused insertion, changes no recorded step here. */
  lemma OrderKept(self: NodeID, ops: seq<Op>, t: Table, i: nat)
    requires ops != [] && i < ID_BITS && t == Exec(self, ops[..|ops| - 1]) && BucketInv(self, i, t.buckets[i])
    requires InsertOrder(self, ops[..|ops| - 1], t.buckets[i])
    requires var op := ops[|ops| - 1]; op.Insert? && Accepts(t, op.node) ==> CommonBits(self, op.node.id) != i
    ensures InsertOrder(self, ops, t.buckets[i])
  {
    hide CommonBits, InsertOrder, Exec, Accepts;
    var nodes := t.buckets[i];
    forall a | 0 <= a < |nodes|
      ensures LastInsert(self, ops, nodes[a].id) == LastInsert(self, ops[..|ops| - 1], nodes[a].id)
    {
      assert nodes[a] in nodes;
    }
    OrderSameIDs(self, ops[..|ops| - 1], ops, nodes, nodes);
  }

  /** Removing, failing and succeeding keep the order, and so does a refused insertion. */
  lemma OrderAfterOther(self: NodeID, ops: seq<Op>, nodes: seq<Node>, op: Op)
    requires InsertOrder(self, ops, nodes)
    ensures op.Remove? ==> InsertOrder(self, ops, RemoveNodes(nodes, op.id))
    ensures op.RecordFailure? ==> InsertOrder(self, ops, Failed(nodes, op.id))
    ensures op.RecordSuccess? ==> InsertOrder(self, ops, Succeeded(nodes, op.id, op.now))
    ensures op.Insert? && InsertOutcome(nodes, op.node).Rejected? ==> InsertOrder(self, ops, InsertNodes(nodes, op.node))
  {
    hide InsertOrder, Find, FindNonCompliant, LastInsert, Without;
    if !op.Insert? {
      var j := Find(nodes, op.id, 0);
      if j < |nodes| {
        OrderWithout(self, ops, nodes, j);
        OrderSameIDs(self, ops, ops, nodes, nodes[j := nodes[j].(failCount := nodes[j].failCount + 1)]);
        if op.RecordSuccess? {
          OrderSameIDs(self, ops, ops, nodes, nodes[j := nodes[j].(failCount := 0, lastSeen := op.now)]);
        }
      }
    }
  }

  /**
   * After any sequence of operations: the invariant holds, and every bucket lists its nodes in the order of their
   * last accepted insertion.
   */
  lemma EveryRun(self: NodeID, ops: seq<Op>)
    ensures Inv(Exec(self, ops))
    ensures forall i :: 0 <= i < ID_BITS ==> InsertOrder(self, ops, Exec(self, ops).buckets[i])
    ensures Count(Exec(self, ops).buckets, ID_BITS) <= 1263
  {
    ExecInv(self, ops);
    forall i | 0 <= i < ID_BITS ensures InsertOrder(self, ops, Exec(self, ops).buckets[i]) {
      OrderOfEveryRun(self, ops, i);
    }
    CountBound(Exec(self, ops));
  }

  // ----- How many nodes there can be -----

  /** Nodes in the first `k` buckets. */
  function Count(buckets: seq<seq<Node>>, k: nat): nat
    requires k <= |buckets|
  {
    if k == 0 then 0 else Count(buckets, k - 1) + |buckets[k - 1]|
  }

  lemma {:induction false} CountGrows(buckets: seq<seq<Node>>, b: nat, c: nat)
    requires b <= c <= |buckets|
    ensures Count(buckets, b) <= Count(buckets, c)
    decreases c - b
  {
    if b < c { CountGrows(buckets, b, c - 1); }
  }

  /** In the bucket of prefix length `i`, the bits behind position `i` tell nodes apart. */
  lemma TellApart(self: NodeID, i: nat, nodes: seq<Node>, a: nat, b: nat)
    requires BucketInv(self, i, nodes) && i < ID_BITS && a < b < |nodes|
    ensures exists k :: i < k < ID_BITS && Bit(nodes[a].id, k) != Bit(nodes[b].id, k)
  {
    hide Bit;
    var x, y := nodes[a].id, nodes[b].id;
    assert nodes[a] in nodes && nodes[b] in nodes;
    SameBitsEqual(x, y);
    CommonBitsAre(self, x);
    CommonBitsAre(self, y);
    CommonBitsAre(x, y);
    var d := CommonBits(x, y);
    assert forall j :: 0 <= j < i ==> Bit(self, j) == Bit(x, j) && Bit(self, j) == Bit(y, j);
    assert Bit(self, i) != Bit(x, i) && Bit(self, i) != Bit(y, i);
  }

  ghost predicate Apart(x: NodeID, y: NodeID, from: nat) {
    exists k :: from < k < ID_BITS && Bit(x, k) != Bit(y, k)
  }

  lemma DeepestBuckets(self: NodeID, i: nat, nodes: seq<Node>)
    requires BucketInv(self, i, nodes) && 157 <= i < ID_BITS
    ensures i == 159 ==> |nodes| <= 1
    ensures i == 158 ==> |nodes| <= 2
    ensures i == 157 ==> |nodes| <= 4
  {
    hide Bit, BucketInv;
    var apart := forall a, b :: 0 <= a < b < |nodes| ==> Apart(nodes[a].id, nodes[b].id, i);
    assert apart by {
      forall a, b | 0 <= a < b < |nodes| ensures Apart(nodes[a].id, nodes[b].id, i) {
        TellApart(self, i, nodes, a, b);
      }
    }
    if |nodes| > 1 {
      assert Apart(nodes[0].id, nodes[1].id, i);
    }
    if |nodes| > 2 {
      assert Apart(nodes[0].id, nodes[2].id, i) && Apart(nodes[1].id, nodes[2].id, i);
    }
    if |nodes| > 4 {
      FiveApart(nodes[0].id, nodes[1].id, nodes[2].id, nodes[3].id, nodes[4].id);
    }
  }

  /** Two bits cannot tell five identifiers apart. */
  lemma FiveApart(a: NodeID, b: NodeID, c: NodeID, d: NodeID, e: NodeID)
    ensures !(Apart(a, b, 157) && Apart(a, c, 157) && Apart(a, d, 157) && Apart(a, e, 157) && Apart(b, c, 157)
              && Apart(b, d, 157) && Apart(b, e, 157) && Apart(c, d, 157) && Apart(c, e, 157) && Apart(d, e, 157))
  {
    hide Bit;
    forall x: NodeID, y: NodeID ensures Apart(x, y, 157) ==> Bit(x, 158) != Bit(y, 158) || Bit(x, 159) != Bit(y, 159) {
    }
  }

  lemma {:induction false} CountUpTo(t: Table, k: nat)
    requires Inv(t) && k <= 157
    ensures Count(t.buckets, k) <= 8 * k
  {
    if k > 0 {
      CountUpTo(t, k - 1);
      assert BucketInv(t.self, k - 1, t.buckets[k - 1]);
    }
  }

  lemma CountBound(t: Table)
    requires Inv(t)
    ensures Count(t.buckets, ID_BITS) <= 1263
  {
    hide BucketInv;
    CountUpTo(t, 157);
    DeepestBuckets(t.self, 157, t.buckets[157]);
    DeepestBuckets(t.self, 158, t.buckets[158]);
    DeepestBuckets(t.self, 159, t.buckets[159]);
    assert Count(t.buckets, 158) == Count(t.buckets, 157) + |t.buckets[157]|;
    assert Count(t.buckets, 159) == Count(t.buckets, 158) + |t.buckets[158]|;
    assert Count(t.buckets, 160) == Count(t.buckets, 159) + |t.buckets[159]|;
  }
}
