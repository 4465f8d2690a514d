/**
 * What one operation does to the routing table (internal/dht/routing/bucket.go:19-66, internal/dht/routing/table.go:49-224),
 * bucket by bucket and position by position. Nothing here refers to how the operations are defined.
 */
module TableSteps {
  import opened Bytes
  import opened NodeIDs
  import opened Buckets
  import opened Tables

  /** Position `k` of a list is cut out. */
  ghost predicate CutAt(b: seq<Node>, a: seq<Node>, k: nat) {
    k < |b| && |a| == |b| - 1
    && (forall j :: 0 <= j < k ==> a[j] == b[j]) && forall j :: k <= j < |a| ==> a[j] == b[j + 1]
  }

  /** The newcomer is put last, with position `k` cut out. */
  ghost predicate MovedIn(b: seq<Node>, a: seq<Node>, k: nat, n: Node) {
    a != [] && a[|a| - 1] == n && CutAt(b, a[..|a| - 1], k)
  }

  /** The node stays in its place, with a zero counter and a new time; all others stay as they are. */
  ghost predicate Answered(before: Table, after: Table, id: NodeID, now: int) {
    && after.self == before.self && |after.buckets| == |before.buckets|
    && forall i :: 0 <= i < |before.buckets| ==>
         && |after.buckets[i]| == |before.buckets[i]|
         && forall k :: 0 <= k < |before.buckets[i]| ==>
              var n := before.buckets[i][k];
              after.buckets[i][k] == if n.id == id then Node(n.id, n.addr, now, n.compliant, 0) else n
  }

  /** At its fifth failure the node goes, and nobody else; before, it stays in its place with a counter one higher. */
  ghost predicate Silent(before: Table, after: Table, id: NodeID, evicted: bool) {
    && after.self == before.self && |after.buckets| == |before.buckets|
    && (evicted <==> exists i, k :: 0 <= i < |before.buckets| && 0 <= k < |before.buckets[i]|
                       && before.buckets[i][k].id == id && before.buckets[i][k].failCount + 1 >= 5)
    && forall i :: 0 <= i < |before.buckets| ==> SilentIn(before.buckets[i], after.buckets[i], id)
  }

  ghost predicate SilentIn(b: seq<Node>, a: seq<Node>, id: NodeID) {
    if exists k :: 0 <= k < |b| && b[k].id == id && b[k].failCount + 1 >= 5
    then exists k :: 0 <= k < |b| && b[k].id == id && CutAt(b, a, k)
    else
      && |a| == |b|
      && forall k :: 0 <= k < |b| ==>
           a[k] == if b[k].id == id then Node(b[k].id, b[k].addr, b[k].lastSeen, b[k].compliant, b[k].failCount + 1) else b[k]
  }

  /** The node with the identifier goes, if there is one, and nobody else. */
  ghost predicate Dropped(before: Table, after: Table, id: NodeID, found: bool) {
    && after.self == before.self && |after.buckets| == |before.buckets|
    && (found <==> exists i, k :: 0 <= i < |before.buckets| && 0 <= k < |before.buckets[i]| && before.buckets[i][k].id == id)
    && forall i :: 0 <= i < |before.buckets| ==> DroppedIn(before.buckets[i], after.buckets[i], id)
  }

  ghost predicate DroppedIn(b: seq<Node>, a: seq<Node>, id: NodeID) {
    if exists k :: 0 <= k < |b| && b[k].id == id
    then exists k :: 0 <= k < |b| && b[k].id == id && CutAt(b, a, k)
    else a == b
  }

  /**
   * A known node moves to the end, with its new data. A new one is put last while there are fewer than eight, or in the
   * place of the first non-compliant one if it is compliant itself. Otherwise nothing changes.
   */
  ghost predicate EnteredIn(b: seq<Node>, a: seq<Node>, n: Node, ok: bool) {
    if exists k :: 0 <= k < |b| && b[k].id == n.id
    then ok && exists k :: 0 <= k < |b| && b[k].id == n.id && MovedIn(b, a, k, n)
    else if |b| < 8 then ok && |a| == |b| + 1 && a[|b|] == n && forall j :: 0 <= j < |b| ==> a[j] == b[j]
    else if n.compliant && exists k :: 0 <= k < |b| && !b[k].compliant
    then ok && exists k :: 0 <= k < |b| && !b[k].compliant && (forall j :: 0 <= j < k ==> b[j].compliant) && MovedIn(b, a, k, n)
    else !ok && a == b
  }

  /** Only the bucket of the shared prefix is touched, and the own identifier is nowhere. */
  ghost predicate Entered(before: Table, after: Table, n: Node, ok: bool, oldest: Option<Node>) {
    && after.self == before.self && |after.buckets| == |before.buckets|
    && var i := CommonBits(before.self, n.id);
       && (forall j :: 0 <= j < |before.buckets| && j != i ==> after.buckets[j] == before.buckets[j])
       && (if i < |before.buckets| then
             && EnteredIn(before.buckets[i], after.buckets[i], n, ok)
             && (ok ==> oldest == None)
             && (!ok ==> before.buckets[i] != [] && oldest == Some(before.buckets[i][0]))
           else !ok && oldest == None)
  }

  // ----- The operations do that -----

  lemma CutIs(b: seq<Node>, k: nat)
    requires k < |b|
    ensures CutAt(b, Without(b, k), k)
  {
  }

  lemma MovedIs(b: seq<Node>, k: nat, n: Node)
    requires k < |b|
    ensures MovedIn(b, Without(b, k) + [n], k, n)
  {
    var a := Without(b, k) + [n];
    assert a[..|a| - 1] == Without(b, k);
    CutIs(b, k);
  }

  /** An identifier occurs in the bucket of its prefix only, and there once. */
  lemma OnlyThere(t: Table, i: nat, k: nat)
    requires Inv(t) && i < ID_BITS && k < |t.buckets[i]|
    ensures i == CommonBits(t.self, t.buckets[i][k].id)
    ensures Find(t.buckets[i], t.buckets[i][k].id, 0) == k
  {
    hide CommonBits, Find;
    assert BucketInv(t.self, i, t.buckets[i]);
    assert t.buckets[i][k] in t.buckets[i];
    var f := Find(t.buckets[i], t.buckets[i][k].id, 0);
    assert f < |t.buckets[i]| ==> t.buckets[i][f].id == t.buckets[i][k].id;
  }

  lemma SuccessMeans(t: Table, id: NodeID, now: int)
    requires Inv(t)
    ensures Answered(t, SucceedTable(t, id, now), id, now)
  {
    hide CommonBits, Find, Inv;
    InvShape(t);
    forall i, k | 0 <= i < ID_BITS && 0 <= k < |t.buckets[i]|
      ensures var n := t.buckets[i][k];
              |SucceedTable(t, id, now).buckets[i]| == |t.buckets[i]|
              && SucceedTable(t, id, now).buckets[i][k]
                 == if n.id == id then Node(n.id, n.addr, now, n.compliant, 0) else n
    {
      OnlyThere(t, i, k);
    }
    forall i | 0 <= i < ID_BITS ensures |SucceedTable(t, id, now).buckets[i]| == |t.buckets[i]| {
    }
  }

  lemma InvShape(t: Table)
    requires Inv(t)
    ensures |t.buckets| == ID_BITS
    ensures forall i :: 0 <= i < ID_BITS ==> |t.buckets[i]| <= 8
  {
    hide CommonBits;
    forall i | 0 <= i < ID_BITS ensures |t.buckets[i]| <= 8 {
      assert BucketInv(t.self, i, t.buckets[i]);
    }
  }

  lemma FailureMeans(t: Table, id: NodeID, evicted: bool)
    requires Inv(t)
    requires var i := CommonBits(t.self, id);
             evicted <==> i < ID_BITS && |FailTable(t, id).buckets[i]| < |t.buckets[i]|
    ensures Silent(t, FailTable(t, id), id, evicted)
  {
    hide CommonBits, Find, Inv, SilentIn, Failed;
    InvShape(t);
    forall i | 0 <= i < ID_BITS ensures SilentIn(t.buckets[i], FailTable(t, id).buckets[i], id) {
      FailureIn(t, id, i);
    }
    if CommonBits(t.self, id) < ID_BITS { FailureIn(t, id, CommonBits(t.self, id)); }
    forall i, k | 0 <= i < ID_BITS && 0 <= k < |t.buckets[i]| && t.buckets[i][k].id == id ensures i == CommonBits(t.self, id) {
      OnlyThere(t, i, k);
    }
  }

  lemma FailureIn(t: Table, id: NodeID, i: nat)
    requires Inv(t) && i < ID_BITS
    ensures var b, a := t.buckets[i], FailTable(t, id).buckets[i];
            && SilentIn(b, a, id)
            && (|a| < |b| <==> exists k :: 0 <= k < |b| && b[k].id == id && b[k].failCount + 1 >= 5)
  {
    hide CommonBits, Find, Inv;
    InvShape(t);
    var b, a := t.buckets[i], FailTable(t, id).buckets[i];
    forall k | 0 <= k < |b| && b[k].id == id ensures i == CommonBits(t.self, id) && Find(b, id, 0) == k {
      OnlyThere(t, i, k);
    }
    var k := Find(b, id, 0);
    if i == CommonBits(t.self, id) && k < |b| {
      CutIs(b, k);
    }
  }

  lemma RemovalMeans(t: Table, id: NodeID, i: nat)
    requires Inv(t) && i < ID_BITS
    ensures |RemoveTable(t, id).buckets| == ID_BITS && DroppedIn(t.buckets[i], RemoveTable(t, id).buckets[i], id)
  {
    hide CommonBits, Find, Inv;
    InvShape(t);
    var b := t.buckets[i];
    forall k | 0 <= k < |b| && b[k].id == id ensures i == CommonBits(t.self, id) && Find(b, id, 0) == k {
      OnlyThere(t, i, k);
    }
    var k := Find(b, id, 0);
    if i == CommonBits(t.self, id) && k < |b| {
      CutIs(b, k);
    }
  }

  lemma RemovedMeans(t: Table, id: NodeID, found: bool)
    requires Inv(t) && (found <==> CommonBits(t.self, id) < ID_BITS && HasID(t.buckets[CommonBits(t.self, id)], id))
    ensures Dropped(t, RemoveTable(t, id), id, found)
  {
    hide CommonBits, Find, Inv, DroppedIn, RemoveNodes;
    InvShape(t);
    forall i | 0 <= i < ID_BITS ensures DroppedIn(t.buckets[i], RemoveTable(t, id).buckets[i], id) {
      RemovalMeans(t, id, i);
    }
    forall i, k | 0 <= i < ID_BITS && 0 <= k < |t.buckets[i]| && t.buckets[i][k].id == id
      ensures i == CommonBits(t.self, id) && HasID(t.buckets[i], id)
    {
      OnlyThere(t, i, k);
    }
  }

  lemma InsertionMeans(b: seq<Node>, n: Node)
    requires |b| <= 8
    ensures EnteredIn(b, InsertNodes(b, n), n, InsertOutcome(b, n).Inserted?)
    ensures InsertOutcome(b, n).Rejected? ==> b != [] && InsertOutcome(b, n).oldest == b[0]
  {
    hide Find, FindNonCompliant, Without, MovedIn;
    var i, j := Find(b, n.id, 0), FindNonCompliant(b, 0);
    if i < |b| { MovedIs(b, i, n); }
    if j < |b| { MovedIs(b, j, n); }
  }

  lemma InsertedMeans(t: Table, n: Node, ok: bool, oldest: Option<Node>)
    requires Inv(t) && ok == Accepts(t, n)
    requires var i := CommonBits(t.self, n.id);
             if ok || i >= ID_BITS then oldest == None else oldest.Some? && InsertOutcome(t.buckets[i], n) == Rejected(oldest.value)
    ensures Entered(t, InsertTable(t, n), n, ok, oldest)
  {
    hide CommonBits, Inv, InsertNodes, InsertOutcome, EnteredIn;
    InvShape(t);
    var i := CommonBits(t.self, n.id);
    if i < ID_BITS {
      InsertionMeans(t.buckets[i], n);
    }
  }

  /** The operations of a run, one by one. */
  lemma ApplyMeans(t: Table, op: Op)
    requires Inv(t)
    ensures op.Insert? ==> exists ok, oldest :: Entered(t, Apply(t, op), op.node, ok, oldest)
    ensures op.Remove? ==> exists found :: Dropped(t, Apply(t, op), op.id, found)
    ensures op.RecordFailure? ==> exists evicted :: Silent(t, Apply(t, op), op.id, evicted)
    ensures op.RecordSuccess? ==> Answered(t, Apply(t, op), op.id, op.now)
  {
    hide Inv, Entered, Dropped, Silent, Answered, CommonBits, HasID, InsertOutcome, RemoveNodes, Failed, Succeeded;
    InvShape(t);
    match op {
      case Insert(n) =>
        var i := CommonBits(t.self, n.id);
        var ok := Accepts(t, n);
        var oldest := if ok || i >= ID_BITS then None else Some(InsertOutcome(t.buckets[i], n).oldest);
        InsertedMeans(t, n, ok, oldest);
        assert Entered(t, Apply(t, op), n, ok, oldest);
      case Remove(id) =>
        var i := CommonBits(t.self, id);
        var found := i < ID_BITS && HasID(t.buckets[i], id);
        RemovedMeans(t, id, found);
        assert Dropped(t, Apply(t, op), id, found);
      case RecordFailure(id) =>
        var i := CommonBits(t.self, id);
        var evicted := i < ID_BITS && |FailTable(t, id).buckets[i]| < |t.buckets[i]|;
        FailureMeans(t, id, evicted);
        assert Silent(t, Apply(t, op), id, evicted);
      case RecordSuccess(id, now) =>
        SuccessMeans(t, id, now);
    }
  }
}
