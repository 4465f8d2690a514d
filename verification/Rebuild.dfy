/** Filling a fresh routing table from a list of nodes, as loading and identifier regeneration do. */
module Rebuild {
  import opened Sets
  import opened NodeIDs
  import opened Buckets
  import opened Tables
  import opened RoutingTables

  /** One insertion after the other, refusals ignored. */
  function InsertAll(t: Table, nodes: seq<Node>): (r: Table)
    requires |t.buckets| == ID_BITS
    ensures |r.buckets| == ID_BITS && r.self == t.self
  {
    if nodes == [] then t else InsertTable(InsertAll(t, nodes[..|nodes| - 1]), nodes[|nodes| - 1])
  }

  /** The first `k` insertions, with `others(i)` coming in before insertion `i`. */
  function InsertAmid(t: Table, nodes: seq<Node>, others: nat -> seq<Op>, k: nat): (r: Table)
    requires |t.buckets| == ID_BITS && k <= |nodes|
    ensures |r.buckets| == ID_BITS && r.self == t.self
  {
    if k == 0 then t
    else InsertTable(Applied(InsertAmid(t, nodes, others, k - 1), others(k - 1)), nodes[k - 1])
  }

  /** Whatever comes in between, the table stays in order. */
  lemma {:induction false} InsertAmidInv(t: Table, nodes: seq<Node>, others: nat -> seq<Op>, k: nat)
    requires Inv(t) && k <= |nodes|
    ensures Inv(InsertAmid(t, nodes, others, k))
  {
    hide BucketInv, InsertTable, Applied;
    if k > 0 {
      InsertAmidInv(t, nodes, others, k - 1);
      var before := InsertAmid(t, nodes, others, k - 1);
      AppliedInv(before, others(k - 1));
      ApplyKeepsInv(Applied(before, others(k - 1)), Insert(nodes[k - 1]));
    }
  }

  /** With nothing in between, it is one insertion after the other. */
  lemma {:induction false} InsertAmidNothing(t: Table, nodes: seq<Node>, others: nat -> seq<Op>, k: nat)
    requires |t.buckets| == ID_BITS && k <= |nodes| && forall i: nat :: others(i) == []
    ensures InsertAmid(t, nodes, others, k) == InsertAll(t, nodes[..k])
  {
    hide InsertTable;
    if k > 0 {
      InsertAmidNothing(t, nodes, others, k - 1);
      InsertAllStep(t, nodes, k - 1);
    }
  }

  lemma InsertAllStep(t: Table, nodes: seq<Node>, k: nat)
    requires |t.buckets| == ID_BITS && k < |nodes|
    ensures InsertAll(t, nodes[..k + 1]) == InsertTable(InsertAll(t, nodes[..k]), nodes[k])
  {
    assert nodes[..k + 1][..k] == nodes[..k];
  }

  lemma {:induction false} InsertAllInv(t: Table, nodes: seq<Node>)
    requires Inv(t)
    ensures Inv(InsertAll(t, nodes))
  {
    hide BucketInv, InsertTable;
    if nodes != [] {
      var front, last := nodes[..|nodes| - 1], nodes[|nodes| - 1];
      InsertAllInv(t, front);
      ApplyKeepsInv(InsertAll(t, front), Insert(last));
    }
  }

  lemma EmptyInv(self: NodeID)
    ensures Inv(Empty(self))
  {
    ExecInv(self, []);
  }

  // ----- Positions in the snapshot -----

  lemma {:induction false} FlatSize(buckets: seq<seq<Node>>, k: nat)
    requires k <= |buckets|
    ensures |Flat(buckets, k)| == Count(buckets, k)
  {
    if k > 0 { FlatSize(buckets, k - 1); }
  }

  lemma {:induction false} FlatAt(buckets: seq<seq<Node>>, k: nat, b: nat, j: nat)
    requires b < k <= |buckets| && j < |buckets[b]|
    ensures Count(buckets, b) + j < |Flat(buckets, k)|
    ensures Flat(buckets, k)[Count(buckets, b) + j] == buckets[b][j]
  {
    FlatSize(buckets, k - 1);
    if b < k - 1 { FlatAt(buckets, k - 1, b, j); }
  }

  /** The bucket that position `p` of the snapshot comes from. */
  lemma {:induction false} BucketAt(buckets: seq<seq<Node>>, k: nat, p: nat) returns (b: nat)
    requires k <= |buckets| && p < Count(buckets, k)
    ensures b < k && Count(buckets, b) <= p < Count(buckets, b + 1)
  {
    if p >= Count(buckets, k - 1) {
      b := k - 1;
    } else {
      b := BucketAt(buckets, k - 1, p);
    }
  }

  // ----- A snapshot fills a fresh table with the same buckets -----

  ghost predicate SameContacts(a: seq<Node>, b: seq<Node>) {
    |a| == |b| && forall k :: 0 <= k < |a| ==> a[k].id == b[k].id && a[k].addr == b[k].addr
  }

  /** The part of the first `k` nodes that stood in bucket `b` of the snapshot. */
  function Segment(t: Table, nodes: seq<Node>, k: nat, b: nat): seq<Node>
    requires b < |t.buckets| && k <= |nodes|
  {
    CountGrows(t.buckets, b, b + 1);
    nodes[Min(k, Count(t.buckets, b))..Min(k, Count(t.buckets, b + 1))]
  }

  ghost predicate ListsTable(t: Table, nodes: seq<Node>) {
    Inv(t) && SameContacts(nodes, Flat(t.buckets, ID_BITS))
  }

  /** The node at position `k` is new to its bucket, which still has room for it. */
  lemma NextIsNew(t: Table, nodes: seq<Node>, k: nat) returns (b: nat)
    requires ListsTable(t, nodes) && k < |nodes|
    ensures b < ID_BITS && CommonBits(t.self, nodes[k].id) == b
    ensures Count(t.buckets, b) <= k < Count(t.buckets, b + 1)
    ensures |Segment(t, nodes, k, b)| < K && !HasID(Segment(t, nodes, k, b), nodes[k].id)
  {
    hide CommonBits;
    ListsShape(t, nodes);
    FlatSize(t.buckets, ID_BITS);
    b := BucketAt(t.buckets, ID_BITS, k);
    InvAt(t, b);
    var first, bucket := Count(t.buckets, b), t.buckets[b];
    SnapshotPart(t, nodes, b, k - first);
    assert bucket[k - first] in bucket;
    var s := Segment(t, nodes, k, b);
    assert s == nodes[first..k];
    forall j | 0 <= j < |s| ensures s[j].id != nodes[k].id {
      SnapshotPart(t, nodes, b, j);
      assert s[j] == nodes[first + j];
      assert bucket[j].id != bucket[k - first].id;
    }
  }

  lemma SnapshotPart(t: Table, nodes: seq<Node>, b: nat, j: nat)
    requires ListsTable(t, nodes) && b < ID_BITS && j < |t.buckets[b]|
    ensures Count(t.buckets, b) + j < |nodes|
    ensures nodes[Count(t.buckets, b) + j].id == t.buckets[b][j].id
    ensures nodes[Count(t.buckets, b) + j].addr == t.buckets[b][j].addr
  {
    hide Inv;
    ListsShape(t, nodes);
    FlatAt(t.buckets, ID_BITS, b, j);
  }

  lemma AppendsNew(nodes: seq<Node>, n: Node)
    requires |nodes| < K && !HasID(nodes, n.id)
    ensures InsertNodes(nodes, n) == nodes + [n] && InsertOutcome(nodes, n).Inserted?
  {
  }

  /** How the parts grow by the node at position `k` of bucket `b`. */
  lemma SegmentStep(t: Table, nodes: seq<Node>, k: nat, b: nat, c: nat)
    requires |t.buckets| == ID_BITS && k < |nodes| && b < ID_BITS && c < ID_BITS
    requires Count(t.buckets, b) <= k < Count(t.buckets, b + 1)
    ensures Segment(t, nodes, k + 1, c) == Segment(t, nodes, k, c) + if c == b then [nodes[k]] else []
  {
    CountGrows(t.buckets, c, c + 1);
    if c < b {
      CountGrows(t.buckets, c + 1, b);
    } else if c > b {
      CountGrows(t.buckets, b + 1, c);
    }
  }

  lemma {:induction false} RebuiltPrefix(t: Table, nodes: seq<Node>, k: nat)
    requires ListsTable(t, nodes) && k <= |nodes|
    ensures forall b :: 0 <= b < ID_BITS ==>
              InsertAll(Empty(t.self), nodes[..k]).buckets[b] == Segment(t, nodes, k, b)
  {
    hide CommonBits, InsertNodes, Segment, ListsTable, HasID, Inv;
    if k == 0 {
      SegmentsEmpty(t, nodes);
      assert nodes[..0] == [];
    } else {
      ListsShape(t, nodes);
      RebuiltPrefix(t, nodes, k - 1);
      var b := NextIsNew(t, nodes, k - 1);
      AppendsNew(Segment(t, nodes, k - 1, b), nodes[k - 1]);
      InsertAllStep(Empty(t.self), nodes, k - 1);
      forall c | 0 <= c < ID_BITS ensures InsertAll(Empty(t.self), nodes[..k]).buckets[c] == Segment(t, nodes, k, c) {
        SegmentStep(t, nodes, k - 1, b, c);
      }
    }
  }

  lemma ListsShape(t: Table, nodes: seq<Node>)
    requires ListsTable(t, nodes)
    ensures |t.buckets| == ID_BITS
  {
  }

  lemma SegmentsEmpty(t: Table, nodes: seq<Node>)
    requires ListsTable(t, nodes)
    ensures forall b :: 0 <= b < ID_BITS ==> Segment(t, nodes, 0, b) == []
  {
  }

  /**
   * Inserting the contacts of a snapshot one by one into a fresh table for the same identifier: none is refused, and
   * every bucket ends up with the same contacts in the same order.
   */
  lemma SnapshotRebuilds(t: Table, nodes: seq<Node>)
    requires ListsTable(t, nodes)
    ensures forall k :: 0 <= k < |nodes| ==> Accepts(InsertAll(Empty(t.self), nodes[..k]), nodes[k])
    ensures forall b :: 0 <= b < ID_BITS ==>
              SameContacts(InsertAll(Empty(t.self), nodes).buckets[b], t.buckets[b])
  {
    hide CommonBits, InsertNodes, InsertOutcome, HasID, InsertAll;
    forall k | 0 <= k < |nodes| ensures Accepts(InsertAll(Empty(t.self), nodes[..k]), nodes[k]) {
      RebuiltPrefix(t, nodes, k);
      var b := NextIsNew(t, nodes, k);
      AppendsNew(Segment(t, nodes, k, b), nodes[k]);
    }
    RebuiltPrefix(t, nodes, |nodes|);
    assert nodes[..|nodes|] == nodes;
    forall b | 0 <= b < ID_BITS ensures SameContacts(Segment(t, nodes, |nodes|, b), t.buckets[b]) {
      WholeSegment(t, nodes, b);
    }
  }

  lemma WholeSegment(t: Table, nodes: seq<Node>, b: nat)
    requires ListsTable(t, nodes) && b < ID_BITS
    ensures SameContacts(Segment(t, nodes, |nodes|, b), t.buckets[b])
  {
    hide Inv;
    ListsShape(t, nodes);
    FlatSize(t.buckets, ID_BITS);
    CountGrows(t.buckets, b + 1, ID_BITS);
    var first := Count(t.buckets, b);
    var s := Segment(t, nodes, |nodes|, b);
    assert |s| == |t.buckets[b]|;
    forall j | 0 <= j < |s| ensures s[j].id == t.buckets[b][j].id && s[j].addr == t.buckets[b][j].addr {
      SnapshotPart(t, nodes, b, j);
      assert s[j] == nodes[first + j];
    }
  }

  // ----- A table for another identifier keeps the best contacts -----

  /** A node of bucket `i` is missing only if the bucket is full, and for a compliant node full of compliant ones. */
  ghost predicate KeepsBest(self: NodeID, i: nat, nodes: seq<Node>, bucket: seq<Node>) {
    && (forall m :: m in bucket ==> m in nodes)
    && forall n :: n in nodes && CommonBits(self, n.id) == i && n !in bucket ==>
         |bucket| == K && (n.compliant ==> forall m :: m in bucket ==> m.compliant)
  }

  lemma InsertSize(nodes: seq<Node>, n: Node)
    requires |nodes| == K
    ensures |InsertNodes(nodes, n)| == K
  {
  }

  lemma BestStep(self: NodeID, i: nat, nodes: seq<Node>, bucket: seq<Node>, x: Node)
    requires KeepsBest(self, i, nodes, bucket) && BucketInv(self, i, bucket)
    requires CommonBits(self, x.id) == i && forall n :: n in nodes ==> n.id != x.id
    ensures KeepsBest(self, i, nodes + [x], InsertNodes(bucket, x))
  {
    hide CommonBits, InsertNodes, InsertOutcome;
    var after := InsertNodes(bucket, x);
    RefusedExactly(bucket, x);
    if InsertOutcome(bucket, x).Inserted? {
      AcceptedExactly(bucket, x);
      if |bucket| == K { InsertSize(bucket, x); }
    }
  }

  lemma BestElsewhere(self: NodeID, i: nat, nodes: seq<Node>, bucket: seq<Node>, x: Node)
    requires KeepsBest(self, i, nodes, bucket) && CommonBits(self, x.id) != i
    ensures KeepsBest(self, i, nodes + [x], bucket)
  {
    hide CommonBits;
  }

  lemma {:induction false} FreshTableKeepsBest(self: NodeID, nodes: seq<Node>, i: nat)
    requires DistinctIDs(nodes) && i < ID_BITS
    ensures KeepsBest(self, i, nodes, InsertAll(Empty(self), nodes).buckets[i])
  {
    hide CommonBits, KeepsBest, InsertNodes, DistinctIDs, Inv;
    if nodes == [] {
      NothingMissing(self, i);
    } else {
      var front, x := nodes[..|nodes| - 1], nodes[|nodes| - 1];
      LastIsNew(nodes);
      FreshTableKeepsBest(self, front, i);
      EmptyInv(self);
      InsertAllInv(Empty(self), front);
      var t := InsertAll(Empty(self), front);
      InvAt(t, i);
      if CommonBits(self, x.id) == i {
        BestStep(self, i, front, t.buckets[i], x);
      } else {
        BestElsewhere(self, i, front, t.buckets[i], x);
      }
      assert front + [x] == nodes;
    }
  }

  lemma InvAt(t: Table, i: nat)
    requires Inv(t) && i < ID_BITS
    ensures BucketInv(t.self, i, t.buckets[i])
  {
  }

  lemma NothingMissing(self: NodeID, i: nat)
    ensures KeepsBest(self, i, [], [])
  {
  }

  lemma LastIsNew(nodes: seq<Node>)
    requires DistinctIDs(nodes) && nodes != []
    ensures DistinctIDs(nodes[..|nodes| - 1])
    ensures forall n :: n in nodes[..|nodes| - 1] ==> n.id != nodes[|nodes| - 1].id
  {
  }

  /** The nodes of a table, listed bucket by bucket, all have different identifiers. */
  lemma SnapshotDistinct(t: Table)
    requires Inv(t)
    ensures DistinctIDs(Flat(t.buckets, ID_BITS))
  {
    hide BucketInv, Flat;
    var all := Flat(t.buckets, ID_BITS);
    forall x, y | 0 <= x < y < |all| ensures all[x].id != all[y].id {
      TwoDiffer(t, x, y);
    }
  }

  lemma TwoDiffer(t: Table, x: nat, y: nat)
    requires Inv(t) && |t.buckets| == ID_BITS && x < y < |Flat(t.buckets, ID_BITS)|
    ensures Flat(t.buckets, ID_BITS)[x].id != Flat(t.buckets, ID_BITS)[y].id
  {
    hide Inv, Flat, CommonBits;
    FlatSize(t.buckets, ID_BITS);
    var i := BucketAt(t.buckets, ID_BITS, x);
    var j := BucketAt(t.buckets, ID_BITS, y);
    var a, c := x - Count(t.buckets, i), y - Count(t.buckets, j);
    FlatAt(t.buckets, ID_BITS, i, a);
    FlatAt(t.buckets, ID_BITS, j, c);
    InvAt(t, i);
    InvAt(t, j);
    assert t.buckets[i][a] in t.buckets[i] && t.buckets[j][c] in t.buckets[j];
  }
}
