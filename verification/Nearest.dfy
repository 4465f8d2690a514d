/**
 * Nearest-node search (internal/dht/routing/table.go:113-150): which buckets the outward expansion visits, and when
 * the answer is the true set of nearest nodes.
 */
module Nearest {
  import opened NodeIDs
  import opened Buckets
  import opened Tables
  import opened Sets

  // ----- Sorting by distance -----

  ghost predicate SortedByDistance(target: NodeID, s: seq<Node>) {
    forall a, b :: 0 <= a < b < |s| ==> !Closer(target, s[b].id, s[a].id)
  }

  /** `sort.Slice` by distance: some sorted rearrangement. */
  method SortByDistance(target: NodeID, nodes: seq<Node>) returns (s: seq<Node>)
    ensures SortedByDistance(target, s) && multiset(s) == multiset(nodes)
  {
    hide Closer;
    s := [];
    var i := 0;
    while i < |nodes|
      invariant 0 <= i <= |nodes|
      invariant SortedByDistance(target, s) && multiset(s) == multiset(nodes[..i])
    {
      var n := nodes[i];
      var j := |s|;
      while j > 0 && Closer(target, n.id, s[j - 1].id)
        invariant 0 <= j <= |s|
        invariant forall k :: j <= k < |s| ==> Closer(target, n.id, s[k].id)
      {
        j := j - 1;
      }
      InsertSorted(target, s, j, n);
      InsertMultiset(s, j, n);
      assert nodes[..i + 1] == nodes[..i] + [n];
      s := s[..j] + [n] + s[j..];
      i := i + 1;
    }
    assert nodes[..i] == nodes;
  }

  lemma InsertMultiset(s: seq<Node>, j: nat, n: Node)
    requires j <= |s|
    ensures multiset(s[..j] + [n] + s[j..]) == multiset(s) + multiset{n}
  {
    assert s == s[..j] + s[j..];
  }

  lemma InsertSorted(target: NodeID, s: seq<Node>, j: nat, n: Node)
    requires SortedByDistance(target, s) && j <= |s|
    requires j > 0 ==> !Closer(target, n.id, s[j - 1].id)
    requires forall k :: j <= k < |s| ==> Closer(target, n.id, s[k].id)
    ensures SortedByDistance(target, s[..j] + [n] + s[j..])
  {
    hide Closer;
    var r := s[..j] + [n] + s[j..];
    forall a | 0 <= a < j ensures !Closer(target, n.id, s[a].id) {
      if a < j - 1 {
        NotCloserTransitive(target, s[a].id, s[j - 1].id, n.id);
      }
    }
    forall k | j <= k < |s| ensures !Closer(target, s[k].id, n.id) {
      CloserTotalOrder(target, n.id, s[k].id, n.id);
    }
    forall a, b | 0 <= a < b < |r| ensures !Closer(target, r[b].id, r[a].id) {
      var x := if a < j then a else a - 1;
      var y := if b < j then b else b - 1;
      if a != j && b != j {
        assert r[a] == s[x] && r[b] == s[y];
      }
    }
  }

  lemma NotCloserTransitive(target: NodeID, a: NodeID, b: NodeID, c: NodeID)
    requires !Closer(target, b, a) && !Closer(target, c, b)
    ensures !Closer(target, c, a)
  {
    hide Closer;
    CloserTotalOrder(target, c, a, b);
    CloserTotalOrder(target, a, b, c);
    CloserTotalOrder(target, b, c, a);
    CloserTotalOrder(target, c, b, a);
  }

  // ----- The buckets visited -----

  /** The target's own bucket; the last one for the table's own ID. */
  function StartBucket(t: Table, target: NodeID): (i: nat)
    ensures i < ID_BITS
  {
    var i := CommonBits(t.self, target);
    if i >= ID_BITS then 159 else i
  }

  function Lo(i: nat, m: nat): nat {
    if m <= i then i - m else 0
  }

  function Hi(i: nat, m: nat): (h: nat)
    requires i < ID_BITS
    ensures i < h <= ID_BITS
  {
    if i + m + 1 <= ID_BITS then i + m + 1 else ID_BITS
  }

  /** Nodes in buckets [lo, hi). */
  function Between(t: Table, lo: nat, hi: nat): int
    requires lo <= hi <= |t.buckets|
  {
    Count(t.buckets, hi) - Count(t.buckets, lo)
  }

  /** How many steps outwards the search takes, having taken `m`. */
  function Steps(t: Table, i: nat, count: nat, m: nat): (r: nat)
    requires |t.buckets| == ID_BITS && i < ID_BITS
    ensures r >= m
    ensures Between(t, Lo(i, r), Hi(i, r)) >= count || (Lo(i, r) == 0 && Hi(i, r) == ID_BITS)
    ensures forall k :: m <= k < r ==> Between(t, Lo(i, k), Hi(i, k)) < count
    decreases Lo(i, m) + (ID_BITS - Hi(i, m))
  {
    if Between(t, Lo(i, m), Hi(i, m)) >= count || (Lo(i, m) == 0 && Hi(i, m) == ID_BITS) then m
    else Steps(t, i, count, m + 1)
  }

  /** The buckets [VisitedLo, VisitedHi) are the ones the search looks at. */
  function VisitedLo(t: Table, target: NodeID, count: nat): nat
    requires |t.buckets| == ID_BITS
  {
    var i := StartBucket(t, target);
    Lo(i, Steps(t, i, count, 0))
  }

  function VisitedHi(t: Table, target: NodeID, count: nat): (h: nat)
    requires |t.buckets| == ID_BITS
    ensures StartBucket(t, target) < h <= ID_BITS
  {
    var i := StartBucket(t, target);
    Hi(i, Steps(t, i, count, 0))
  }

  // ----- Sets of nodes -----

  ghost function NodesIn(t: Table, lo: nat, hi: nat): set<Node>
    requires lo <= hi <= |t.buckets|
  {
    set j, n | lo <= j < hi && n in t.buckets[j] :: n
  }

  lemma BucketOf(t: Table, j: nat, n: Node)
    requires Inv(t) && j < ID_BITS && n in t.buckets[j]
    ensures CommonBits(t.self, n.id) == j
  {
    assert BucketInv(t.self, j, t.buckets[j]);
  }

  lemma NodesInBits(t: Table, lo: nat, hi: nat)
    requires Inv(t) && lo <= hi <= ID_BITS
    ensures forall n :: n in NodesIn(t, lo, hi) ==> lo <= CommonBits(t.self, n.id) < hi
  {
    hide CommonBits;
    forall n | n in NodesIn(t, lo, hi) ensures lo <= CommonBits(t.self, n.id) < hi {
      var j :| lo <= j < hi && n in t.buckets[j];
      BucketOf(t, j, n);
    }
  }

  lemma BucketSet(t: Table, j: nat)
    requires Inv(t) && j < ID_BITS
    ensures |ToSet(t.buckets[j])| == |t.buckets[j]|
    ensures forall n :: n in ToSet(t.buckets[j]) ==> CommonBits(t.self, n.id) == j
  {
    hide CommonBits;
    assert BucketInv(t.self, j, t.buckets[j]);
    DistinctSize(t.buckets[j]);
  }

  /** Sets of nodes from different buckets add up. */
  lemma DisjointSize(self: NodeID, a: set<Node>, b: set<Node>)
    requires forall x, y :: x in a && y in b ==> CommonBits(self, x.id) != CommonBits(self, y.id)
    ensures |a + b| == |a| + |b|
  {
    hide CommonBits;
    assert a !! b;
  }

  lemma NodesInStep(t: Table, lo: nat, hi: nat)
    requires lo < hi <= |t.buckets|
    ensures NodesIn(t, lo, hi) == NodesIn(t, lo, hi - 1) + ToSet(t.buckets[hi - 1])
  {
  }

  lemma NodesInNone(t: Table, lo: nat)
    requires lo <= |t.buckets|
    ensures NodesIn(t, lo, lo) == {}
  {
  }

  lemma {:induction false} NodesInSize(t: Table, lo: nat, hi: nat)
    requires Inv(t) && lo <= hi <= ID_BITS
    ensures |NodesIn(t, lo, hi)| == Between(t, lo, hi)
    decreases hi - lo
  {
    hide CommonBits, BucketInv, ToSet, NodesIn;
    if lo == hi {
      NodesInNone(t, lo);
    } else {
      NodesInSize(t, lo, hi - 1);
      NodesInStep(t, lo, hi);
      NodesInBits(t, lo, hi - 1);
      BucketSet(t, hi - 1);
      DisjointSize(t.self, NodesIn(t, lo, hi - 1), ToSet(t.buckets[hi - 1]));
    }
  }

  // ----- What the search returns -----

  /** The `count` nearest of the visited nodes, nearest first. */
  ghost predicate IsClosestOf(t: Table, target: NodeID, count: nat, r: seq<Node>)
    requires |t.buckets| == ID_BITS
  {
    var visited := NodesIn(t, VisitedLo(t, target, count), VisitedHi(t, target, count));
    && SortedByDistance(target, r)
    && DistinctIDs(r)
    && ToSet(r) <= visited
    && |r| == (if count <= |visited| then count else |visited|)
    && forall x, y :: x in visited && x !in r && y in r ==> Closer(target, y.id, x.id)
  }

  /** The true answer: nothing left out is as near as anything returned. */
  ghost predicate ExactlyNearest(t: Table, target: NodeID, r: seq<Node>) {
    forall x, y :: x in NodesIn(t, 0, |t.buckets|) && x !in r && y in r ==> Closer(target, y.id, x.id)
  }

  /** Whether the target differs from the table's own ID at bit `j`. */
  predicate Flips(t: Table, target: NodeID, j: nat)
    requires j < ID_BITS
  {
    Bit(t.self, j) != Bit(target, j)
  }

  lemma FlipsBits(t: Table, target: NodeID)
    ensures forall j :: 0 <= j < StartBucket(t, target) ==> !Flips(t, target, j)
    ensures target != t.self ==> Flips(t, target, StartBucket(t, target))
    ensures target == t.self ==> StartBucket(t, target) == 159
  {
    hide Bit;
    CommonBitsAre(t.self, target);
    SameBitsEqual(t.self, target);
  }

  /** Nodes of the lower-numbered bucket are nearer exactly if the target flips that bit. */
  lemma AcrossBuckets(t: Table, target: NodeID, i: nat, x: Node, j: nat, y: Node)
    requires Inv(t) && i < j < ID_BITS && x in t.buckets[i] && y in t.buckets[j]
    ensures Closer(target, x.id, y.id) <==> Flips(t, target, i)
    ensures Closer(target, y.id, x.id) <==> !Flips(t, target, i)
  {
    BucketOf(t, i, x);
    BucketOf(t, j, y);
    OrderAcrossBuckets(t.self, target, x.id, y.id);
  }

  lemma WhichBucket(t: Table, lo: nat, hi: nat, n: Node) returns (j: nat)
    requires lo <= hi <= |t.buckets| && n in NodesIn(t, lo, hi)
    ensures lo <= j < hi && n in t.buckets[j]
  {
    j :| lo <= j < hi && n in t.buckets[j];
  }

  /** Buckets at most `m` away from bucket `i`, and how many nodes they hold. */
  ghost function NodesNear(t: Table, i: nat, m: nat): set<Node>
    requires i < |t.buckets| == 160
  {
    set j, n | 0 <= j < 160 && i - m <= j <= i + m && n in t.buckets[j] :: n
  }

  lemma NearRange(t: Table, i: nat, m: nat)
    requires Inv(t) && i < 160
    ensures Lo(i, m) <= Hi(i, m) <= 160 && NodesNear(t, i, m) == NodesIn(t, Lo(i, m), Hi(i, m))
    ensures |NodesNear(t, i, m)| == Between(t, Lo(i, m), Hi(i, m))
  {
    hide CommonBits, BucketInv, Count;
    NodesInSize(t, Lo(i, m), Hi(i, m));
  }

  /**
   * The search looks at the buckets at most `m` away from the target's own (the last one for the own identifier), for
   * the least `m` for which they hold `count` nodes, or all there are.
   */
  lemma VisitedExactly(t: Table, target: NodeID, count: nat) returns (m: nat)
    requires Inv(t)
    ensures var i := if target == t.self then 159 else CommonBits(t.self, target);
            && i < 160
            && NodesIn(t, VisitedLo(t, target, count), VisitedHi(t, target, count)) == NodesNear(t, i, m)
            && (|NodesNear(t, i, m)| >= count || (i <= m && i + m >= 159))
            && forall k :: 0 <= k < m ==> |NodesNear(t, i, k)| < count
  {
    hide CommonBits, BucketInv, NodesNear, NodesIn, Between;
    SameBitsEqual(t.self, target);
    var i := StartBucket(t, target);
    m := Steps(t, i, count, 0);
    NearRange(t, i, m);
    forall k: nat | k < m ensures |NodesNear(t, i, k)| < count {
      NearRange(t, i, k);
    }
  }

  lemma ResultSize(t: Table, target: NodeID, count: nat, r: seq<Node>)
    requires Inv(t) && IsClosestOf(t, target, count, r)
    ensures |r| == if count <= Count(t.buckets, ID_BITS) then count else Count(t.buckets, ID_BITS)
  {
    var lo, hi := VisitedLo(t, target, count), VisitedHi(t, target, count);
    NodesInSize(t, lo, hi);
    CountGrows(t.buckets, hi, ID_BITS);
  }

  /** A node left out although it is nearer than a returned one sits in a bucket deeper than all visited ones. */
  lemma OnlyDeeperMissed(t: Table, target: NodeID, count: nat, r: seq<Node>, j: nat, x: Node, y: Node)
    requires Inv(t) && IsClosestOf(t, target, count, r)
    requires j < ID_BITS && x in t.buckets[j] && x !in r && y in r && !Closer(target, y.id, x.id)
    ensures j >= VisitedHi(t, target, count)
  {
    hide Closer, Flips, StartBucket, CommonBits, Steps, VisitedLo, VisitedHi;
    var lo, hi := VisitedLo(t, target, count), VisitedHi(t, target, count);
    FlipsBits(t, target);
    LoBelowStart(t, target, count);
    assert y in ToSet(r);
    var k := WhichBucket(t, lo, hi, y);
    assert x !in NodesIn(t, lo, hi);
    if j < lo {
      AcrossBuckets(t, target, j, x, k, y);
    }
  }

  lemma LoBelowStart(t: Table, target: NodeID, count: nat)
    requires |t.buckets| == ID_BITS
    ensures VisitedLo(t, target, count) <= StartBucket(t, target) < VisitedHi(t, target, count)
  {
  }

  // ----- When the answer is exact -----

  /** Nodes in buckets [lo, hi) at whose bit the target flips. */
  function FlippedCount(t: Table, target: NodeID, lo: nat, hi: nat): nat
    requires lo <= hi <= |t.buckets| == ID_BITS
    decreases hi - lo
  {
    if lo == hi then 0
    else FlippedCount(t, target, lo, hi - 1) + if Flips(t, target, hi - 1) then |t.buckets[hi - 1]| else 0
  }

  /**
   * No node lies deeper than the visited buckets, or enough nodes lie in the start bucket and those visited deeper
   * buckets whose bit the target flips.
   */
  predicate ExactCondition(t: Table, target: NodeID, count: nat)
    requires |t.buckets| == ID_BITS
  {
    var i, hi := StartBucket(t, target), VisitedHi(t, target, count);
    || Between(t, hi, ID_BITS) == 0
    || |t.buckets[i]| + FlippedCount(t, target, i + 1, hi) >= count
  }

  ghost function FlippedNodes(t: Table, target: NodeID, lo: nat, hi: nat): set<Node>
    requires lo <= hi <= |t.buckets| == ID_BITS
  {
    set j, n | lo <= j < hi && Flips(t, target, j) && n in t.buckets[j] :: n
  }

  lemma FlippedStep(t: Table, target: NodeID, lo: nat, hi: nat)
    requires lo < hi <= |t.buckets| == ID_BITS
    ensures FlippedNodes(t, target, lo, hi)
         == FlippedNodes(t, target, lo, hi - 1) + if Flips(t, target, hi - 1) then ToSet(t.buckets[hi - 1]) else {}
  {
    hide Flips;
  }

  lemma FlippedWithin(t: Table, target: NodeID, lo: nat, hi: nat)
    requires lo <= hi <= |t.buckets| == ID_BITS
    ensures FlippedNodes(t, target, lo, hi) <= NodesIn(t, lo, hi)
  {
    hide Flips;
  }

  lemma FlippedNone(t: Table, target: NodeID, lo: nat)
    requires lo <= |t.buckets| == ID_BITS
    ensures FlippedNodes(t, target, lo, lo) == {}
  {
  }

  lemma {:induction false} FlippedSize(t: Table, target: NodeID, lo: nat, hi: nat)
    requires Inv(t) && lo <= hi <= ID_BITS
    ensures |FlippedNodes(t, target, lo, hi)| == FlippedCount(t, target, lo, hi)
    decreases hi - lo
  {
    hide CommonBits, Flips, ToSet, BucketInv, FlippedNodes, NodesIn;
    if lo == hi {
      FlippedNone(t, target, lo);
    } else {
      FlippedSize(t, target, lo, hi - 1);
      FlippedStep(t, target, lo, hi);
      FlippedWithin(t, target, lo, hi - 1);
      NodesInBits(t, lo, hi - 1);
      BucketSet(t, hi - 1);
      DisjointSize(t.self, FlippedNodes(t, target, lo, hi - 1), ToSet(t.buckets[hi - 1]));
    }
  }

  /** The start bucket and the flipped visited buckets above it. */
  ghost function NearGroup(t: Table, target: NodeID, hi: nat): set<Node>
    requires |t.buckets| == ID_BITS && StartBucket(t, target) < hi <= ID_BITS
  {
    var i := StartBucket(t, target);
    ToSet(t.buckets[i]) + FlippedNodes(t, target, i + 1, hi)
  }

  lemma NearGroupSize(t: Table, target: NodeID, hi: nat)
    requires Inv(t) && StartBucket(t, target) < hi <= ID_BITS
    ensures var i := StartBucket(t, target);
            |NearGroup(t, target, hi)| == |t.buckets[i]| + FlippedCount(t, target, i + 1, hi)
  {
    hide CommonBits, Flips, StartBucket, ToSet, FlippedNodes, NodesIn;
    var i := StartBucket(t, target);
    BucketSet(t, i);
    FlippedSize(t, target, i + 1, hi);
    FlippedWithin(t, target, i + 1, hi);
    NodesInBits(t, i + 1, hi);
    DisjointSize(t.self, ToSet(t.buckets[i]), FlippedNodes(t, target, i + 1, hi));
  }

  /** Membership in the group is decided by the bucket alone. */
  lemma InGroup(t: Table, target: NodeID, hi: nat, j: nat, n: Node)
    requires Inv(t) && StartBucket(t, target) < hi <= ID_BITS && j < ID_BITS && n in t.buckets[j]
    ensures var i := StartBucket(t, target);
            n in NearGroup(t, target, hi) <==> j == i || (i < j < hi && Flips(t, target, j))
  {
    hide Flips, StartBucket, CommonBits;
    var i := StartBucket(t, target);
    BucketOf(t, j, n);
    if n in NearGroup(t, target, hi) {
      if n in ToSet(t.buckets[i]) {
        BucketOf(t, i, n);
      } else {
        var k :| i < k < hi && Flips(t, target, k) && n in t.buckets[k];
        BucketOf(t, k, n);
      }
    }
  }

  /** Every node of the group is nearer than every stored node outside it. */
  lemma GroupNearest(t: Table, target: NodeID, hi: nat, j: nat, g: Node, k: nat, x: Node)
    requires Inv(t) && StartBucket(t, target) < hi <= ID_BITS && j < ID_BITS && k < ID_BITS
    requires g in t.buckets[j] && x in t.buckets[k]
    requires g in NearGroup(t, target, hi) && x !in NearGroup(t, target, hi)
    ensures Closer(target, g.id, x.id)
  {
    hide Flips, StartBucket, Closer, NearGroup, CommonBits;
    FlipsBits(t, target);
    InGroup(t, target, hi, j, g);
    InGroup(t, target, hi, k, x);
    if k < j {
      AcrossBuckets(t, target, k, x, j, g);
    } else {
      AcrossBuckets(t, target, j, g, k, x);
    }
  }

  /** A result that is the `count` nearest of the visited nodes stays inside any larger group of visited nearest nodes. */
  lemma ResultInGroup(t: Table, target: NodeID, count: nat, r: seq<Node>)
    requires Inv(t) && IsClosestOf(t, target, count, r)
    requires |NearGroup(t, target, VisitedHi(t, target, count))| >= count
    ensures ToSet(r) <= NearGroup(t, target, VisitedHi(t, target, count))
  {
    hide StartBucket, Closer, NearGroup, CommonBits, VisitedLo, VisitedHi, Flips;
    var lo, hi := VisitedLo(t, target, count), VisitedHi(t, target, count);
    var group := NearGroup(t, target, hi);
    LoBelowStart(t, target, count);
    GroupVisited(t, target, lo, hi);
    DistinctSize(r);
    forall y | y in ToSet(r) ensures y in group {
      if y !in group {
        var k := WhichBucket(t, lo, hi, y);
        forall g | g in group ensures g in ToSet(r) {
          var j := WhichBucket(t, lo, hi, g);
          GroupNearest(t, target, hi, j, g, k, y);
          CloserTotalOrder(target, g.id, y.id, g.id);
        }
        SubsetSize(group + {y}, ToSet(r));
      }
    }
  }

  lemma GroupVisited(t: Table, target: NodeID, lo: nat, hi: nat)
    requires |t.buckets| == ID_BITS && lo <= StartBucket(t, target) < hi <= ID_BITS
    ensures NearGroup(t, target, hi) <= NodesIn(t, lo, hi)
  {
    hide StartBucket, Flips;
  }

  /** Enough nodes in the group make the answer exact. */
  lemma GroupMakesExact(t: Table, target: NodeID, count: nat, r: seq<Node>)
    requires Inv(t) && IsClosestOf(t, target, count, r)
    requires |NearGroup(t, target, VisitedHi(t, target, count))| >= count
    ensures ExactlyNearest(t, target, r)
  {
    hide StartBucket, Closer, NearGroup, CommonBits, VisitedLo, VisitedHi, Flips;
    var lo, hi := VisitedLo(t, target, count), VisitedHi(t, target, count);
    LoBelowStart(t, target, count);
    ResultInGroup(t, target, count, r);
    GroupVisited(t, target, lo, hi);
    forall x, y | x in NodesIn(t, 0, |t.buckets|) && x !in r && y in r ensures Closer(target, y.id, x.id) {
      assert y in ToSet(r);
      if x !in NearGroup(t, target, hi) {
        var j := WhichBucket(t, lo, hi, y);
        var k := WhichBucket(t, 0, ID_BITS, x);
        GroupNearest(t, target, hi, j, y, k, x);
      }
    }
  }

  lemma NoneDeeper(t: Table, hi: nat, j: nat, x: Node)
    requires hi <= |t.buckets| == ID_BITS && j < ID_BITS && x in t.buckets[j]
    ensures NodesIn(t, hi, ID_BITS) == {} ==> j < hi
  {
    assert j >= hi ==> x in NodesIn(t, hi, ID_BITS);
  }

  lemma NothingDeeperMakesExact(t: Table, target: NodeID, count: nat, r: seq<Node>)
    requires Inv(t) && IsClosestOf(t, target, count, r) && Between(t, VisitedHi(t, target, count), ID_BITS) == 0
    ensures ExactlyNearest(t, target, r)
  {
    hide StartBucket, Closer, CommonBits, VisitedLo, VisitedHi, Between;
    var hi := VisitedHi(t, target, count);
    NodesInSize(t, hi, ID_BITS);
    assert NodesIn(t, hi, ID_BITS) == {};
    forall x, y | x in NodesIn(t, 0, |t.buckets|) && x !in r && y in r ensures Closer(target, y.id, x.id) {
      var j := WhichBucket(t, 0, ID_BITS, x);
      NoneDeeper(t, hi, j, x);
      if !Closer(target, y.id, x.id) {
        OnlyDeeperMissed(t, target, count, r, j, x, y);
      }
    }
  }

  /** A deeper node beats every returned node outside the group. */
  lemma DeeperBeats(t: Table, target: NodeID, hi: nat, k: nat, x: Node, j: nat, y: Node)
    requires Inv(t) && StartBucket(t, target) < hi <= k < ID_BITS && j < hi
    requires x in t.buckets[k] && y in t.buckets[j] && y !in NearGroup(t, target, hi)
    ensures Closer(target, x.id, y.id) && !Closer(target, y.id, x.id)
  {
    hide Closer, Flips, StartBucket, NearGroup, CommonBits;
    FlipsBits(t, target);
    InGroup(t, target, hi, j, y);
    AcrossBuckets(t, target, j, y, k, x);
  }

  lemma ConditionNecessary(t: Table, target: NodeID, count: nat, r: seq<Node>)
    requires Inv(t) && IsClosestOf(t, target, count, r) && !ExactCondition(t, target, count)
    ensures !ExactlyNearest(t, target, r)
  {
    hide StartBucket, Closer, CommonBits, VisitedLo, VisitedHi, Flips, NearGroup, Between;
    var lo, hi := VisitedLo(t, target, count), VisitedHi(t, target, count);
    var group := NearGroup(t, target, hi);
    LoBelowStart(t, target, count);
    NearGroupSize(t, target, hi);
    NodesInSize(t, hi, ID_BITS);
    var x :| x in NodesIn(t, hi, ID_BITS);
    var k := WhichBucket(t, hi, ID_BITS, x);
    EnoughVisited(t, target, count);
    NodesInSize(t, lo, hi);
    DistinctSize(r);
    var y := Outside(ToSet(r), group);
    var j := WhichBucket(t, lo, hi, y);
    DeeperBeats(t, target, hi, k, x, j, y);
    assert x !in r by {
      NodesInBits(t, lo, hi);
      BucketOf(t, k, x);
    }
    assert y in r && x in NodesIn(t, 0, |t.buckets|);
  }

  lemma Outside(a: set<Node>, b: set<Node>) returns (y: Node)
    requires |a| > |b|
    ensures y in a && y !in b
  {
    if a <= b { SubsetSize(a, b); }
    y :| y in a && y !in b;
  }

  lemma EnoughVisited(t: Table, target: NodeID, count: nat)
    requires |t.buckets| == ID_BITS && Between(t, VisitedHi(t, target, count), ID_BITS) != 0
    ensures Between(t, VisitedLo(t, target, count), VisitedHi(t, target, count)) >= count
  {
  }

  /** The search returns the true nearest nodes exactly under the stated condition on the bucket sizes. */
  lemma ExactIff(t: Table, target: NodeID, count: nat, r: seq<Node>)
    requires Inv(t) && IsClosestOf(t, target, count, r)
    ensures ExactlyNearest(t, target, r) <==> ExactCondition(t, target, count)
  {
    hide StartBucket, Closer, VisitedHi, NearGroup, Between, ExactlyNearest, IsClosestOf, FlippedCount, NodesIn;
    var hi := VisitedHi(t, target, count);
    if ExactCondition(t, target, count) {
      if Between(t, hi, ID_BITS) == 0 {
        NothingDeeperMakesExact(t, target, count, r);
      } else {
        LoBelowStart(t, target, count);
        NearGroupSize(t, target, hi);
        GroupMakesExact(t, target, count, r);
      }
    } else {
      ConditionNecessary(t, target, count, r);
    }
  }

  /** In particular: a full start bucket, or the table's own ID as the target. */
  lemma ExactCases(t: Table, target: NodeID, count: nat)
    requires |t.buckets| == ID_BITS && (|t.buckets[StartBucket(t, target)]| >= count || target == t.self)
    ensures ExactCondition(t, target, count)
  {
    hide CommonBits, Flips;
    FlipsBits(t, target);
  }

  // ----- A table on which the answer is not exact -----

  function Id(first: bv8, last: bv8): NodeID {
    [first] + seq(18, _ => 0) + [last]
  }

  function NodeAt(id: NodeID): Node {
    Node(id, Addr([10, 0, 0, 1], 6881), 0, false, 0)
  }

  function EightNodes(): (r: seq<Node>)
    ensures |r| == 8
  {
    [NodeAt(Id(0x80, 1)), NodeAt(Id(0x80, 2)), NodeAt(Id(0x80, 3)), NodeAt(Id(0x80, 4)),
     NodeAt(Id(0x80, 5)), NodeAt(Id(0x80, 6)), NodeAt(Id(0x80, 7)), NodeAt(Id(0x80, 8))]
  }

  /** Eight nodes in bucket 0, one in bucket 3, for the identifier that is all zeros. */
  function Lopsided(): (t: Table)
    ensures t.self == Id(0, 0) && |t.buckets| == ID_BITS
    ensures forall i :: 0 <= i < ID_BITS ==> t.buckets[i] == LopsidedBucket(i)
  {
    Table(Id(0, 0), seq(ID_BITS, i requires 0 <= i => LopsidedBucket(i)))
  }

  function LopsidedBucket(i: nat): seq<Node> {
    if i == 0 then EightNodes() else if i == 3 then [NodeAt(Id(0x10, 0))] else []
  }

  lemma FirstByteBits(first: bv8, last: bv8)
    requires first != 0
    ensures CommonBits(Id(0, 0), Id(first, last)) == LeadingZeros8(Xor8(0, first))
  {
    hide LeadingZeros8, Xor8, CommonBits;
    DiffByte(Id(0, 0), Id(first, last), 0);
  }

  lemma LeadingZerosHere()
    ensures LeadingZeros8(Xor8(0, 0x80)) == 0 && LeadingZeros8(Xor8(0, 0x10)) == 3
  {
  }

  lemma LopsidedInv()
    ensures Inv(Lopsided())
  {
    hide CommonBits, LeadingZeros8, Lopsided;
    var eight := EightNodes();
    assert LeadingZeros8(Xor8(0, 0x80)) == 0 && LeadingZeros8(Xor8(0, 0x10)) == 3 by { LeadingZerosHere(); }
    assert DistinctIDs(eight) by {
      forall i, j | 0 <= i < j < 8 ensures eight[i].id != eight[j].id {
        assert eight[i].id[19] != eight[j].id[19];
      }
    }
    forall k | 0 <= k < 8 ensures CommonBits(Id(0, 0), eight[k].id) == 0 {
      FirstByteBits(0x80, eight[k].id[19]);
      assert eight[k].id == Id(0x80, eight[k].id[19]);
    }
    FirstByteBits(0x10, 0);
    forall i | 0 <= i < ID_BITS ensures BucketInv(Id(0, 0), i, LopsidedBucket(i)) {
      if i == 0 {
        assert forall n :: n in eight ==> CommonBits(Id(0, 0), n.id) == 0;
      }
    }
  }

  lemma LopsidedCounts()
    ensures var b := Lopsided().buckets;
            Count(b, 0) == 0 && Count(b, 1) == Count(b, 2) == Count(b, 3) == 8 && Count(b, ID_BITS) >= 9
  {
    hide Id, Lopsided;
    var b := Lopsided().buckets;
    assert |b[0]| == 8 && b[1] == [] && b[2] == [] && |b[3]| == 1;
    assert Count(b, 0) == 0;
    assert Count(b, 1) == Count(b, 0) + |b[0]|;
    assert Count(b, 2) == Count(b, 1) + |b[1]|;
    assert Count(b, 3) == Count(b, 2) + |b[2]|;
    assert Count(b, 4) == Count(b, 3) + |b[3]|;
    CountGrows(b, 4, ID_BITS);
  }

  /** The search for an identifier of bucket 1 stops after buckets 0 to 2 and misses a nearer node in bucket 3. */
  lemma NotAlwaysExact(r: seq<Node>)
    requires IsClosestOf(Lopsided(), Id(0x40, 0), K, r)
    ensures Inv(Lopsided()) && !ExactlyNearest(Lopsided(), Id(0x40, 0), r)
  {
    hide CommonBits, IsClosestOf, ExactlyNearest, Id, Inv, Lopsided;
    var t, target := Lopsided(), Id(0x40, 0);
    LopsidedInv();
    LopsidedCounts();
    FirstByteBits(0x40, 0);
    assert StartBucket(t, target) == 1;
    assert Between(t, Lo(1, 0), Hi(1, 0)) == 0;
    assert Between(t, Lo(1, 1), Hi(1, 1)) == 8;
    assert Steps(t, 1, K, 1) == 1;
    assert Steps(t, 1, K, 0) == 1;
    assert FlippedCount(t, target, 2, 3) == 0;
    ExactIff(t, target, K, r);
  }
}
