/** internal/dht/routing/table.go: the routing table as the object it is, one method per locked region. */
module RoutingTables {
  import opened Bytes
  import opened NodeIDs
  import opened Buckets
  import opened Tables
  import opened TableSteps
  import opened Sets
  import opened Nearest

  class RoutingTable {
    const self: NodeID
    const buckets: seq<Bucket>

    /** 160 different bucket objects. */
    ghost predicate Shape() {
      |buckets| == ID_BITS && forall i, j :: 0 <= i < j < |buckets| ==> buckets[i] != buckets[j]
    }

    /** The table as a value. */
    ghost function View(): (t: Table)
      requires Shape()
      reads buckets
      ensures t.self == self && |t.buckets| == ID_BITS
      ensures forall i :: 0 <= i < ID_BITS ==> t.buckets[i] == buckets[i].nodes
    {
      Table(self, seq(|buckets|, i requires 0 <= i < |buckets| reads buckets => buckets[i].nodes))
    }

    ghost predicate Valid()
      reads buckets
    {
      Shape() && Inv(View())
    }

    constructor (self: NodeID)
      ensures Valid() && this.self == self && View() == Empty(self)
      ensures fresh(buckets) && |buckets| == 160 && forall i :: 0 <= i < 160 ==> buckets[i].nodes == []
    {
      this.self := self;
      var bs: seq<Bucket> := [];
      var i := 0;
      while i < ID_BITS
        invariant 0 <= i <= ID_BITS && |bs| == i
        invariant forall j :: 0 <= j < i ==> fresh(bs[j]) && bs[j].nodes == []
        invariant forall j, k :: 0 <= j < k < i ==> bs[j] != bs[k]
      {
        var b := new Bucket();
        bs := bs + [b];
        i := i + 1;
      }
      buckets := bs;
      new;
      assert View() == Empty(self);
      ExecInv(self, []);
      assert Exec(self, []) == Empty(self);
    }

    method Insert(node: Node) returns (oldest: Option<Node>, ok: bool)
      requires Valid()
      modifies buckets
      ensures Valid() && View() == InsertTable(old(View()), node)
      ensures ok == Accepts(old(View()), node)
      ensures oldest.Some? <==> !ok && node.id != self
      ensures oldest.Some? ==>
        InsertOutcome(old(View()).buckets[BucketIndex(self, node.id)], node) == Rejected(oldest.value)
      ensures Entered(old(View()), View(), node, ok, oldest)
    {
      hide Inv, InsertNodes, InsertOutcome, View, Entered;
      SameBitsEqual(self, node.id);
      var i := PrefixLen(self, node.id);
      if i >= 160 {
        InsertedMeans(View(), node, false, None);
        return None, false;
      }
      ApplyKeepsInv(View(), Tables.Insert(node));
      var r := buckets[i].Insert(node);
      EditedAt(old(View()), View(), i);
      ok := r.Inserted?;
      oldest := if ok then None else Some(r.oldest);
      InsertedMeans(old(View()), node, ok, oldest);
    }

    method Remove(node: Node) returns (ok: bool)
      requires Valid()
      modifies buckets
      ensures Valid() && View() == RemoveTable(old(View()), node.id)
      ensures ok <==> node.id != self && HasID(old(View()).buckets[BucketIndex(self, node.id)], node.id)
      ensures Dropped(old(View()), View(), node.id, ok)
    {
      hide Inv, RemoveNodes, View, HasID, Dropped;
      SameBitsEqual(self, node.id);
      var i := PrefixLen(self, node.id);
      if i >= 160 {
        RemovedMeans(View(), node.id, false);
        return false;
      }
      ApplyKeepsInv(View(), Tables.Remove(node.id));
      ok := buckets[i].Remove(node.id);
      EditedAt(old(View()), View(), i);
      RemovedMeans(old(View()), node.id, ok);
    }

    method RecordFailure(id: NodeID) returns (evicted: bool)
      requires Valid()
      modifies buckets
      ensures Valid() && View() == FailTable(old(View()), id)
      ensures var k := BucketIndex(self, id);
              evicted <==> id != self && |View().buckets[k]| < |old(View()).buckets[k]|
      ensures Silent(old(View()), View(), id, evicted)
    {
      hide Inv, Find, Failed, Without, View, RemoveNodes, HasID, CommonBits, Edit, Silent;
      SameBitsEqual(self, id);
      var i := PrefixLen(self, id);
      if i >= 160 {
        FailureMeans(View(), id, false);
        return false;
      }
      ApplyKeepsInv(View(), Tables.RecordFailure(id));
      var b := buckets[i];
      ghost var before := b.nodes;
      var j := 0;
      evicted := false;
      while j < |b.nodes|
        invariant 0 <= j <= |b.nodes| && b.nodes == before
        invariant Find(before, id, 0) == Find(before, id, j)
        invariant forall k :: 0 <= k < ID_BITS && k != i ==> buckets[k].nodes == old(buckets[k].nodes)
      {
        FindHere(before, id, j);
        if b.nodes[j].id == id {
          evicted := FailAt(b, j);
          EditedAt(old(View()), View(), i);
          FailureMeans(old(View()), id, evicted);
          return;
        }
        j := j + 1;
      }
      FindEnd(before, id);
      EditedAt(old(View()), View(), i);
      FailedNone(before, id);
      FailureMeans(old(View()), id, evicted);
    }

    /** One more failure for the node at `j`, the first with its identifier. */
    method FailAt(b: Bucket, j: nat) returns (evicted: bool)
      requires j < |b.nodes| && Find(b.nodes, b.nodes[j].id, 0) == j
      modifies b
      ensures b.nodes == Failed(old(b.nodes), old(b.nodes[j].id))
      ensures evicted <==> |b.nodes| < old(|b.nodes|)
    {
      hide Find, Failed, Without, RemoveNodes, HasID;
      ghost var before := b.nodes;
      FailedAt(before, b.nodes[j].id, j);
      b.nodes := b.nodes[j := b.nodes[j].(failCount := b.nodes[j].failCount + 1)];
      evicted := false;
      if b.nodes[j].failCount >= MAX_FAILURES {
        FindUpdated(before, j, b.nodes[j]);
        evicted := b.Remove(b.nodes[j].id);
      }
    }

    method RecordSuccess(id: NodeID, now: int)
      requires Valid()
      modifies buckets
      ensures Valid() && View() == SucceedTable(old(View()), id, now)
      ensures Answered(old(View()), View(), id, now)
    {
      hide Inv, Find, View, Answered;
      SuccessMeans(View(), id, now);
      var i := PrefixLen(self, id);
      if i >= 160 {
        return;
      }
      ApplyKeepsInv(View(), Tables.RecordSuccess(id, now));
      var b := buckets[i];
      ghost var before := b.nodes;
      var j := 0;
      while j < |b.nodes|
        invariant 0 <= j <= |b.nodes| && b.nodes == before
        invariant Find(before, id, 0) == Find(before, id, j)
        invariant forall k :: 0 <= k < ID_BITS && k != i ==> buckets[k].nodes == old(buckets[k].nodes)
      {
        FindHere(before, id, j);
        if b.nodes[j].id == id {
          b.nodes := b.nodes[j := b.nodes[j].(failCount := 0, lastSeen := now)];
          EditedAt(old(View()), View(), i);
          return;
        }
        j := j + 1;
      }
      FindEnd(before, id);
      EditedAt(old(View()), View(), i);
    }

    /** All nodes, bucket by bucket. */
    method Snapshot() returns (nodes: seq<Node>)
      requires Valid()
      ensures nodes == Flat(View().buckets, ID_BITS)
    {
      nodes := [];
      var i := 0;
      while i < |buckets|
        invariant 0 <= i <= ID_BITS
        invariant nodes == Flat(View().buckets, i)
      {
        nodes := nodes + buckets[i].nodes;
        i := i + 1;
      }
    }

    method NumNodes() returns (n: nat)
      requires Valid()
      ensures n == Count(View().buckets, ID_BITS) <= 1263
    {
      CountBound(View());
      n := 0;
      var i := 0;
      while i < |buckets|
        invariant 0 <= i <= ID_BITS
        invariant n == Count(View().buckets, i)
      {
        n := n + |buckets[i].nodes|;
        i := i + 1;
      }
    }

    method FindClosest(target: NodeID, count: nat) returns (r: seq<Node>)
      requires Valid()
      ensures IsClosestOf(View(), target, count, r)
    {
      hide Inv, Closer, CommonBits, Steps, Gathered, IsClosestOf, View, Lo, Hi, Between, NodesIn;
      ghost var t := View();
      var i := PrefixLen(self, target);
      if i >= 160 {
        i := 159;
      }
      var candidates := buckets[i].nodes;
      GatheredFirst(t, i);
      FirstRange(i);
      var l, h := i - 1, i + 1;
      ghost var m := 0;
      while |candidates| < count && (l >= 0 || h < 160)
        invariant l == Lo(i, m) - 1 && h == Hi(i, m)
        invariant Gathered(t, l + 1, h, candidates)
        invariant Steps(t, i, count, 0) == Steps(t, i, count, m)
        decreases l + 1 + (160 - h)
      {
        StepOn(t, i, count, m, candidates);
        NextRange(i, m);
        if l >= 0 {
          GatheredLeft(t, l + 1, h, candidates);
          candidates := candidates + buckets[l].nodes;
          l := l - 1;
        }
        if h < 160 {
          GatheredRight(t, l + 1, h, candidates);
          candidates := candidates + buckets[h].nodes;
          h := h + 1;
        }
        m := m + 1;
      }
      StepsDone(t, i, count, m, candidates);
      assert l + 1 == VisitedLo(t, target, count) && h == VisitedHi(t, target, count);
      var sorted := SortByDistance(target, candidates);
      TakeNearest(t, target, l + 1, h, count, candidates, sorted);
      if |sorted| > count {
        sorted := sorted[..count];
      }
      r := sorted;
    }

    /** A random identifier that falls into the given bucket; the random bytes are a parameter. */
    method TargetForBucket(bucket: nat, rnd: NodeID) returns (target: NodeID)
      requires bucket < 160
      ensures CommonBits(self, target) == bucket
    {
      var byteIdx := bucket / 8;
      var bitIdx := bucket % 8;
      var t := new bv8[20](i requires 0 <= i < 20 => self[i]);
      t[byteIdx] := Xor8(t[byteIdx], Mask(bitIdx));
      for i := byteIdx + 1 to 20
        invariant forall k :: 0 <= k < byteIdx ==> t[k] == self[k]
        invariant t[byteIdx] == Xor8(self[byteIdx], Mask(bitIdx))
      {
        t[i] := Xor8(self[i], rnd[i]);
      }
      target := t[..];
      FlippedByte(self[byteIdx], bitIdx);
      DiffByte(self, target, byteIdx);
    }
  }

  /** Other goroutines' calls. */
  method Interleave(table: RoutingTable, ops: seq<Op>)
    requires table.Valid()
    modifies table.buckets
    ensures table.Valid() && table.View() == Applied(old(table.View()), ops)
  {
    hide Inv, RoutingTable.View, InsertTable, RemoveTable, FailTable, SucceedTable;
    assert ops[..0] == [];
    for i := 0 to |ops|
      invariant table.Valid() && table.View() == Applied(old(table.View()), ops[..i])
    {
      assert ops[..i + 1][..i] == ops[..i];
      match ops[i] {
        case Insert(n) =>
          var _, _ := table.Insert(n);
        case Remove(q) =>
          var _ := table.Remove(Node(q, Addr([0, 0, 0, 0], 0), 0, false, 0));
        case RecordFailure(q) =>
          var _ := table.RecordFailure(q);
        case RecordSuccess(q, now) =>
          table.RecordSuccess(q, now);
      }
    }
    assert ops[..|ops|] == ops;
  }

  function BucketIndex(self: NodeID, id: NodeID): (i: nat)
    ensures i < ID_BITS
  {
    var i := CommonBits(self, id);
    if i < ID_BITS then i else 159
  }

  /** Buckets 0 to k-1, in order. */
  function Flat(buckets: seq<seq<Node>>, k: nat): seq<Node>
    requires k <= |buckets|
  {
    if k == 0 then [] else Flat(buckets, k - 1) + buckets[k - 1]
  }

  /** Only bucket `i` changed. */
  lemma EditedAt(t: Table, t': Table, i: nat)
    requires t'.self == t.self && |t.buckets| == |t'.buckets| == ID_BITS && i < ID_BITS
    requires forall j :: 0 <= j < ID_BITS && j != i ==> t'.buckets[j] == t.buckets[j]
    ensures t' == Edit(t, i, t'.buckets[i])
  {
  }

  lemma FlippedByte(x: bv8, k: nat)
    requires k < 8
    ensures x != Xor8(x, Mask(k)) && LeadingZeros8(Xor8(x, Xor8(x, Mask(k)))) == k
  {
  }

  lemma FindHere(nodes: seq<Node>, id: NodeID, j: nat)
    requires j < |nodes|
    ensures Find(nodes, id, j) == if nodes[j].id == id then j else Find(nodes, id, j + 1)
  {
  }

  lemma FindEnd(nodes: seq<Node>, id: NodeID)
    ensures Find(nodes, id, |nodes|) == |nodes|
  {
  }

  lemma FailedAt(nodes: seq<Node>, id: NodeID, j: nat)
    requires j < |nodes| && Find(nodes, id, 0) == j
    ensures Failed(nodes, id) == (
              if nodes[j].failCount + 1 >= MAX_FAILURES then Without(nodes, j)
              else nodes[j := nodes[j].(failCount := nodes[j].failCount + 1)])
    ensures |Without(nodes, j)| == |nodes| - 1
  {
  }

  lemma FailedNone(nodes: seq<Node>, id: NodeID)
    requires Find(nodes, id, 0) == |nodes|
    ensures Failed(nodes, id) == nodes
  {
  }

  lemma {:induction false} FindFrom(nodes: seq<Node>, id: NodeID, i: nat, j: nat)
    requires i <= j < |nodes| && nodes[j].id == id && forall k :: i <= k < j ==> nodes[k].id != id
    ensures Find(nodes, id, i) == j
    decreases j - i
  {
    if i < j { FindFrom(nodes, id, i + 1, j); }
  }

  lemma FindUpdated(nodes: seq<Node>, j: nat, n: Node)
    requires j < |nodes| && nodes[j].id == n.id && Find(nodes, n.id, 0) == j
    ensures RemoveNodes(nodes[j := n], n.id) == Without(nodes, j)
    ensures HasID(nodes[j := n], n.id)
  {
    hide Find;
    assert nodes[j := n][j] == n;
    FindFrom(nodes[j := n], n.id, 0, j);
  }

  // ----- Gathering candidates -----

  /** `c` lists the nodes of buckets [lo, hi), each once. */
  ghost predicate Gathered(t: Table, lo: nat, hi: nat, c: seq<Node>)
    requires |t.buckets| == ID_BITS
  {
    lo <= hi <= ID_BITS && DistinctIDs(c) && ToSet(c) == NodesIn(t, lo, hi) && |c| == Between(t, lo, hi)
  }

  lemma FirstRange(i: nat)
    requires i < ID_BITS
    ensures Lo(i, 0) == i && Hi(i, 0) == i + 1
  {
  }

  lemma NextRange(i: nat, m: nat)
    requires i < ID_BITS
    ensures Lo(i, m + 1) == if Lo(i, m) > 0 then Lo(i, m) - 1 else 0
    ensures Hi(i, m + 1) == if Hi(i, m) < ID_BITS then Hi(i, m) + 1 else ID_BITS
  {
  }

  /** The guard of the search loop is the condition to take one more step. */
  lemma StepOn(t: Table, i: nat, count: nat, m: nat, c: seq<Node>)
    requires |t.buckets| == ID_BITS && i < ID_BITS && Gathered(t, Lo(i, m), Hi(i, m), c)
    requires |c| < count && (Lo(i, m) > 0 || Hi(i, m) < ID_BITS)
    ensures Steps(t, i, count, m) == Steps(t, i, count, m + 1)
  {
  }

  lemma StepsDone(t: Table, i: nat, count: nat, m: nat, c: seq<Node>)
    requires |t.buckets| == ID_BITS && i < ID_BITS && Gathered(t, Lo(i, m), Hi(i, m), c)
    requires |c| >= count || (Lo(i, m) == 0 && Hi(i, m) == ID_BITS)
    ensures Steps(t, i, count, m) == m
  {
  }

  lemma GatheredFirst(t: Table, i: nat)
    requires Inv(t) && i < ID_BITS
    ensures Gathered(t, i, i + 1, t.buckets[i])
  {
    hide CommonBits;
    assert BucketInv(t.self, i, t.buckets[i]);
    assert Count(t.buckets, i + 1) == Count(t.buckets, i) + |t.buckets[i]|;
  }

  lemma AppendBuckets(t: Table, c: seq<Node>, lo: nat, hi: nat, j: nat)
    requires Inv(t) && Gathered(t, lo, hi, c) && j < ID_BITS && (j < lo || hi <= j)
    ensures DistinctIDs(c + t.buckets[j])
    ensures ToSet(c + t.buckets[j]) == NodesIn(t, lo, hi) + ToSet(t.buckets[j])
  {
    hide CommonBits;
    NodesInBits(t, lo, hi);
    var b := t.buckets[j];
    assert BucketInv(t.self, j, b);
    var all := c + b;
    forall x, y | 0 <= x < y < |all| ensures all[x].id != all[y].id {
      if x < |c| <= y {
        assert all[x] in ToSet(c) && all[y] in b;
      }
    }
  }

  lemma GatheredLeft(t: Table, lo: nat, hi: nat, c: seq<Node>)
    requires Inv(t) && Gathered(t, lo, hi, c) && lo > 0
    ensures Gathered(t, lo - 1, hi, c + t.buckets[lo - 1])
  {
    AppendBuckets(t, c, lo, hi, lo - 1);
    assert NodesIn(t, lo - 1, hi) == NodesIn(t, lo, hi) + ToSet(t.buckets[lo - 1]);
  }

  lemma GatheredRight(t: Table, lo: nat, hi: nat, c: seq<Node>)
    requires Inv(t) && Gathered(t, lo, hi, c) && hi < ID_BITS
    ensures Gathered(t, lo, hi + 1, c + t.buckets[hi])
  {
    AppendBuckets(t, c, lo, hi, hi);
    NodesInStep(t, lo, hi + 1);
  }

  lemma SortKeepsNodes(c: seq<Node>, s: seq<Node>)
    requires multiset(s) == multiset(c) && DistinctIDs(c)
    ensures ToSet(s) == ToSet(c) && |s| == |c| && DistinctIDs(s)
  {
    assert forall n :: n in s <==> n in multiset(s);
    assert forall n :: n in c <==> n in multiset(c);
    assert |multiset(s)| == |s| && |multiset(c)| == |c|;
    forall a, b | 0 <= a < b < |s| ensures s[a].id != s[b].id {
      if s[a].id == s[b].id {
        assert s[a] in c && s[b] in c;
        assert s[a] == s[b];
        TwiceInMultiset(s, a, b);
        OnceInMultiset(c, s[a]);
      }
    }
  }

  lemma TwiceInMultiset(s: seq<Node>, a: nat, b: nat)
    requires a < b < |s| && s[a] == s[b]
    ensures multiset(s)[s[a]] >= 2
  {
    assert s == s[..b] + [s[b]] + s[b + 1..];
    assert s[..b][a] == s[a];
    assert s[a] in s[..b];
    assert multiset(s[..b])[s[a]] >= 1;
  }

  lemma {:induction false} OnceInMultiset(c: seq<Node>, n: Node)
    requires DistinctIDs(c)
    ensures multiset(c)[n] <= 1
  {
    if c != [] {
      var front, last := c[..|c| - 1], c[|c| - 1];
      OnceInMultiset(front, n);
      assert c == front + [last];
      assert last !in front;
      assert multiset(front)[last] == 0;
    }
  }

  /** Cutting the sorted candidates to the first `count` leaves the nearest ones. */
  lemma TakeNearest(t: Table, target: NodeID, lo: nat, hi: nat, count: nat, c: seq<Node>, s: seq<Node>)
    requires Inv(t) && Gathered(t, lo, hi, c)
    requires lo == VisitedLo(t, target, count) && hi == VisitedHi(t, target, count)
    requires SortedByDistance(target, s) && multiset(s) == multiset(c)
    ensures IsClosestOf(t, target, count, if |s| > count then s[..count] else s)
  {
    hide Closer, CommonBits, VisitedLo, VisitedHi, NodesIn, BucketInv, StartBucket;
    NodesInSize(t, lo, hi);
    SortKeepsNodes(c, s);
    var r := if |s| > count then s[..count] else s;
    assert r == s[..|r|];
    var visited := NodesIn(t, lo, hi);
    assert ToSet(r) <= ToSet(s);
    PrefixNearest(target, s, |r|);
    assert forall x :: x in visited <==> x in s;
  }

  lemma InPrefix(s: seq<Node>, k: nat, i: nat)
    requires k <= |s| && i < |s|
    ensures i < k ==> s[i] in s[..k]
  {
    assert i < k ==> s[..k][i] == s[i];
  }

  lemma PrefixNearest(target: NodeID, s: seq<Node>, k: nat)
    requires SortedByDistance(target, s) && DistinctIDs(s) && k <= |s|
    ensures forall x, y :: x in s && x !in s[..k] && y in s[..k] ==> Closer(target, y.id, x.id)
  {
    hide Closer;
    forall x, y | x in s && x !in s[..k] && y in s[..k] ensures Closer(target, y.id, x.id) {
      var b :| 0 <= b < |s| && s[b] == x;
      var a :| 0 <= a < k && s[a] == y;
      InPrefix(s, k, b);
      CloserTotalOrder(target, x.id, y.id, x.id);
    }
  }
}
