/** internal/dht/routing/node.go and bucket.go: a bounded list of contacts, least recently inserted first. */
module Buckets {
  import opened Bytes
  import opened NodeIDs

  type IPv4 = s: seq<byte> | |s| == 4 witness [0, 0, 0, 0]

  type Port = p: int | 0 <= p < 0x1_0000

  datatype Addr = Addr(ip: IPv4, port: Port)

  datatype Node = Node(id: NodeID, addr: Addr, lastSeen: int, compliant: bool, failCount: int)

  /** Bucket capacity. */
  const K := 8

  /** The first index from `i` on that holds `id`, or the number of nodes. */
  function Find(nodes: seq<Node>, id: NodeID, i: nat): (k: nat)
    requires i <= |nodes|
    ensures i <= k <= |nodes| && (k < |nodes| ==> nodes[k].id == id)
    ensures forall j :: i <= j < k ==> nodes[j].id != id
    decreases |nodes| - i
  {
    if i == |nodes| || nodes[i].id == id then i else Find(nodes, id, i + 1)
  }

  /** The first index from `i` on of a node that is not BEP 42 compliant, or the number of nodes. */
  function FindNonCompliant(nodes: seq<Node>, i: nat): (k: nat)
    requires i <= |nodes|
    ensures i <= k <= |nodes| && (k < |nodes| ==> !nodes[k].compliant)
    ensures forall j :: i <= j < k ==> nodes[j].compliant
    decreases |nodes| - i
  {
    if i == |nodes| || !nodes[i].compliant then i else FindNonCompliant(nodes, i + 1)
  }

  function Without(nodes: seq<Node>, i: nat): seq<Node>
    requires i < |nodes|
  {
    nodes[..i] + nodes[i + 1..]
  }

  /** `(nil, true)` or `(oldest, false)`. */
  datatype InsertResult = Inserted | Rejected(oldest: Node)

  function InsertNodes(nodes: seq<Node>, n: Node): seq<Node> {
    var i := Find(nodes, n.id, 0);
    if i < |nodes| then Without(nodes, i) + [n]
    else if |nodes| != K then nodes + [n]
    else
      var j := FindNonCompliant(nodes, 0);
      if n.compliant && j < |nodes| then Without(nodes, j) + [n] else nodes
  }

  function InsertOutcome(nodes: seq<Node>, n: Node): InsertResult {
    if Find(nodes, n.id, 0) < |nodes| || |nodes| != K || (n.compliant && FindNonCompliant(nodes, 0) < |nodes|)
    then Inserted
    else Rejected(nodes[0])
  }

  function RemoveNodes(nodes: seq<Node>, id: NodeID): seq<Node> {
    var i := Find(nodes, id, 0);
    if i < |nodes| then Without(nodes, i) else nodes
  }

  class Bucket {
    var nodes: seq<Node>

    constructor ()
      ensures nodes == []
    {
      nodes := [];
    }

    method Insert(node: Node) returns (r: InsertResult)
      modifies this
      ensures nodes == InsertNodes(old(nodes), node)
      ensures r == InsertOutcome(old(nodes), node)
    {
      if |nodes| == K {
        var i := 0;
        while i < |nodes|
          invariant 0 <= i <= |nodes| && nodes == old(nodes)
          invariant Find(nodes, node.id, 0) == Find(nodes, node.id, i)
        {
          if nodes[i].id == node.id {
            nodes := nodes[..i] + nodes[i + 1..];
            nodes := nodes + [node];
            return Inserted;
          }
          i := i + 1;
        }
        if node.compliant {
          i := 0;
          while i < |nodes|
            invariant 0 <= i <= |nodes| && nodes == old(nodes)
            invariant FindNonCompliant(nodes, 0) == FindNonCompliant(nodes, i)
          {
            if !nodes[i].compliant {
              nodes := nodes[..i] + nodes[i + 1..];
              nodes := nodes + [node];
              return Inserted;
            }
            i := i + 1;
          }
        }
        r := Rejected(nodes[0]);
      } else {
        var i := 0;
        while i < |nodes|
          invariant 0 <= i <= |nodes| && nodes == old(nodes)
          invariant Find(nodes, node.id, 0) == Find(nodes, node.id, i)
        {
          if nodes[i].id == node.id {
            nodes := nodes[..i] + nodes[i + 1..];
            nodes := nodes + [node];
            return Inserted;
          }
          i := i + 1;
        }
        nodes := nodes + [node];
        r := Inserted;
      }
    }

    method Remove(id: NodeID) returns (ok: bool)
      modifies this
      ensures nodes == RemoveNodes(old(nodes), id)
      ensures ok <==> HasID(old(nodes), id)
    {
      var i := 0;
      while i < |nodes|
        invariant 0 <= i <= |nodes| && nodes == old(nodes)
        invariant Find(nodes, id, 0) == Find(nodes, id, i)
      {
        if nodes[i].id == id {
          nodes := nodes[..i] + nodes[i + 1..];
          return true;
        }
        i := i + 1;
      }
      ok := false;
    }
  }

  // ----- What the splices mean -----

  predicate DistinctIDs(nodes: seq<Node>) {
    forall i, j :: 0 <= i < j < |nodes| ==> nodes[i].id != nodes[j].id
  }

  ghost predicate HasID(nodes: seq<Node>, id: NodeID) {
    exists i :: 0 <= i < |nodes| && nodes[i].id == id
  }

  lemma WithoutHas(nodes: seq<Node>, i: nat, n: Node)
    requires i < |nodes| && DistinctIDs(nodes)
    ensures n in Without(nodes, i) <==> n in nodes && n.id != nodes[i].id
  {
    var w := Without(nodes, i);
    if n in nodes && n.id != nodes[i].id {
      var k :| 0 <= k < |nodes| && nodes[k] == n;
      assert w[if k < i then k else k - 1] == n;
    }
    if n in w {
      var k :| 0 <= k < |w| && w[k] == n;
      assert n == nodes[if k < i then k else k + 1];
    }
  }

  lemma WithoutElements(nodes: seq<Node>, i: nat)
    requires i < |nodes| && DistinctIDs(nodes)
    ensures DistinctIDs(Without(nodes, i))
    ensures forall n :: n in Without(nodes, i) <==> n in nodes && n.id != nodes[i].id
  {
    forall n ensures n in Without(nodes, i) <==> n in nodes && n.id != nodes[i].id {
      WithoutHas(nodes, i, n);
    }
  }

  /** Who is evicted by an insertion into a full bucket: the longest unrefreshed non-compliant node, if anyone. */
  ghost predicate Evicts(nodes: seq<Node>, n: Node, victim: Node) {
    && |nodes| == K && n.compliant && !HasID(nodes, n.id)
    && exists j :: 0 <= j < |nodes| && nodes[j] == victim && !victim.compliant && forall i :: 0 <= i < j ==> nodes[i].compliant
  }

  lemma EvictedIs(nodes: seq<Node>, n: Node, m: Node)
    ensures HasID(nodes, n.id) <==> Find(nodes, n.id, 0) < |nodes|
    ensures var j := FindNonCompliant(nodes, 0);
            Evicts(nodes, n, m) <==>
              |nodes| == K && n.compliant && Find(nodes, n.id, 0) == |nodes| && j < |nodes| && m == nodes[j]
  {
    hide Find, FindNonCompliant;
  }

  /** An insertion is refused exactly when the bucket is full of others, all compliant if the newcomer is. */
  lemma RefusedExactly(nodes: seq<Node>, n: Node)
    ensures InsertOutcome(nodes, n).Rejected? <==>
              |nodes| == K && !HasID(nodes, n.id) && (n.compliant ==> forall m :: m in nodes ==> m.compliant)
    ensures InsertOutcome(nodes, n).Rejected? ==> InsertNodes(nodes, n) == nodes && InsertOutcome(nodes, n).oldest == nodes[0]
  {
    hide Find, FindNonCompliant;
    var j := FindNonCompliant(nodes, 0);
    assert (forall m :: m in nodes ==> m.compliant) <==> j == |nodes|;
    assert HasID(nodes, n.id) <==> Find(nodes, n.id, 0) < |nodes|;
  }

  /** Otherwise the newcomer ends up last, and exactly its old entry or the one evicted node is gone. */
  lemma AcceptedExactly(nodes: seq<Node>, n: Node)
    requires DistinctIDs(nodes) && InsertOutcome(nodes, n).Inserted?
    ensures var after := InsertNodes(nodes, n);
            && after != [] && after[|after| - 1] == n
            && (forall m :: m in after <==> m == n || (m in nodes && m.id != n.id && !Evicts(nodes, n, m)))
  {
    hide Find, FindNonCompliant, Without, Evicts;
    var i, j := Find(nodes, n.id, 0), FindNonCompliant(nodes, 0);
    forall m ensures m in InsertNodes(nodes, n) <==> m == n || (m in nodes && m.id != n.id && !Evicts(nodes, n, m)) {
      EvictedIs(nodes, n, m);
      if i < |nodes| {
        WithoutElements(nodes, i);
      } else if |nodes| == K {
        WithoutElements(nodes, j);
        SameIDSameNode(nodes, j, m);
      }
    }
  }

  lemma SameIDSameNode(nodes: seq<Node>, j: nat, m: Node)
    requires DistinctIDs(nodes) && j < |nodes|
    ensures m in nodes && m.id == nodes[j].id ==> m == nodes[j]
  {
  }

  lemma InsertKeepsBucket(nodes: seq<Node>, n: Node)
    requires DistinctIDs(nodes)
    ensures DistinctIDs(InsertNodes(nodes, n))
    ensures |nodes| <= K ==> |InsertNodes(nodes, n)| <= K
  {
    hide Find, FindNonCompliant;
    var i, j := Find(nodes, n.id, 0), FindNonCompliant(nodes, 0);
    if i < |nodes| {
      WithoutElements(nodes, i);
      AppendDistinct(Without(nodes, i), n);
    } else if |nodes| != K {
      AppendDistinct(nodes, n);
    } else if n.compliant && j < |nodes| {
      WithoutElements(nodes, j);
      AppendDistinct(Without(nodes, j), n);
    }
  }

  lemma AppendDistinct(nodes: seq<Node>, n: Node)
    requires DistinctIDs(nodes) && forall m :: m in nodes ==> m.id != n.id
    ensures DistinctIDs(nodes + [n])
  {
  }

  lemma RemoveMeaning(nodes: seq<Node>, id: NodeID)
    requires DistinctIDs(nodes)
    ensures forall m :: m in RemoveNodes(nodes, id) <==> m in nodes && m.id != id
    ensures DistinctIDs(RemoveNodes(nodes, id)) && |RemoveNodes(nodes, id)| <= |nodes|
  {
    var i := Find(nodes, id, 0);
    if i < |nodes| {
      WithoutElements(nodes, i);
    } else {
      assert forall m :: m in nodes ==> m.id != id;
    }
  }
}
