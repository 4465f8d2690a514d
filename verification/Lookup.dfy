/**
 * internal/dht/dht.go:733-820: the iterative lookup, against a network that may answer anything. No contact is asked
 * twice, so one arbitrary reply for each contact stands for any behaviour in time; the replies of a round arrive in
 * any order.
 */
module Lookup {
  import opened Sets
  import opened NodeIDs
  import opened Buckets
  import opened Tables
  import opened TableSteps
  import opened Nearest
  import opened RoutingTables

  const MAX_ROUNDS := 10

  /** A missing reply, or the contacts parsed from one. */
  datatype Reply = NoReply | Contacts(nodes: seq<Node>)

  /**
   * Everything a lookup depends on: replies, the times they are recorded at, and what other goroutines have done to the
   * table just before.
   */
  datatype Search = Search(target: NodeID, alpha: nat, seeds: seq<Node>, net: Node -> Reply, clock: Node -> int,
                           others: Node -> seq<Op>)

  function Contributed(s: Search, n: Node): seq<Node> {
    match s.net(n)
    case NoReply => []
    case Contacts(nodes) => nodes
  }

  /** All contacts received from the nodes of one round. */
  function Received(s: Search, q: seq<Node>): multiset<Node> {
    if q == [] then multiset{} else Received(s, q[..|q| - 1]) + multiset(Contributed(s, q[|q| - 1]))
  }

  /** Each contact received from a round comes from the reply of one of its nodes, as often as the replies hold it. */
  lemma {:induction false} ReceivedExactly(s: Search, q: seq<Node>, c: Node)
    ensures Received(s, q)[c] == Told(s, q, c)
    ensures c in Received(s, q) <==> exists j :: 0 <= j < |q| && s.net(q[j]).Contacts? && c in s.net(q[j]).nodes
  {
    if q != [] {
      var front, n := q[..|q| - 1], q[|q| - 1];
      ReceivedExactly(s, front, c);
      assert forall j :: 0 <= j < |front| ==> front[j] == q[j];
      if s.net(n).Contacts? && c in s.net(n).nodes {
        assert q[|q| - 1] == n;
      }
    }
  }

  /** How often the replies of a round hold a contact. */
  function Told(s: Search, q: seq<Node>, c: Node): nat {
    if q == [] then 0
    else
      Told(s, q[..|q| - 1], c)
      + match s.net(q[|q| - 1])
        case NoReply => 0
        case Contacts(nodes) => multiset(nodes)[c]
  }

  /** The seeds and every contact received so far. */
  function Known(s: Search, rounds: seq<seq<Node>>): multiset<Node> {
    if rounds == [] then multiset(s.seeds)
    else Known(s, rounds[..|rounds| - 1]) + Received(s, rounds[|rounds| - 1])
  }

  function ToldInAll(s: Search, rounds: seq<seq<Node>>, c: Node): nat {
    if rounds == [] then 0 else ToldInAll(s, rounds[..|rounds| - 1], c) + Told(s, rounds[|rounds| - 1], c)
  }

  ghost predicate HeardOf(s: Search, rounds: seq<seq<Node>>, c: Node) {
    exists i, j :: 0 <= i < |rounds| && 0 <= j < |rounds[i]| && s.net(rounds[i][j]).Contacts? && c in s.net(rounds[i][j]).nodes
  }

  /** What is known are the seeds and what the replies hold, each as often as they hold it together. */
  lemma {:induction false} KnownExactly(s: Search, rounds: seq<seq<Node>>, c: Node)
    ensures Known(s, rounds)[c] == multiset(s.seeds)[c] + ToldInAll(s, rounds, c)
    ensures c in Known(s, rounds) <==> c in s.seeds || HeardOf(s, rounds, c)
  {
    hide Received, Told;
    if rounds != [] {
      var front, q := rounds[..|rounds| - 1], rounds[|rounds| - 1];
      KnownExactly(s, front, c);
      ReceivedExactly(s, q, c);
      HeardLater(s, rounds, c);
    }
  }

  lemma HeardLater(s: Search, rounds: seq<seq<Node>>, c: Node)
    requires rounds != []
    ensures var front, q := rounds[..|rounds| - 1], rounds[|rounds| - 1];
            HeardOf(s, rounds, c) <==>
              HeardOf(s, front, c) || exists j :: 0 <= j < |q| && s.net(q[j]).Contacts? && c in s.net(q[j]).nodes
  {
    var n := |rounds| - 1;
    var front, q := rounds[..n], rounds[n];
    assert forall i :: 0 <= i < n ==> front[i] == rounds[i];
    if j :| 0 <= j < |q| && s.net(q[j]).Contacts? && c in s.net(q[j]).nodes {
      assert rounds[n][j] == q[j];
    }
    if i, j :| 0 <= i < |rounds| && 0 <= j < |rounds[i]| && s.net(rounds[i][j]).Contacts? && c in s.net(rounds[i][j]).nodes {
      if i < n { assert front[i][j] == rounds[i][j]; }
    }
  }

  ghost function IDs(q: seq<Node>): set<NodeID> {
    set n | n in q :: n.id
  }

  ghost function Asked(rounds: seq<seq<Node>>): set<NodeID> {
    if rounds == [] then {} else Asked(rounds[..|rounds| - 1]) + IDs(rounds[|rounds| - 1])
  }

  /** The nearest known contacts whose identifier was not asked before, at most `alpha`, each identifier once. */
  ghost predicate IsRound(s: Search, known: multiset<Node>, asked: set<NodeID>, q: seq<Node>) {
    && |q| <= s.alpha && DistinctIDs(q)
    && (forall n :: n in q ==> n in known && n.id !in asked)
    && forall c :: c in known && c.id !in asked && c.id !in IDs(q) ==>
         |q| == s.alpha && forall n :: n in q ==> !Closer(s.target, c.id, n.id)
  }

  /** Something known later is strictly nearer than everything known before. */
  ghost predicate Improved(target: NodeID, before: multiset<Node>, after: multiset<Node>) {
    exists c :: c in after && forall d :: d in before ==> Closer(target, c.id, d.id)
  }

  /** The rounds of a lookup: each asks the right nodes, and none follows a round that brought nothing nearer. */
  ghost predicate Trace(s: Search, rounds: seq<seq<Node>>) {
    rounds == [] ||
    var front, q := rounds[..|rounds| - 1], rounds[|rounds| - 1];
    && Trace(s, front)
    && q != [] && IsRound(s, Known(s, front), Asked(front), q)
    && (front != [] ==> Improved(s.target, Known(s, front[..|front| - 1]), Known(s, front)))
  }

  /** Why there is no further round. */
  ghost predicate Finished(s: Search, rounds: seq<seq<Node>>) {
    || |rounds| == MAX_ROUNDS
    || s.alpha == 0
    || (forall c :: c in Known(s, rounds) ==> c.id in Asked(rounds))
    || (rounds != [] && !Improved(s.target, Known(s, rounds[..|rounds| - 1]), Known(s, rounds)))
  }

  /** The `K` nearest of `known`, nearest first; equal contacts are kept as often as they occur. */
  ghost predicate IsAnswer(target: NodeID, known: multiset<Node>, r: seq<Node>) {
    && SortedByDistance(target, r)
    && multiset(r) <= known
    && |r| == (if K <= |known| then K else |known|)
    && forall x, y :: x in known - multiset(r) && y in r ==> !Closer(target, x.id, y.id)
  }

  /** The table after the replies to `q` have been recorded in this order, amid what others do. */
  function Recorded(s: Search, t: Table, q: seq<Node>): (r: Table)
    requires |t.buckets| == ID_BITS
    ensures |r.buckets| == ID_BITS && r.self == t.self
  {
    if q == [] then t
    else
      var n := q[|q| - 1];
      Apply(Applied(Recorded(s, t, q[..|q| - 1]), s.others(n)),
            if s.net(n).NoReply? then RecordFailure(n.id) else RecordSuccess(n.id, s.clock(n)))
  }

  function RecordedAll(s: Search, t: Table, rounds: seq<seq<Node>>): (r: Table)
    requires |t.buckets| == ID_BITS
    ensures |r.buckets| == ID_BITS && r.self == t.self
  {
    if rounds == [] then t else Recorded(s, RecordedAll(s, t, rounds[..|rounds| - 1]), rounds[|rounds| - 1])
  }

  // ----- The source's loops -----

  /** The loop that fills `toQuery` from the sorted candidates. */
  method Choose(ghost s: Search, target: NodeID, alpha: nat, candidates: seq<Node>, queried: set<NodeID>)
    returns (toQuery: seq<Node>, queried': set<NodeID>)
    requires s.target == target && s.alpha == alpha && SortedByDistance(target, candidates)
    ensures IsRound(s, multiset(candidates), queried, toQuery)
    ensures queried' == queried + IDs(toQuery)
    ensures |toQuery| <= alpha && forall n :: n in toQuery ==> n in candidates && n.id !in queried
    ensures forall i, j :: 0 <= i < j < |toQuery| ==> toQuery[i].id != toQuery[j].id
    ensures forall c :: c in candidates && c.id !in queried' ==>
              |toQuery| == alpha && forall n :: n in toQuery ==> !Closer(target, c.id, n.id)
  {
    hide Closer;
    toQuery, queried' := [], queried;
    var i := 0;
    while i < |candidates|
      invariant 0 <= i <= |candidates|
      invariant |toQuery| <= alpha && DistinctIDs(toQuery) && queried' == queried + IDs(toQuery)
      invariant forall n :: n in toQuery ==> n in candidates[..i] && n.id !in queried
      invariant forall j :: 0 <= j < i ==> candidates[j].id in queried'
    {
      if |toQuery| >= alpha {
        break;
      }
      var c := candidates[i];
      assert candidates[..i + 1] == candidates[..i] + [c];
      if c.id !in queried' {
        NewID(toQuery, c);
        toQuery := toQuery + [c];
        queried' := queried' + {c.id};
      }
      i := i + 1;
    }
    RoundChosen(s, candidates, queried, toQuery, i);
    RoundPlain(s, candidates, queried, toQuery);
  }

  lemma RoundPlain(s: Search, candidates: seq<Node>, queried: set<NodeID>, q: seq<Node>)
    requires IsRound(s, multiset(candidates), queried, q)
    ensures |q| <= s.alpha && forall n :: n in q ==> n in candidates && n.id !in queried
    ensures forall i, j :: 0 <= i < j < |q| ==> q[i].id != q[j].id
    ensures forall c :: c in candidates && c.id !in queried + IDs(q) ==>
              |q| == s.alpha && forall n :: n in q ==> !Closer(s.target, c.id, n.id)
  {
    hide Closer;
    assert forall n :: n in candidates <==> n in multiset(candidates);
  }

  lemma NewID(q: seq<Node>, c: Node)
    requires DistinctIDs(q) && c.id !in IDs(q)
    ensures DistinctIDs(q + [c]) && IDs(q + [c]) == IDs(q) + {c.id}
  {
    assert forall n :: n in q ==> n.id in IDs(q);
    AppendDistinct(q, c);
    forall i ensures i in IDs(q + [c]) <==> i in IDs(q) + {c.id} {
      if i in IDs(q) {
        var n :| n in q && n.id == i;
        assert n in q + [c];
      }
      assert c in q + [c];
    }
  }

  lemma RoundChosen(s: Search, candidates: seq<Node>, queried: set<NodeID>, q: seq<Node>, i: nat)
    requires SortedByDistance(s.target, candidates) && i <= |candidates|
    requires |q| <= s.alpha && DistinctIDs(q) && forall n :: n in q ==> n in candidates[..i] && n.id !in queried
    requires forall j :: 0 <= j < i ==> candidates[j].id in queried + IDs(q)
    requires i == |candidates| || |q| >= s.alpha
    ensures IsRound(s, multiset(candidates), queried, q)
  {
    hide Closer;
    forall c | c in multiset(candidates) && c.id !in queried && c.id !in IDs(q)
      ensures |q| == s.alpha && forall n :: n in q ==> !Closer(s.target, c.id, n.id)
    {
      var j :| 0 <= j < |candidates| && candidates[j] == c;
      assert j >= i;
      forall n | n in q ensures !Closer(s.target, c.id, n.id) {
        var k :| 0 <= k < i && candidates[k] == n;
      }
    }
  }

  /** The goroutines of one round: replies are handled one at a time, in any order. */
  method Ask(s: Search, table: RoutingTable, toQuery: seq<Node>, candidates: seq<Node>)
    returns (candidates': seq<Node>, ghost arrived: seq<Node>)
    requires table.Valid()
    modifies table.buckets
    ensures table.Valid() && table.View() == Recorded(s, old(table.View()), arrived)
    ensures multiset(arrived) == multiset(toQuery)
    ensures multiset(candidates') == multiset(candidates) + Received(s, arrived)
    ensures forall c :: c in candidates' <==>
              c in candidates || exists n :: n in toQuery && s.net(n).Contacts? && c in s.net(n).nodes
  {
    hide Inv, Apply, Applied, FailTable, SucceedTable, RoutingTable.View, Received, Recorded;
    AskNobody(s, table.View());
    var pending := toQuery;
    candidates', arrived := candidates, [];
    while pending != []
      invariant table.Valid() && table.View() == Recorded(s, old(table.View()), arrived)
      invariant multiset(arrived) + multiset(pending) == multiset(toQuery)
      invariant multiset(candidates') == multiset(candidates) + Received(s, arrived)
      decreases |pending|
    {
      var k :| 0 <= k < |pending|;
      var n := pending[k];
      TakeOne(pending, k);
      pending := pending[..k] + pending[k + 1..];
      AskStep(s, old(table.View()), arrived, n);
      Interleave(table, s.others(n));
      match s.net(n) {
        case NoReply =>
          var _ := table.RecordFailure(n.id);
        case Contacts(nodes) =>
          table.RecordSuccess(n.id, s.clock(n));
          candidates' := candidates' + nodes;
      }
      arrived := arrived + [n];
    }
    CandidatesAre(s, toQuery, arrived, candidates, candidates');
  }

  lemma CandidatesAre(s: Search, q: seq<Node>, p: seq<Node>, before: seq<Node>, after: seq<Node>)
    requires multiset(p) == multiset(q) && multiset(after) == multiset(before) + Received(s, p)
    ensures forall c :: c in after <==> c in before || exists n :: n in q && s.net(n).Contacts? && c in s.net(n).nodes
  {
    hide Received;
    assert forall n :: n in p <==> n in multiset(p);
    assert forall n :: n in q <==> n in multiset(q);
    forall c ensures c in after <==> c in before || exists n :: n in q && s.net(n).Contacts? && c in s.net(n).nodes {
      ReceivedExactly(s, p, c);
      assert c in after <==> c in multiset(after);
      assert c in before <==> c in multiset(before);
      if n :| n in q && s.net(n).Contacts? && c in s.net(n).nodes {
        var j :| 0 <= j < |p| && p[j] == n;
      }
    }
  }

  lemma AskNobody(s: Search, t: Table)
    requires |t.buckets| == ID_BITS
    ensures Recorded(s, t, []) == t && Received(s, []) == multiset{}
  {
  }

  lemma TakeOne(p: seq<Node>, k: nat)
    requires k < |p|
    ensures multiset(p) == multiset(p[..k] + p[k + 1..]) + multiset{p[k]}
  {
    assert p == p[..k] + [p[k]] + p[k + 1..];
  }

  lemma AskStep(s: Search, t: Table, arrived: seq<Node>, n: Node)
    requires |t.buckets| == ID_BITS
    ensures Received(s, arrived + [n]) == Received(s, arrived) + multiset(Contributed(s, n))
    ensures var before := Applied(Recorded(s, t, arrived), s.others(n));
            && (s.net(n).NoReply? ==> Recorded(s, t, arrived + [n]) == FailTable(before, n.id))
            && (s.net(n).Contacts? ==> Recorded(s, t, arrived + [n]) == SucceedTable(before, n.id, s.clock(n)))
    ensures multiset(arrived + [n]) == multiset(arrived) + multiset{n}
  {
    assert (arrived + [n])[..|arrived|] == arrived;
  }

  method IterativeFindNode(table: RoutingTable, target: NodeID, alpha: nat, net: Node -> Reply, clock: Node -> int,
                           others: Node -> seq<Op>)
    returns (r: seq<Node>, ghost s: Search, ghost rounds: seq<seq<Node>>)
    requires table.Valid()
    modifies table.buckets
    ensures s.target == target && s.alpha == alpha && s.net == net && s.clock == clock && s.others == others
    ensures IsClosestOf(old(table.View()), target, K, s.seeds)
    ensures |rounds| <= MAX_ROUNDS && Trace(s, rounds) && Finished(s, rounds)
    ensures IsAnswer(target, Known(s, rounds), r)
    ensures table.Valid() && table.View() == RecordedAll(s, old(table.View()), rounds)
    ensures |rounds| <= 10 && BestOf(s, rounds, r)
  {
    hide Closer, Inv, IsClosestOf, Trace, Finished, IsAnswer, IsRound, Recorded, Received, Improved, RoutingTable.View;
    hide Known, Asked, RecordedAll, SortedByDistance, BestOf;
    var seeds := table.FindClosest(target, K);
    var search := Search(target, alpha, seeds, net, clock, others);
    s, rounds := search, [];
    TraceStart(s, old(table.View()));
    if seeds == [] {
      NothingKnown(s);
      AnswerPlain(s, rounds, []);
      return [], s, rounds;
    }
    var queried: set<NodeID> := {};
    var candidates := seeds;
    var round := 0;
    var prevClosest := target;
    while round < 10
      invariant |rounds| == round <= 10
      invariant candidates != [] && multiset(candidates) == Known(s, rounds) && queried == Asked(rounds)
      invariant Trace(s, rounds) && (rounds != [] ==> IsNearest(target, Known(s, rounds[..|rounds| - 1]), prevClosest))
      invariant table.Valid() && table.View() == RecordedAll(s, old(table.View()), rounds)
      decreases 10 - round
    {
      candidates := Reorder(target, candidates);
      FirstIsNearest(target, candidates);
      if round > 0 && candidates[0].id == prevClosest {
        Converged(s, rounds, prevClosest);
        break;
      }
      BetterHead(s, rounds, prevClosest, candidates[0].id);
      prevClosest := candidates[0].id;
      var toQuery, asked := Choose(s, target, alpha, candidates, queried);
      queried := asked;
      if toQuery == [] {
        NobodyLeft(s, rounds);
        break;
      }
      ghost var arrived;
      candidates, arrived := Ask(search, table, toQuery, candidates);
      RoundInAnyOrder(s, Known(s, rounds), Asked(rounds), toQuery, arrived);
      RoundAppended(s, old(table.View()), rounds, arrived);
      rounds := rounds + [arrived];
      round := round + 1;
    }
    if round >= 10 { TenRounds(s, rounds); }
    candidates := Reorder(target, candidates);
    CutAnswer(target, candidates);
    if |candidates| > K {
      candidates := candidates[..K];
    }
    r := candidates;
    AnswerPlain(s, rounds, r);
  }

  /**
   * At most eight contacts, nearest first, each a seed or in a reply; and whatever seed or contact in a reply is left out
   * is no nearer than any of them, there being eight.
   */
  ghost predicate BestOf(s: Search, rounds: seq<seq<Node>>, r: seq<Node>) {
    && |r| <= 8
    && (forall a, b :: 0 <= a < b < |r| ==> !Closer(s.target, r[b].id, r[a].id))
    && (forall c :: c in r ==> c in s.seeds || HeardOf(s, rounds, c))
    && (forall c :: c in s.seeds || HeardOf(s, rounds, c) ==> r != [] && !Closer(s.target, c.id, r[0].id))
    && (forall c :: (c in s.seeds || HeardOf(s, rounds, c)) && c !in r ==>
          |r| == 8 && forall y :: y in r ==> !Closer(s.target, c.id, y.id))
  }

  /** The answer in terms of the seeds and the replies. */
  lemma AnswerPlain(s: Search, rounds: seq<seq<Node>>, r: seq<Node>)
    requires IsAnswer(s.target, Known(s, rounds), r)
    ensures BestOf(s, rounds, r)
  {
    hide Closer, Known, HeardOf;
    var known := Known(s, rounds);
    forall c | c in r ensures c in s.seeds || HeardOf(s, rounds, c) {
      KnownExactly(s, rounds, c);
      assert c in multiset(r);
    }
    forall c | c in s.seeds || HeardOf(s, rounds, c)
      ensures r != [] && !Closer(s.target, c.id, r[0].id)
      ensures c !in r ==> |r| == 8 && forall y :: y in r ==> !Closer(s.target, c.id, y.id)
    {
      KnownExactly(s, rounds, c);
      NearestFirst(s.target, known, r, c);
      if c !in r { LeftOut(s.target, known, r, c); }
    }
  }

  lemma LeftOut(target: NodeID, known: multiset<Node>, r: seq<Node>, c: Node)
    requires IsAnswer(target, known, r) && c in known && c !in r
    ensures |r| == 8 && forall y :: y in r ==> !Closer(target, c.id, y.id)
  {
    hide Closer;
    assert c !in multiset(r);
    assert c in known - multiset(r);
    assert |known - multiset(r)| + |multiset(r)| == |known|;
    assert |multiset(r)| == |r|;
  }

  lemma NearestFirst(target: NodeID, known: multiset<Node>, r: seq<Node>, c: Node)
    requires IsAnswer(target, known, r) && c in known
    ensures r != [] && !Closer(target, c.id, r[0].id)
  {
    hide Closer;
    assert |known| > 0;
    if c in multiset(r) {
      var k :| 0 <= k < |r| && r[k] == c;
      CloserTotalOrder(target, r[0].id, r[0].id, r[0].id);
    } else {
      assert c in known - multiset(r);
    }
  }

  /** `sort.Slice` on a non-empty slice. */
  method Reorder(target: NodeID, c: seq<Node>) returns (r: seq<Node>)
    ensures SortedByDistance(target, r) && multiset(r) == multiset(c)
    ensures c != [] ==> r != []
  {
    r := SortByDistance(target, c);
    assert |multiset(r)| == |r| && |multiset(c)| == |c|;
  }

  ghost predicate IsNearest(target: NodeID, known: multiset<Node>, id: NodeID) {
    && (exists c :: c in known && c.id == id)
    && forall c :: c in known ==> !Closer(target, c.id, id)
  }

  lemma TraceStart(s: Search, t: Table)
    requires |t.buckets| == ID_BITS
    ensures Trace(s, []) && Known(s, []) == multiset(s.seeds) && Asked([]) == {} && RecordedAll(s, t, []) == t
  {
  }

  lemma NothingKnown(s: Search)
    requires s.seeds == []
    ensures Finished(s, []) && IsAnswer(s.target, Known(s, []), [])
  {
    hide Closer;
  }

  lemma FirstIsNearest(target: NodeID, c: seq<Node>)
    requires c != [] && SortedByDistance(target, c)
    ensures IsNearest(target, multiset(c), c[0].id)
  {
    hide Closer;
    assert c[0] in multiset(c);
    forall x | x in multiset(c) ensures !Closer(target, x.id, c[0].id) {
      var k :| 0 <= k < |c| && c[k] == x;
      CloserTotalOrder(target, c[0].id, c[0].id, c[0].id);
    }
  }

  lemma Converged(s: Search, rounds: seq<seq<Node>>, id: NodeID)
    requires rounds != [] && IsNearest(s.target, Known(s, rounds[..|rounds| - 1]), id)
    requires IsNearest(s.target, Known(s, rounds), id)
    ensures Finished(s, rounds)
  {
    hide Closer, Known, Asked;
  }

  lemma BetterHead(s: Search, rounds: seq<seq<Node>>, prev: NodeID, id: NodeID)
    requires IsNearest(s.target, Known(s, rounds), id)
    requires rounds != [] ==> IsNearest(s.target, Known(s, rounds[..|rounds| - 1]), prev) && id != prev
    ensures rounds != [] ==> Improved(s.target, Known(s, rounds[..|rounds| - 1]), Known(s, rounds))
  {
    hide Closer, Received;
    if rounds != [] {
      var before, after := Known(s, rounds[..|rounds| - 1]), Known(s, rounds);
      assert after == before + Received(s, rounds[|rounds| - 1]);
      var c :| c in after && c.id == id;
      var p :| p in before && p.id == prev;
      assert p in after;
      CloserTotalOrder(s.target, id, prev, id);
      forall d | d in before ensures Closer(s.target, c.id, d.id) {
        CloserTotalOrder(s.target, id, prev, d.id);
        CloserTotalOrder(s.target, prev, d.id, prev);
      }
    }
  }

  lemma NobodyLeft(s: Search, rounds: seq<seq<Node>>)
    requires IsRound(s, Known(s, rounds), Asked(rounds), [])
    ensures Finished(s, rounds)
  {
    hide Closer, Known, Asked;
  }

  lemma TenRounds(s: Search, rounds: seq<seq<Node>>)
    requires |rounds| == MAX_ROUNDS
    ensures Finished(s, rounds)
  {
  }

  lemma RoundInAnyOrder(s: Search, known: multiset<Node>, asked: set<NodeID>, q: seq<Node>, p: seq<Node>)
    requires IsRound(s, known, asked, q) && multiset(p) == multiset(q)
    ensures IsRound(s, known, asked, p) && IDs(p) == IDs(q) && |p| == |q|
  {
    hide Closer;
    SortKeepsNodes(q, p);
    assert forall n :: n in p <==> n in ToSet(p);
    assert forall n :: n in q <==> n in ToSet(q);
  }

  lemma RoundAppended(s: Search, t: Table, rounds: seq<seq<Node>>, q: seq<Node>)
    requires Trace(s, rounds) && q != [] && IsRound(s, Known(s, rounds), Asked(rounds), q) && |t.buckets| == ID_BITS
    requires rounds != [] ==> Improved(s.target, Known(s, rounds[..|rounds| - 1]), Known(s, rounds))
    ensures var all := rounds + [q];
            && Trace(s, all) && Asked(all) == Asked(rounds) + IDs(q)
            && Known(s, all) == Known(s, rounds) + Received(s, q)
            && RecordedAll(s, t, all) == Recorded(s, RecordedAll(s, t, rounds), q)
  {
    hide IsRound, Improved, Recorded, Received;
    assert (rounds + [q])[..|rounds|] == rounds;
  }

  lemma CutRest(c: seq<Node>, k: nat)
    requires k <= |c|
    ensures multiset(c[..k]) <= multiset(c) && multiset(c) - multiset(c[..k]) == multiset(c[k..])
    ensures |multiset(c)| == |c|
  {
    assert c == c[..k] + c[k..];
  }

  lemma AnswerParts(target: NodeID, c: seq<Node>, k: nat)
    requires k == (if K <= |c| then K else |c|) && SortedByDistance(target, c[..k])
    requires forall x: Node, y: Node :: x in multiset(c[k..]) && y in c[..k] ==> !Closer(target, x.id, y.id)
    ensures IsAnswer(target, multiset(c), c[..k])
  {
    hide Closer, SortedByDistance;
    CutRest(c, k);
  }

  lemma CutAnswer(target: NodeID, c: seq<Node>)
    requires SortedByDistance(target, c)
    ensures IsAnswer(target, multiset(c), if |c| > K then c[..K] else c)
  {
    hide Closer, IsAnswer;
    var k := if |c| > K then K else |c|;
    var r, rest := c[..k], c[k..];
    CutRest(c, k);
    assert c[..|c|] == c;
    assert SortedByDistance(target, r);
    forall x: Node, y: Node | x in multiset(rest) && y in r ensures !Closer(target, x.id, y.id) {
      var i :| 0 <= i < |rest| && rest[i] == x;
      var j :| 0 <= j < k && r[j] == y;
      assert c[k + i] == x && c[j] == y;
    }
    AnswerParts(target, c, k);
  }

  // ----- What every trace satisfies -----

  /** How many nodes were asked in all. */
  function Queries(rounds: seq<seq<Node>>): nat {
    if rounds == [] then 0 else Queries(rounds[..|rounds| - 1]) + |rounds[|rounds| - 1]|
  }

  lemma {:induction false} IDsSize(q: seq<Node>)
    requires DistinctIDs(q)
    ensures |IDs(q)| == |q|
  {
    if q != [] {
      var front, last := q[..|q| - 1], q[|q| - 1];
      IDsSize(front);
      assert q == front + [last];
      NewIDsLast(front, last);
    }
  }

  lemma NewIDsLast(front: seq<Node>, last: Node)
    requires DistinctIDs(front + [last])
    ensures last.id !in IDs(front) && IDs(front + [last]) == IDs(front) + {last.id}
  {
    var q := front + [last];
    if last.id in IDs(front) {
      var k :| 0 <= k < |front| && front[k].id == last.id;
      assert q[k].id == q[|front|].id;
    }
    assert DistinctIDs(front) by {
      forall i, j | 0 <= i < j < |front| ensures front[i].id != front[j].id {
        assert q[i] == front[i] && q[j] == front[j];
      }
    }
    NewID(front, last);
  }

  lemma LastRound(s: Search, rounds: seq<seq<Node>>)
    requires Trace(s, rounds) && rounds != []
    ensures var front, q := rounds[..|rounds| - 1], rounds[|rounds| - 1];
            && Trace(s, front) && |q| <= s.alpha && DistinctIDs(q) && Asked(front) !! IDs(q)
            && (front != [] ==> Improved(s.target, Known(s, front[..|front| - 1]), Known(s, front)))
  {
    hide Closer, Known, Improved;
  }

  /** No identifier is asked twice in the whole lookup, and at most `alpha` are asked in a round. */
  lemma {:induction false} NoneAskedTwice(s: Search, rounds: seq<seq<Node>>)
    requires Trace(s, rounds)
    ensures |Asked(rounds)| == Queries(rounds) <= s.alpha * |rounds|
  {
    hide Trace, Asked, Queries;
    if rounds == [] {
      NobodyAsked();
    } else {
      var front := rounds[..|rounds| - 1];
      AskedStep(s, rounds);
      NoneAskedTwice(s, front);
      assert s.alpha * |rounds| == s.alpha * |front| + s.alpha;
    }
  }

  lemma NobodyAsked()
    ensures Asked([]) == {} && Queries([]) == 0
  {
  }

  lemma AskedStep(s: Search, rounds: seq<seq<Node>>)
    requires Trace(s, rounds) && rounds != []
    ensures var front, q := rounds[..|rounds| - 1], |rounds[|rounds| - 1]|;
            && Trace(s, front) && q <= s.alpha
            && |Asked(rounds)| == |Asked(front)| + q && Queries(rounds) == Queries(front) + q
  {
    hide Trace, IDs, DistinctIDs;
    LastRound(s, rounds);
    IDsSize(rounds[|rounds| - 1]);
  }

  lemma {:induction false} KnownGrows(s: Search, rounds: seq<seq<Node>>, i: nat)
    requires i <= |rounds|
    ensures Known(s, rounds[..i]) <= Known(s, rounds)
    decreases |rounds|
  {
    if i == |rounds| {
      assert rounds[..i] == rounds;
    } else {
      var front := rounds[..|rounds| - 1];
      KnownGrows(s, front, i);
      assert front[..i] == rounds[..i];
    }
  }

  lemma {:induction false} TracePrefix(s: Search, rounds: seq<seq<Node>>, i: nat)
    requires Trace(s, rounds) && i <= |rounds|
    ensures Trace(s, rounds[..i])
    decreases |rounds|
  {
    hide Trace;
    if i == |rounds| {
      assert rounds[..i] == rounds;
    } else {
      var front := rounds[..|rounds| - 1];
      LastRound(s, rounds);
      TracePrefix(s, front, i);
      assert front[..i] == rounds[..i];
    }
  }

  lemma ImprovedFurther(target: NodeID, a: multiset<Node>, b: multiset<Node>, c: multiset<Node>)
    requires Improved(target, a, b) && b <= c
    ensures Improved(target, a, c)
  {
    hide Closer;
    var n :| n in b && forall d :: d in a ==> Closer(target, n.id, d.id);
    assert n in c;
  }

  /** The nearest known contact gets strictly nearer with every round that another one follows, and never farther. */
  lemma NearestImproves(s: Search, rounds: seq<seq<Node>>, i: nat, j: nat)
    requires Trace(s, rounds) && i < j < |rounds|
    ensures Improved(s.target, Known(s, rounds[..i]), Known(s, rounds[..j]))
    ensures Improved(s.target, Known(s, rounds[..i]), Known(s, rounds))
  {
    hide Trace, Improved, Known;
    var head := rounds[..i + 2];
    TracePrefix(s, rounds, i + 2);
    LastRound(s, head);
    assert head[..i + 1] == rounds[..i + 1] && rounds[..i + 1][..i] == rounds[..i];
    assert rounds[..j][..i + 1] == rounds[..i + 1];
    KnownGrows(s, rounds[..j], i + 1);
    KnownGrows(s, rounds, i + 1);
    ImprovedFurther(s.target, Known(s, rounds[..i]), Known(s, rounds[..i + 1]), Known(s, rounds[..j]));
    ImprovedFurther(s.target, Known(s, rounds[..i]), Known(s, rounds[..i + 1]), Known(s, rounds));
  }

  /** Nothing the lookup ever saw, seeds included, is nearer than the first node of its answer. */
  lemma AnswerHead(s: Search, rounds: seq<seq<Node>>, r: seq<Node>)
    requires IsAnswer(s.target, Known(s, rounds), r) && s.seeds != []
    ensures r != [] && forall c :: c in Known(s, rounds) ==> !Closer(s.target, c.id, r[0].id)
  {
    hide Closer, IsAnswer;
    KnownGrows(s, rounds, 0);
    assert s.seeds[0] in multiset(s.seeds);
    assert s.seeds[0] in Known(s, rounds);
    forall c | c in Known(s, rounds) ensures r != [] && !Closer(s.target, c.id, r[0].id) {
      NearestFirst(s.target, Known(s, rounds), r, c);
    }
  }

  /** There are ten rounds, or nobody is left to ask, or the last round brought nothing nearer. */
  lemma FinishedMeans(s: Search, rounds: seq<seq<Node>>)
    requires Finished(s, rounds) && |rounds| < 10 && s.alpha > 0
    ensures (forall c :: c in s.seeds || HeardOf(s, rounds, c) ==> exists q, n :: q in rounds && n in q && n.id == c.id)
            || (rounds != [] && forall c :: c in s.seeds || HeardOf(s, rounds, c) ==>
                  exists d :: (d in s.seeds || HeardOf(s, rounds[..|rounds| - 1], d)) && !Closer(s.target, c.id, d.id))
  {
    hide Closer, Known, Asked, HeardOf;
    if forall c :: c in Known(s, rounds) ==> c.id in Asked(rounds) {
      forall c | c in s.seeds || HeardOf(s, rounds, c) ensures exists q, n :: q in rounds && n in q && n.id == c.id {
        KnownExactly(s, rounds, c);
        AskedExactly(rounds, c.id);
      }
    } else {
      var before := rounds[..|rounds| - 1];
      forall c | c in s.seeds || HeardOf(s, rounds, c)
        ensures exists d :: (d in s.seeds || HeardOf(s, before, d)) && !Closer(s.target, c.id, d.id)
      {
        KnownExactly(s, rounds, c);
        var d :| d in Known(s, before) && !Closer(s.target, c.id, d.id);
        KnownExactly(s, before, d);
      }
    }
  }

  lemma {:induction false} AskedExactly(rounds: seq<seq<Node>>, id: NodeID)
    ensures id in Asked(rounds) <==> exists q, n :: q in rounds && n in q && n.id == id
  {
    if rounds != [] {
      var front, last := rounds[..|rounds| - 1], rounds[|rounds| - 1];
      AskedExactly(front, id);
      assert rounds == front + [last];
      if id in IDs(last) {
        var n :| n in last && n.id == id;
        assert last in rounds;
      }
      if q, n :| q in rounds && n in q && n.id == id {
        assert q in front || q == last;
      }
    }
  }

  /** A reply is recorded as a success at its time, a missing one as a failure, on the table as others left it. */
  lemma RecordedMeans(s: Search, t: Table, q: seq<Node>, n: Node)
    requires Inv(t)
    ensures var before, after := Applied(Recorded(s, t, q), s.others(n)), Recorded(s, t, q + [n]);
            && (s.net(n).Contacts? ==> Answered(before, after, n.id, s.clock(n)))
            && (s.net(n).NoReply? ==> exists evicted :: Silent(before, after, n.id, evicted))
  {
    hide Inv, Apply, Applied, Answered, Silent, Recorded, FailTable, SucceedTable;
    InvShape(t);
    RecordedInv(s, t, q);
    AppliedInv(Recorded(s, t, q), s.others(n));
    AskStep(s, t, q, n);
    var before := Applied(Recorded(s, t, q), s.others(n));
    ApplyMeans(before, RecordFailure(n.id));
    ApplyMeans(before, RecordSuccess(n.id, s.clock(n)));
    ApplyIs(before, n.id, s.clock(n));
  }

  lemma ApplyIs(t: Table, id: NodeID, now: int)
    requires |t.buckets| == ID_BITS
    ensures Apply(t, RecordFailure(id)) == FailTable(t, id) && Apply(t, RecordSuccess(id, now)) == SucceedTable(t, id, now)
  {
  }

  lemma {:induction false} RecordedInv(s: Search, t: Table, q: seq<Node>)
    requires Inv(t)
    ensures Inv(Recorded(s, t, q))
  {
    hide BucketInv, Apply, Applied;
    if q != [] {
      var front, n := q[..|q| - 1], q[|q| - 1];
      RecordedInv(s, t, front);
      AppliedInv(Recorded(s, t, front), s.others(n));
      ApplyKeepsInv(Applied(Recorded(s, t, front), s.others(n)),
                    if s.net(n).NoReply? then RecordFailure(n.id) else RecordSuccess(n.id, s.clock(n)));
    }
  }

  /**
   * Every round asks somebody, at most `alpha`, each of them a seed or heard of in an earlier round, and not asked in one;
   * whoever else could have been asked is no nearer than any of them, there being `alpha`.
   */
  lemma RoundMeans(s: Search, rounds: seq<seq<Node>>, i: nat)
    requires Trace(s, rounds) && i < |rounds|
    ensures var q, before := rounds[i], rounds[..i];
            && 0 < |q| <= s.alpha
            && (forall n :: n in q ==>
                  (n in s.seeds || HeardOf(s, before, n)) && forall p, m :: p in before && m in p ==> m.id != n.id)
            && (forall c :: (c in s.seeds || HeardOf(s, before, c)) && CanBeAsked(before, q, c) ==>
                  |q| == s.alpha && forall n :: n in q ==> !Closer(s.target, c.id, n.id))
  {
    hide Closer, Trace, Known, Asked, HeardOf;
    var q, before := rounds[i], rounds[..i];
    TracePrefix(s, rounds, i + 1);
    assert rounds[..i + 1][..i] == before && rounds[..i + 1][i] == q;
    LastIsRound(s, rounds[..i + 1]);
    forall n | n in q
      ensures (n in s.seeds || HeardOf(s, before, n)) && forall p, m :: p in before && m in p ==> m.id != n.id
    {
      KnownExactly(s, before, n);
      AskedExactly(before, n.id);
    }
    forall c | (c in s.seeds || HeardOf(s, before, c)) && CanBeAsked(before, q, c)
      ensures |q| == s.alpha && forall n :: n in q ==> !Closer(s.target, c.id, n.id)
    {
      KnownExactly(s, before, c);
      AskedExactly(before, c.id);
    }
  }

  /** Neither asked before, nor in this round. */
  ghost predicate CanBeAsked(before: seq<seq<Node>>, q: seq<Node>, c: Node) {
    (forall p, m :: p in before && m in p ==> m.id != c.id) && forall n :: n in q ==> n.id != c.id
  }

  lemma LastIsRound(s: Search, rounds: seq<seq<Node>>)
    requires Trace(s, rounds) && rounds != []
    ensures var front, q := rounds[..|rounds| - 1], rounds[|rounds| - 1];
            q != [] && IsRound(s, Known(s, front), Asked(front), q)
  {
    hide Known, Asked, IsRound, Improved;
  }
}
