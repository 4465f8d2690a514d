/**
 * Connects, disconnects and choker ticks in any interleaving (internal/seeder/choker.go:45-87,
 * internal/seeder/seeder.go:209-230). A tick takes a snapshot, chooses, and then goes through the snapshot peer by peer,
 * with a message sent in between, while connections come and go.
 */
module ChokeMachine {
  import opened Bytes
  import opened Sets

  datatype Tick<P> = Snapshot(peers: seq<P>) | Applying(rest: seq<P>, chosen: set<P>)

  /** Connections by address, every connection there ever was, those that are not choked, and the tick in progress. */
  datatype State<P> = State(peers: map<string, P>, known: set<P>, unchoked: set<P>, tick: Option<Tick<P>>)

  datatype Step<P> =
    | Connect(addr: string, p: P)
    | Disconnect(addr: string)
    | TickStart(peers: seq<P>)
    | Choose(wanting: set<P>, chosen: set<P>)
    | Flip

  /** Interest may change at any time, so the peers a tick finds interested are any part of its snapshot. */
  ghost predicate Enabled<P>(s: State<P>, slots: nat, step: Step<P>) {
    match step
    case Connect(_, p) => p !in s.known
    case Disconnect(_) => true
    case TickStart(peers) => s.tick.None? && Distinct(peers) && ToSet(peers) == s.peers.Values
    case Choose(wanting, chosen) =>
      && s.tick.Some? && s.tick.value.Snapshot? && wanting <= ToSet(s.tick.value.peers)
      && chosen <= wanting && |chosen| == Min(slots, |wanting|)
    case Flip => s.tick.Some? && s.tick.value.Applying? && s.tick.value.rest != []
  }

  /** A connection starts choked; a tick that finds nobody interested changes nothing. */
  function Next<P(==)>(s: State<P>, step: Step<P>): State<P> {
    match step
    case Connect(addr, p) => s.(peers := s.peers[addr := p], known := s.known + {p})
    case Disconnect(addr) => s.(peers := s.peers - {addr})
    case TickStart(peers) => s.(tick := Some(Snapshot(peers)))
    case Choose(wanting, chosen) =>
      if s.tick.Some? && s.tick.value.Snapshot? && wanting != {}
      then s.(tick := Continued(s.tick.value.peers, chosen)) else s.(tick := None)
    case Flip =>
      if s.tick.Some? && s.tick.value.Applying? && s.tick.value.rest != [] then
        var t := s.tick.value;
        var p := t.rest[0];
        s.(unchoked := if p in t.chosen then s.unchoked + {p} else s.unchoked - {p},
           tick := Continued(t.rest[1..], t.chosen))
      else s
  }

  function Continued<P>(rest: seq<P>, chosen: set<P>): Option<Tick<P>> {
    if rest == [] then None else Some(Applying(rest, chosen))
  }

  ghost function Exec<P>(s: State<P>, run: seq<Step<P>>): State<P> {
    if run == [] then s else Next(Exec(s, run[..|run| - 1]), run[|run| - 1])
  }

  ghost predicate IsRun<P>(slots: nat, s: State<P>, run: seq<Step<P>>) {
    run == [] ||
    (IsRun(slots, s, run[..|run| - 1]) && Enabled(Exec(s, run[..|run| - 1]), slots, run[|run| - 1]))
  }

  lemma OneStep<P>(slots: nat, s: State<P>, run: seq<Step<P>>, step: Step<P>)
    requires IsRun(slots, s, run) && Enabled(Exec(s, run), slots, step)
    ensures IsRun(slots, s, run + [step]) && Exec(s, run + [step]) == Next(Exec(s, run), step)
  {
    hide Enabled, Next;
    assert (run + [step])[..|run|] == run;
  }

  function Start<P>(): State<P> {
    State(map[], {}, {}, None)
  }

  /** Connected peers that are not choked. */
  ghost function Unchoked<P>(s: State<P>): set<P> {
    s.unchoked * s.peers.Values
  }

  // ----- Who is connected -----

  /** A connection is stored under an address exactly if nothing came after it there. */
  lemma {:induction false} PeersExactly<P>(slots: nat, run: seq<Step<P>>, addr: string, p: P)
    requires IsRun(slots, Start(), run)
    ensures var peers := Exec(Start(), run).peers;
            addr in peers && peers[addr] == p <==> exists k :: StillAt(run, k, addr, p)
  {
    hide Enabled;
    if run != [] {
      var n := |run| - 1;
      PeersExactly(slots, run[..n], addr, p);
      StillLater(run, addr, p);
    }
  }

  ghost predicate StillAt<P>(run: seq<Step<P>>, k: int, addr: string, p: P) {
    && 0 <= k < |run| && run[k] == Connect(addr, p)
    && forall j :: k < j < |run| && (run[j].Connect? || run[j].Disconnect?) ==> run[j].addr != addr
  }

  lemma StillLater<P>(run: seq<Step<P>>, addr: string, p: P)
    requires run != []
    ensures var front, last := run[..|run| - 1], run[|run| - 1];
            (exists k :: StillAt(run, k, addr, p)) <==>
              last == Connect(addr, p)
              || (!((last.Connect? || last.Disconnect?) && last.addr == addr) && exists k :: StillAt(front, k, addr, p))
  {
    var n := |run| - 1;
    assert forall k :: 0 <= k < n ==> run[..n][k] == run[k];
    if run[n] == Connect(addr, p) { assert StillAt(run, n, addr, p); }
    if k :| StillAt(run, k, addr, p) {
      if k < n { assert StillAt(run[..n], k, addr, p); }
    }
    if k :| StillAt(run[..n], k, addr, p) {
      if !((run[n].Connect? || run[n].Disconnect?) && run[n].addr == addr) {
        assert run[k] == Connect(addr, p);
        forall j | k < j < |run| && (run[j].Connect? || run[j].Disconnect?) ensures run[j].addr != addr {
          if j < n { assert run[..n][j] == run[j]; }
        }
        assert StillAt(run, k, addr, p);
      }
    }
  }

  // ----- The bounds -----

  ghost predicate Inv<P>(s: State<P>, slots: nat) {
    && s.peers.Values <= s.known && s.unchoked <= s.known && TickKnown(s)
    && match s.tick
       case None => |Unchoked(s)| <= slots
       case Some(Snapshot(peers)) => |Unchoked(s)| <= slots && Unchoked(s) <= ToSet(peers)
       case Some(Applying(rest, chosen)) =>
         |chosen| <= slots && Unchoked(s) - chosen <= ToSet(rest) && |Unchoked(s) - chosen| <= slots
  }

  ghost predicate TickKnown<P>(s: State<P>) {
    match s.tick
    case None => true
    case Some(Snapshot(peers)) => ToSet(peers) <= s.known
    case Some(Applying(_, chosen)) => chosen <= s.known
  }

  lemma ConnectKeeps<P>(s: State<P>, slots: nat, step: Step<P>)
    requires Inv(s, slots) && step.Connect? && Enabled(s, slots, step)
    ensures Inv(Next(s, step), slots)
  {
    var r := Next(s, step);
    assert Unchoked(r) <= Unchoked(s) by {
      forall p | p in Unchoked(r) ensures p in Unchoked(s) {
        var a :| a in r.peers && r.peers[a] == p;
        assert p != step.p;
        assert a in s.peers && s.peers[a] == p;
      }
    }
    Fewer(s, r, slots);
    forall p | p in r.peers.Values ensures p in r.known {
      var a :| a in r.peers && r.peers[a] == p;
      assert a != step.addr ==> s.peers[a] in s.peers.Values;
    }
  }

  lemma DisconnectKeeps<P>(s: State<P>, slots: nat, step: Step<P>)
    requires Inv(s, slots) && step.Disconnect?
    ensures Inv(Next(s, step), slots)
  {
    var r := Next(s, step);
    forall p | p in r.peers.Values ensures p in s.peers.Values {
      var a :| a in r.peers && r.peers[a] == p;
      assert s.peers[a] == p;
    }
    Fewer(s, r, slots);
  }

  /** With fewer connected peers unchoked, and the same tick, the counts still hold. */
  lemma Fewer<P>(s: State<P>, r: State<P>, slots: nat)
    requires Inv(s, slots) && r.tick == s.tick && Unchoked(r) <= Unchoked(s)
    ensures match r.tick
            case None => |Unchoked(r)| <= slots
            case Some(Snapshot(peers)) => |Unchoked(r)| <= slots && Unchoked(r) <= ToSet(peers)
            case Some(Applying(rest, chosen)) =>
              |chosen| <= slots && Unchoked(r) - chosen <= ToSet(rest) && |Unchoked(r) - chosen| <= slots
  {
    hide Unchoked;
    SubsetSize(Unchoked(r), Unchoked(s));
    if s.tick.Some? && s.tick.value.Applying? {
      SubsetSize(Unchoked(r) - s.tick.value.chosen, Unchoked(s) - s.tick.value.chosen);
    }
  }

  lemma TickStartKeeps<P>(s: State<P>, slots: nat, step: Step<P>)
    requires Inv(s, slots) && step.TickStart? && Enabled(s, slots, step)
    ensures Inv(Next(s, step), slots)
  {
    assert Unchoked(Next(s, step)) == Unchoked(s);
  }

  lemma SameUnchoked<P>(s: State<P>, r: State<P>)
    requires r.unchoked == s.unchoked && r.peers == s.peers
    ensures Unchoked(r) == Unchoked(s)
  {
  }

  lemma ChooseKeeps<P>(s: State<P>, slots: nat, step: Step<P>)
    requires Inv(s, slots) && step.Choose? && Enabled(s, slots, step)
    ensures Inv(Next(s, step), slots)
  {
    hide Unchoked, ToSet;
    SameUnchoked(s, Next(s, step));
    if step.wanting != {} {
      Someone(step.wanting, s.tick.value.peers);
      SubsetSize(Unchoked(s) - step.chosen, Unchoked(s));
      SubsetTwice(step.chosen, ToSet(s.tick.value.peers), s.known);
    }
  }

  lemma Someone<P>(some: set<P>, peers: seq<P>)
    requires some != {} && some <= ToSet(peers)
    ensures peers != []
  {
    var p :| p in some;
    assert p in ToSet(peers);
  }

  lemma SubsetTwice<P>(a: set<P>, b: set<P>, c: set<P>)
    requires a <= b <= c
    ensures a <= c
  {
  }

  /** One flip, on sets: `u` unchoked, `c` connected. */
  lemma FlipShrinks<P>(u: set<P>, c: set<P>, chosen: set<P>, rest: seq<P>)
    requires rest != [] && u * c - chosen <= ToSet(rest)
    ensures var v := if rest[0] in chosen then u + {rest[0]} else u - {rest[0]};
            && v * c - chosen <= u * c - chosen && v * c - chosen <= ToSet(rest[1..])
            && (rest[1..] == [] ==> v * c <= chosen)
  {
    var v := if rest[0] in chosen then u + {rest[0]} else u - {rest[0]};
    forall p | p in v * c - chosen ensures p in u * c - chosen && p in rest[1..] {
      assert p in ToSet(rest) && p != rest[0];
    }
    var tail := rest[1..];
    assert tail == [] ==> forall p :: p in v * c ==> p in chosen || p in tail;
  }

  lemma FlipCounts<P>(u: set<P>, c: set<P>, chosen: set<P>, rest: seq<P>, slots: nat)
    requires rest != [] && u * c - chosen <= ToSet(rest) && |u * c - chosen| <= slots && |chosen| <= slots
    ensures var v := if rest[0] in chosen then u + {rest[0]} else u - {rest[0]};
            && v * c - chosen <= ToSet(rest[1..]) && |v * c - chosen| <= slots
            && (rest[1..] == [] ==> |v * c| <= slots)
  {
    hide ToSet;
    FlipShrinks(u, c, chosen, rest);
    var v := if rest[0] in chosen then u + {rest[0]} else u - {rest[0]};
    SubsetSize(v * c - chosen, u * c - chosen);
    if rest[1..] == [] { SubsetSize(v * c, chosen); }
  }

  lemma FlipIs<P>(s: State<P>, slots: nat)
    requires Enabled(s, slots, Flip)
    ensures s.tick.Some? && s.tick.value.Applying? && s.tick.value.rest != []
    ensures var rest, chosen := s.tick.value.rest, s.tick.value.chosen;
            Next(s, Flip) == s.(unchoked := if rest[0] in chosen then s.unchoked + {rest[0]} else s.unchoked - {rest[0]},
                                tick := if rest[1..] == [] then None else Some(Applying(rest[1..], chosen)))
  {
  }

  lemma UnchokedIs<P>(s: State<P>)
    ensures Unchoked(s) == s.unchoked * s.peers.Values
  {
  }

  lemma FlipKeeps<P>(s: State<P>, slots: nat)
    requires Inv(s, slots) && Enabled(s, slots, Flip)
    ensures Inv(Next(s, Flip), slots)
  {
    hide ToSet, Next, Enabled, Continued, Unchoked;
    FlipIs(s, slots);
    var t := s.tick.value;
    UnchokedIs(s);
    UnchokedIs(Next(s, Flip));
    FlipCounts(s.unchoked, s.peers.Values, t.chosen, t.rest, slots);
  }

  lemma StepKeepsInv<P>(s: State<P>, slots: nat, step: Step<P>)
    requires Inv(s, slots) && Enabled(s, slots, step)
    ensures Inv(Next(s, step), slots)
  {
    hide Inv, Next, Enabled;
    match step {
      case Connect(_, _) => ConnectKeeps(s, slots, step);
      case Disconnect(_) => DisconnectKeeps(s, slots, step);
      case TickStart(_) => TickStartKeeps(s, slots, step);
      case Choose(_, _) => ChooseKeeps(s, slots, step);
      case Flip => FlipKeeps(s, slots);
    }
  }

  lemma {:induction false} RunKeepsInv<P>(slots: nat, run: seq<Step<P>>)
    requires IsRun(slots, Start(), run)
    ensures Inv(Exec(Start(), run), slots)
  {
    hide Inv, Next, Enabled;
    if run == [] {
      StartInv<P>(slots);
    } else {
      RunKeepsInv(slots, run[..|run| - 1]);
      StepKeepsInv(Exec(Start(), run[..|run| - 1]), slots, run[|run| - 1]);
    }
  }

  lemma StartInv<P>(slots: nat)
    ensures Inv(Start<P>(), slots)
  {
    assert Unchoked(Start<P>()) == {};
  }

  /**
   * Over any run, at most `slots` connected peers are unchoked whenever no tick is being applied, and at most twice as
   * many while one is.
   */
  lemma SlotBound<P>(slots: nat, run: seq<Step<P>>)
    requires IsRun(slots, Start(), run)
    ensures var s := Exec(Start(), run);
            && (s.tick.None? || s.tick.value.Snapshot? ==> |Unchoked(s)| <= slots)
            && |Unchoked(s)| <= 2 * slots
  {
    hide Exec, IsRun, Unchoked;
    var s := Exec(Start(), run);
    RunKeepsInv(slots, run);
    if s.tick.Some? && s.tick.value.Applying? {
      var c := s.tick.value.chosen;
      assert Unchoked(s) == (Unchoked(s) - c) + (Unchoked(s) * c);
      SubsetSize(Unchoked(s) * c, c);
    }
  }

  // ----- Twice the slots is reached -----

  ghost predicate Reached(slots: nat, s: State<nat>) {
    exists run: seq<Step<nat>> :: IsRun(slots, Start(), run) && Exec(Start(), run) == s
  }

  lemma ReachStep(slots: nat, s: State<nat>, step: Step<nat>)
    requires Reached(slots, s) && Enabled(s, slots, step)
    ensures Reached(slots, Next(s, step))
  {
    hide Enabled, Next, IsRun, Exec;
    var run: seq<Step<nat>> :| IsRun(slots, Start(), run) && Exec(Start(), run) == s;
    OneStep(slots, Start(), run, step);
  }

  /** One address for each number. */
  function Addr(k: nat): string {
    seq(k, _ => 'x')
  }

  function Listing(lo: nat, hi: nat): (s: seq<nat>)
    requires lo <= hi
    ensures |s| == hi - lo && forall k :: 0 <= k < |s| ==> s[k] == lo + k
  {
    seq(hi - lo, k requires 0 <= k => lo + k)
  }

  ghost function Range(lo: nat, hi: nat): (r: set<nat>)
    requires lo <= hi
    ensures forall k: nat :: k in r <==> lo <= k < hi
    decreases hi
  {
    if lo == hi then {} else Range(lo, hi - 1) + {hi - 1}
  }

  lemma {:induction false} RangeSize(lo: nat, hi: nat)
    requires lo <= hi
    ensures |Range(lo, hi)| == hi - lo
    decreases hi
  {
    if lo < hi {
      RangeSize(lo, hi - 1);
    }
  }

  /** `n` connections, number `k` at its own address. */
  ghost predicate Crowd(s: State<nat>, n: nat) {
    && s.known == Range(0, n) && s.peers.Values == Range(0, n)
    && forall a :: a in s.peers ==> |a| < n
  }

  lemma MoreConnect(slots: nat, s: State<nat>, n: nat, m: nat) returns (r: State<nat>)
    requires Reached(slots, s) && Crowd(s, n) && n <= m
    ensures Reached(slots, r) && Crowd(r, m) && r.unchoked == s.unchoked && r.tick == s.tick
  {
    r := s;
    for k := n to m
      invariant Reached(slots, r) && Crowd(r, k) && r.unchoked == s.unchoked && r.tick == s.tick
    {
      ReachStep(slots, r, Connect(Addr(k), k));
      OneConnect(r, k);
      r := Next(r, Connect(Addr(k), k));
    }
  }

  lemma OneConnect(s: State<nat>, k: nat)
    requires Crowd(s, k)
    ensures Crowd(Next(s, Connect(Addr(k), k)), k + 1)
  {
    var r := Next(s, Connect(Addr(k), k));
    assert |Addr(k)| == k && Addr(k) !in s.peers;
    assert r.peers.Values == s.peers.Values + {k} by {
      forall p ensures p in r.peers.Values <==> p in s.peers.Values + {k} {
        if p in s.peers.Values {
          var a :| a in s.peers && s.peers[a] == p;
          assert r.peers[a] == p;
        }
        assert r.peers[Addr(k)] == k;
      }
    }
    assert Range(0, k + 1) == Range(0, k) + {k};
  }

  /** A tick that chooses the first `k` of its snapshot, up to the point where they are unchoked. */
  lemma TickUpTo(slots: nat, s: State<nat>, peers: seq<nat>, k: nat) returns (r: State<nat>)
    requires Reached(slots, s) && s.tick.None? && Distinct(peers) && ToSet(peers) == s.peers.Values
    requires 0 < k <= |peers| && k == slots && |ToSet(peers[..k])| == k
    ensures Reached(slots, r) && r.peers == s.peers && r.known == s.known
    ensures r.unchoked == s.unchoked + ToSet(peers[..k])
    ensures r.tick == Continued(peers[k..], ToSet(peers[..k]))
  {
    hide Reached, Continued, Distinct, ToSet, Next, Enabled;
    var chosen := ToSet(peers[..k]);
    r := TickChosen(slots, s, peers, k);
    for i := 0 to k
      invariant Reached(slots, r) && r.peers == s.peers && r.known == s.known
      invariant r.unchoked == s.unchoked + ToSet(peers[..i])
      invariant r.tick == Continued(peers[i..], chosen)
    {
      FlipChosen(slots, s, r, peers, i, k);
      ReachStep(slots, r, Flip);
      r := Next(r, Flip);
    }
  }

  /** The tick up to its choice. */
  lemma TickChosen(slots: nat, s: State<nat>, peers: seq<nat>, k: nat) returns (r: State<nat>)
    requires Reached(slots, s) && s.tick.None? && Distinct(peers) && ToSet(peers) == s.peers.Values
    requires 0 < k <= |peers| && k == slots && |ToSet(peers[..k])| == k
    ensures Reached(slots, r) && r == s.(tick := Continued(peers, ToSet(peers[..k])))
    ensures peers[0..] == peers && ToSet(peers[..0]) == {}
  {
    hide Reached, Distinct;
    var chosen := ToSet(peers[..k]);
    ReachStep(slots, s, TickStart(peers));
    r := Next(s, TickStart(peers));
    assert peers[0] == peers[..k][0];
    assert peers[0] in chosen;
    assert forall x :: x in peers[..k] ==> x in peers;
    ReachStep(slots, r, Choose(chosen, chosen));
    r := Next(r, Choose(chosen, chosen));
  }

  /** The flip of peer `i`, one of the chosen. */
  lemma FlipChosen(slots: nat, s: State<nat>, r: State<nat>, peers: seq<nat>, i: nat, k: nat)
    requires i < k <= |peers| && r.tick == Continued(peers[i..], ToSet(peers[..k]))
    requires r.unchoked == s.unchoked + ToSet(peers[..i])
    ensures Enabled(r, slots, Flip)
    ensures Next(r, Flip) == r.(unchoked := s.unchoked + ToSet(peers[..i + 1]), tick := Continued(peers[i + 1..], ToSet(peers[..k])))
  {
    assert peers[i] == peers[..k][i] == peers[i..][0];
    assert peers[i..][1..] == peers[i + 1..];
    assert peers[..i + 1] == peers[..i] + [peers[i]];
    assert ToSet(peers[..i + 1]) == ToSet(peers[..i]) + {peers[i]};
  }

  /** The bound inside a tick is exact: for every number of slots some run has twice as many peers unchoked. */
  lemma TwiceReached(slots: nat)
    ensures exists run: seq<Step<nat>> :: IsRun(slots, Start(), run) && |Unchoked(Exec(Start(), run))| == 2 * slots
  {
    hide IsRun, Exec, Next, Enabled, Reached, Crowd, ToSet, Distinct, Unchoked, Range, Continued;
    var s: State<nat> := Start();
    StartReached(slots);
    if slots > 0 {
      s := MoreConnect(slots, s, 0, slots);
      s := FirstTick(slots, s);
      s := MoreConnect(slots, s, slots, 2 * slots);
      s := SecondTick(slots, s);
    } else {
      NobodyUnchoked();
    }
    WitnessRun(slots, s);
  }

  lemma NobodyUnchoked()
    ensures |Unchoked(Start<nat>())| == 0
  {
    assert Unchoked(Start<nat>()) == {};
  }

  lemma FirstTick(slots: nat, s: State<nat>) returns (r: State<nat>)
    requires slots > 0 && Reached(slots, s) && Crowd(s, slots) && s.unchoked == {} && s.tick.None?
    ensures Reached(slots, r) && Crowd(r, slots) && r.unchoked == Range(0, slots) && r.tick.None?
  {
    hide Reached, ToSet, Distinct, Range;
    Whole(0, slots);
    r := TickUpTo(slots, s, Listing(0, slots), slots);
  }

  lemma SecondTick(slots: nat, s: State<nat>) returns (r: State<nat>)
    requires slots > 0 && Reached(slots, s) && Crowd(s, 2 * slots) && s.unchoked == Range(0, slots) && s.tick.None?
    ensures Reached(slots, r) && |Unchoked(r)| == 2 * slots
  {
    hide Reached, ToSet, Distinct, Range, Continued;
    NewFirst(slots);
    r := TickUpTo(slots, s, Listing(slots, 2 * slots) + Listing(0, slots), slots);
    RangeSize(0, 2 * slots);
    AllOf(r, Range(0, slots), Range(slots, 2 * slots), Range(0, 2 * slots));
  }

  lemma AllOf(s: State<nat>, a: set<nat>, b: set<nat>, all: set<nat>)
    requires s.unchoked == a + b && s.peers.Values == all && forall k: nat :: k in all <==> k in a || k in b
    ensures Unchoked(s) == all
  {
  }

  lemma WitnessRun(slots: nat, s: State<nat>)
    requires Reached(slots, s)
    ensures exists run: seq<Step<nat>> :: IsRun(slots, Start(), run) && Exec(Start(), run) == s
  {
  }

  lemma StartReached(slots: nat)
    ensures Reached(slots, Start()) && Crowd(Start(), 0)
  {
    var run: seq<Step<nat>> := [];
    assert IsRun(slots, Start(), run) && Exec(Start(), run) == Start();
    assert Range(0, 0) == {};
  }

  lemma ListingSet(lo: nat, hi: nat)
    requires lo <= hi
    ensures ToSet(Listing(lo, hi)) == Range(lo, hi)
  {
    forall k: nat | lo <= k < hi ensures k in Listing(lo, hi) {
      assert Listing(lo, hi)[k - lo] == k;
    }
  }

  lemma Whole(lo: nat, hi: nat)
    requires lo <= hi
    ensures var l := Listing(lo, hi);
            && Distinct(l) && ToSet(l) == Range(lo, hi) && l[..hi - lo] == l && |ToSet(l)| == hi - lo && l[hi - lo..] == []
  {
    ListingSet(lo, hi);
    RangeSize(lo, hi);
  }

  lemma JoinedSet(a: seq<nat>, b: seq<nat>)
    ensures ToSet(a + b) == ToSet(a) + ToSet(b)
  {
  }

  lemma NewFirst(n: nat)
    ensures var l := Listing(n, 2 * n) + Listing(0, n);
            && Distinct(l) && ToSet(l) == Range(0, 2 * n)
            && l[..n] == Listing(n, 2 * n) && ToSet(l[..n]) == Range(n, 2 * n) && |ToSet(l[..n])| == n
  {
    hide Range, ToSet;
    ListingSet(n, 2 * n);
    ListingSet(0, n);
    RangeSize(n, 2 * n);
    var l := Listing(n, 2 * n) + Listing(0, n);
    JoinedSet(Listing(n, 2 * n), Listing(0, n));
    assert Range(n, 2 * n) + Range(0, n) == Range(0, 2 * n);
  }

  /** The bound of `slots` holds at every point of every run, flips included, only if there are no slots. */
  lemma AlwaysWithinIff(slots: nat)
    ensures (forall run: seq<Step<nat>> :: IsRun(slots, Start(), run) ==> |Unchoked(Exec(Start(), run))| <= slots) <==> slots == 0
  {
    hide IsRun, Exec, Unchoked;
    TwiceReached(slots);
    forall run: seq<Step<nat>> | IsRun(slots, Start(), run) ensures |Unchoked(Exec(Start(), run))| <= 2 * slots {
      SlotBound(slots, run);
    }
  }
}
