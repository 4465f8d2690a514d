/**
 * internal/seeder/choker.go:45-87 and internal/seeder/seeder.go:209-230: who may download from a seeder. Every method is
 * one step of the choke machine, or several.
 */
module Chokers {
  import opened Bytes
  import opened Sets
  import opened ChokeMachine

  class SeedPeer {
    var interested: bool
    var amChoking: bool

    /** A connection starts choked. */
    constructor ()
      ensures !interested && amChoking
    {
      interested := false;
      amChoking := true;
    }
  }

  ghost function Interested(peers: seq<SeedPeer>): set<SeedPeer>
    reads peers
  {
    set p | p in peers && p.interested
  }

  /** `rand.Shuffle`: any rearrangement. */
  method Shuffle(s: seq<SeedPeer>) returns (r: seq<SeedPeer>)
    ensures multiset(r) == multiset(s) && |r| == |s|
  {
    r := s;
    var i := |s|;
    while i > 1
      invariant multiset(r) == multiset(s) && |r| == |s| && 0 <= i <= |s|
      decreases i
    {
      i := i - 1;
      var j :| 0 <= j <= i;
      Swapped(r, i, j);
      r := r[i := r[j]][j := r[i]];
    }
  }

  lemma Swapped<T>(s: seq<T>, i: nat, j: nat)
    requires j <= i < |s|
    ensures multiset(s[i := s[j]][j := s[i]]) == multiset(s)
  {
  }

  lemma SameMembers<T>(s: seq<T>, r: seq<T>)
    requires multiset(r) == multiset(s)
    ensures ToSet(r) == ToSet(s)
  {
    assert forall x :: x in r <==> x in multiset(r);
    assert forall x :: x in s <==> x in multiset(s);
  }

  lemma {:induction false} SetSizeDistinct<T>(s: seq<T>)
    ensures |ToSet(s)| <= |s|
    ensures |ToSet(s)| == |s| ==> Distinct(s)
  {
    if s != [] {
      var front, last := s[..|s| - 1], s[|s| - 1];
      SetSizeDistinct(front);
      assert s == front + [last];
      assert ToSet(s) == ToSet(front) + {last};
      if |ToSet(s)| == |s| {
        assert last !in ToSet(front);
      }
    }
  }

  class Choker {
    const unchokeSlots: nat

    constructor (slots: nat)
      ensures unchokeSlots == slots
    {
      unchokeSlots := slots;
    }

    /**
     * With anyone interested, exactly min(slots, interested) of the given peers end up unchoked, all of them
     * interested; with nobody interested nothing changes. `run` are the steps taken, one for the choice and one for
     * every peer.
     */
    method Tick(peers: seq<SeedPeer>, ghost seeder: Seeder)
      returns (ghost chosen: set<SeedPeer>, ghost run: seq<Step<SeedPeer>>)
      requires seeder.Valid() && seeder.tick == Some(Snapshot(peers)) && Distinct(peers) && ToSet(peers) <= seeder.known
      modifies peers, seeder`tick
      ensures seeder.Valid() && IsRun(unchokeSlots, old(seeder.View()), run)
      ensures seeder.View() == Exec(old(seeder.View()), run) && seeder.tick == None
      ensures chosen <= Interested(peers) && |chosen| == Min(unchokeSlots, |Interested(peers)|)
      ensures forall p :: p in peers ==>
                && p.interested == old(p.interested)
                && p.amChoking == if Interested(peers) == {} then old(p.amChoking) else p !in chosen
    {
      hide Distinct, IsRun, Exec;
      ghost var wanting, before := Interested(peers), seeder.View();
      var interested := Filter(peers);
      DistinctSize(interested);
      if |interested| == 0 {
        assert wanting == {};
        run := [Choose({}, {})];
        FirstStep(unchokeSlots, before, Choose({}, {}));
        seeder.tick := None;
        return {}, run;
      }
      var toUnchoke := ChooseFrom(interested);
      chosen := toUnchoke;
      run := [Choose(wanting, chosen)];
      FirstStep(unchokeSlots, before, Choose(wanting, chosen));
      seeder.tick := Continued(peers, chosen);
      run := Apply(peers, toUnchoke, seeder, before, run);
      assert Interested(peers) == wanting;
    }

    /** The loop that goes through the snapshot. */
    method Apply(peers: seq<SeedPeer>, toUnchoke: set<SeedPeer>, ghost seeder: Seeder,
                 ghost before: State<SeedPeer>, ghost start: seq<Step<SeedPeer>>)
      returns (ghost run: seq<Step<SeedPeer>>)
      requires seeder.Valid() && ToSet(peers) <= seeder.known && toUnchoke <= ToSet(peers)
      requires IsRun(unchokeSlots, before, start) && seeder.View() == Exec(before, start)
      requires seeder.tick == Continued(peers, toUnchoke)
      modifies peers, seeder`tick
      ensures seeder.Valid() && IsRun(unchokeSlots, before, run) && seeder.View() == Exec(before, run)
      ensures seeder.tick == None
      ensures forall p :: p in peers ==> p.interested == old(p.interested) && p.amChoking == (p !in toUnchoke)
    {
      hide IsRun, Exec, Next, Enabled;
      run := start;
      assert peers[0..] == peers;
      for i := 0 to |peers|
        invariant forall p :: p in peers ==> p.interested == old(p.interested)
        invariant forall p :: p in peers[..i] ==> p.amChoking == (p !in toUnchoke)
        invariant IsRun(unchokeSlots, before, run) && seeder.View() == Exec(before, run) && seeder.Valid()
        invariant seeder.tick == Continued(peers[i..], toUnchoke)
      {
        var sp := peers[i];
        assert peers[i..] == [sp] + peers[i + 1..];
        assert sp in ToSet(peers);
        FlipNow(unchokeSlots, seeder.View(), sp, peers[i + 1..], toUnchoke);
        OneStep(unchokeSlots, before, run, Flip);
        run := run + [Flip];
        Set(sp, sp in toUnchoke);
        seeder.tick := Continued(peers[i + 1..], toUnchoke);
        assert peers[..i + 1] == peers[..i] + [sp];
      }
      assert peers[..|peers|] == peers;
    }

    /** One peer: the state is set before the message is sent, which may fail. */
    method Set(sp: SeedPeer, shouldUnchoke: bool)
      modifies sp`amChoking
      ensures sp.amChoking == !shouldUnchoke
    {
      if shouldUnchoke && sp.amChoking {
        sp.amChoking := false;
      } else if !shouldUnchoke && !sp.amChoking {
        sp.amChoking := true;
      }
    }

    /** Shuffling, and the first so many. */
    method ChooseFrom(interested: seq<SeedPeer>) returns (toUnchoke: set<SeedPeer>)
      requires Distinct(interested)
      ensures toUnchoke <= ToSet(interested) && |toUnchoke| == Min(unchokeSlots, |interested|)
    {
      hide Distinct;
      DistinctSize(interested);
      var shuffled := Shuffle(interested);
      SameMembers(interested, shuffled);
      SetSizeDistinct(shuffled);
      var limit := unchokeSlots;
      if limit > |shuffled| {
        limit := |shuffled|;
      }
      toUnchoke := FirstOf(shuffled, limit);
    }

    /** The loop that collects the interested peers. */
    method Filter(peers: seq<SeedPeer>) returns (interested: seq<SeedPeer>)
      requires Distinct(peers)
      ensures Distinct(interested) && ToSet(interested) == Interested(peers)
    {
      interested := [];
      for i := 0 to |peers|
        invariant Distinct(interested)
        invariant forall p :: p in interested <==> p in peers[..i] && p.interested
      {
        assert peers[..i + 1] == peers[..i] + [peers[i]];
        assert peers[i] !in peers[..i];
        if peers[i].interested {
          interested := interested + [peers[i]];
        }
      }
      assert peers[..|peers|] == peers;
    }

    /** The loop that fills `toUnchoke`. */
    method FirstOf(peers: seq<SeedPeer>, limit: nat) returns (s: set<SeedPeer>)
      requires limit <= |peers| && Distinct(peers)
      ensures s <= ToSet(peers) && |s| == limit
    {
      s := {};
      for i := 0 to limit
        invariant s == ToSet(peers[..i]) && |s| == i
      {
        assert peers[..i + 1] == peers[..i] + [peers[i]];
        assert peers[i] !in peers[..i];
        s := s + {peers[i]};
      }
    }
  }

  lemma FirstStep<P>(slots: nat, s: State<P>, step: Step<P>)
    requires Enabled(s, slots, step)
    ensures IsRun(slots, s, [step]) && Exec(s, [step]) == Next(s, step)
  {
    hide Enabled, Next;
    var none: seq<Step<P>> := [];
    assert IsRun(slots, s, none) && Exec(s, none) == s;
    assert none + [step] == [step];
    OneStep(slots, s, none, step);
  }

  /** What the next flip does. */
  lemma FlipNow<P>(slots: nat, s: State<P>, p: P, rest: seq<P>, chosen: set<P>)
    requires s.tick == Some(Applying([p] + rest, chosen))
    ensures Enabled(s, slots, Flip)
    ensures Next(s, Flip) == s.(unchoked := if p in chosen then s.unchoked + {p} else s.unchoked - {p},
                                tick := Continued(rest, chosen))
  {
    assert ([p] + rest)[0] == p && ([p] + rest)[1..] == rest;
  }

  class Seeder {
    var peers: map<string, SeedPeer>
    /** Every connection there ever was, and the tick in progress. */
    ghost var known: set<SeedPeer>
    ghost var tick: Option<Tick<SeedPeer>>

    /** The seeder as a state of the choke machine. */
    ghost function View(): State<SeedPeer>
      reads this, known
    {
      State(peers, known, (set p | p in known && !p.amChoking), tick)
    }

    /** No connection is stored under two addresses. */
    ghost predicate Valid()
      reads this
    {
      && peers.Values <= known
      && forall a, b :: a in peers && b in peers && peers[a] == peers[b] ==> a == b
    }

    constructor ()
      ensures Valid() && View() == Start()
    {
      peers := map[];
      known := {};
      tick := None;
    }

    /** A new connection, which starts choked. */
    method AddPeer(addr: string, sp: SeedPeer)
      requires Valid() && sp !in known && sp.amChoking
      modifies this
      ensures Valid() && forall slots :: Enabled(old(View()), slots, Connect(addr, sp))
      ensures View() == Next(old(View()), Connect(addr, sp)) && peers == old(peers)[addr := sp]
    {
      ghost var before := peers;
      peers := peers[addr := sp];
      known := known + {sp};
      forall p | p in peers.Values ensures p in known {
        var a :| a in peers && peers[a] == p;
        assert a != addr ==> before[a] in before.Values;
      }
      forall a, b | a in peers && b in peers && peers[a] == peers[b] ensures a == b {
        assert a != addr ==> before[a] in before.Values;
        assert b != addr ==> before[b] in before.Values;
      }
    }

    method RemovePeer(addr: string)
      requires Valid()
      modifies this
      ensures Valid() && View() == Next(old(View()), Disconnect(addr))
      ensures peers == map a | a in old(peers) && a != addr :: old(peers)[a]
    {
      ghost var before := peers;
      peers := peers - {addr};
      forall p | p in peers.Values ensures p in known {
        var a :| a in peers && peers[a] == p;
        assert before[a] in before.Values;
      }
    }

    /** The snapshot a tick starts from: every connected peer, once. */
    method GetPeers() returns (result: seq<SeedPeer>)
      requires Valid() && tick.None?
      modifies `tick
      ensures Valid() && forall slots :: Enabled(old(View()), slots, TickStart(result))
      ensures View() == Next(old(View()), TickStart(result)) && Distinct(result)
      ensures forall p :: p in result <==> exists a :: a in peers && peers[a] == p
    {
      result := [];
      var left := peers.Keys;
      while left != {}
        invariant left <= peers.Keys && Distinct(result)
        invariant forall p :: p in result <==> exists a :: a in peers && a !in left && peers[a] == p
        decreases |left|
      {
        var a :| a in left;
        assert peers[a] !in result;
        left := left - {a};
        result := result + [peers[a]];
      }
      assert ToSet(result) == peers.Values;
      tick := Some(Snapshot(result));
    }
  }
}
