/**
 * The peers of a tick are flipped one by one, in the order of its snapshot (internal/seeder/choker.go:71-84): exactly
 * which orders never have more peers unchoked than there are slots.
 */
module FlipOrder {
  import opened Sets
  import opened ChokeMachine

  /** Steps that may happen while the tick in progress is applied. */
  ghost predicate WhileApplying<P>(run: seq<Step<P>>) {
    forall k :: 0 <= k < |run| ==> run[k].Connect? || run[k].Disconnect? || run[k].Flip?
  }

  ghost predicate MidTick<P>(s: State<P>) {
    && s.tick.Some? && s.tick.value.Applying? && s.tick.value.rest != []
    && s.unchoked <= s.known && s.tick.value.chosen <= s.known
  }

  /** The peers a tick is still to unchoke, and those it is still to choke, among the next `k`. */
  ghost function ToUnchoke<P>(s: State<P>, k: nat): set<P>
    requires MidTick(s) && k <= |s.tick.value.rest|
  {
    (s.tick.value.chosen - s.unchoked) * s.peers.Values * ToSet(s.tick.value.rest[..k])
  }

  ghost function ToChoke<P>(s: State<P>, k: nat): set<P>
    requires MidTick(s) && k <= |s.tick.value.rest|
  {
    (Unchoked(s) - s.tick.value.chosen) * ToSet(s.tick.value.rest[..k])
  }

  /** Counting from those unchoked now, the peers come in an order that never overdraws the slots. */
  ghost predicate OrderFits<P>(s: State<P>, slots: nat)
    requires MidTick(s)
  {
    forall k :: 0 <= k <= |s.tick.value.rest| ==> |Unchoked(s)| + |ToUnchoke(s, k)| <= slots + |ToChoke(s, k)|
  }

  /** Who is not choked once `k` of the remaining peers have been flipped, connected or not. */
  ghost function Flipped<P>(s: State<P>, k: nat): set<P>
    requires MidTick(s) && k <= |s.tick.value.rest|
  {
    var done := ToSet(s.tick.value.rest[..k]);
    (s.unchoked - done) + s.tick.value.chosen * done
  }

  lemma FlippedSize<P>(s: State<P>, k: nat)
    requires MidTick(s) && k <= |s.tick.value.rest|
    ensures |Flipped(s, k) * s.peers.Values| == |Unchoked(s)| + |ToUnchoke(s, k)| - |ToChoke(s, k)|
  {
    FlippedParts(s, k);
    hide MidTick, Flipped, ToChoke, ToUnchoke, Unchoked;
    assert |Unchoked(s)| == |Unchoked(s) - ToChoke(s, k)| + |ToChoke(s, k)| by {
      assert Unchoked(s) == (Unchoked(s) - ToChoke(s, k)) + ToChoke(s, k);
    }
  }

  lemma FlippedParts<P>(s: State<P>, k: nat)
    requires MidTick(s) && k <= |s.tick.value.rest|
    ensures Flipped(s, k) * s.peers.Values == (Unchoked(s) - ToChoke(s, k)) + ToUnchoke(s, k)
    ensures ToChoke(s, k) <= Unchoked(s) && (Unchoked(s) - ToChoke(s, k)) !! ToUnchoke(s, k)
  {
    hide MidTick, ToSet;
  }

  /** `r` has come from `s` by flipping `k` peers, whoever came and went. */
  ghost predicate After<P>(s: State<P>, r: State<P>, k: nat)
    requires MidTick(s)
  {
    && k <= |s.tick.value.rest| && r.unchoked == Flipped(s, k)
    && r.tick == Continued(s.tick.value.rest[k..], s.tick.value.chosen)
    && s.known <= r.known && r.peers.Values * s.known <= s.peers.Values
  }

  lemma AfterNone<P>(s: State<P>)
    requires MidTick(s)
    ensures After(s, s, 0)
  {
    assert s.tick.value.rest[0..] == s.tick.value.rest;
    assert ToSet(s.tick.value.rest[..0]) == {};
  }

  lemma AfterFlip<P>(s: State<P>, r: State<P>, k: nat, slots: nat)
    requires MidTick(s) && After(s, r, k) && Enabled(r, slots, Flip)
    ensures After(s, Next(r, Flip), k + 1)
  {
    var rest := s.tick.value.rest;
    assert rest[k..] != [] && rest[k..][0] == rest[k] && rest[k..][1..] == rest[k + 1..];
    assert rest[..k + 1] == rest[..k] + [rest[k]];
    assert ToSet(rest[..k + 1]) == ToSet(rest[..k]) + {rest[k]};
  }

  lemma AfterOther<P>(s: State<P>, r: State<P>, k: nat, slots: nat, step: Step<P>)
    requires MidTick(s) && After(s, r, k) && Enabled(r, slots, step) && (step.Connect? || step.Disconnect?)
    ensures After(s, Next(r, step), k)
  {
    hide Flipped, Continued;
    var q := Next(r, step);
    forall p | p in q.peers.Values * s.known ensures p in s.peers.Values {
      var a :| a in q.peers && q.peers[a] == p;
      assert a in r.peers && r.peers[a] == p;
    }
  }

  lemma {:induction false} RunAfter<P>(s: State<P>, slots: nat, run: seq<Step<P>>) returns (k: nat)
    requires MidTick(s) && IsRun(slots, s, run) && WhileApplying(run)
    ensures After(s, Exec(s, run), k)
  {
    hide MidTick, After, Next, Enabled;
    if run == [] {
      k := 0;
      AfterNone(s);
    } else {
      var front, step := run[..|run| - 1], run[|run| - 1];
      k := RunAfter(s, slots, front);
      if step.Flip? {
        AfterFlip(s, Exec(s, front), k, slots);
        k := k + 1;
      } else {
        AfterOther(s, Exec(s, front), k, slots, step);
      }
    }
  }

  lemma {:induction false} OnlyFlips<P>(s: State<P>, slots: nat, k: nat) returns (run: seq<Step<P>>)
    requires MidTick(s) && k <= |s.tick.value.rest|
    ensures IsRun(slots, s, run) && WhileApplying(run) && After(s, Exec(s, run), k) && Exec(s, run).peers == s.peers
  {
    if k == 0 {
      run := [];
      AfterNone(s);
    } else {
      run := OnlyFlips(s, slots, k - 1);
      var r := Exec(s, run);
      assert s.tick.value.rest[k - 1..] != [];
      AfterFlip(s, r, k - 1, slots);
      OneStep(slots, s, run, Flip);
      run := run + [Flip];
    }
  }

  /**
   * While a tick is applied, with connections coming and going: at most `slots` connected peers are unchoked at every
   * point, in every such run, exactly if the order of the peers fits.
   */
  lemma FlipOrderIff<P>(s: State<P>, slots: nat)
    requires MidTick(s)
    ensures (forall run: seq<Step<P>> :: IsRun(slots, s, run) && WhileApplying(run) ==> |Unchoked(Exec(s, run))| <= slots)
            <==> OrderFits(s, slots)
  {
    hide IsRun, Exec, WhileApplying, Flipped, ToUnchoke, ToChoke, Continued;
    if OrderFits(s, slots) {
      forall run: seq<Step<P>> | IsRun(slots, s, run) && WhileApplying(run) ensures |Unchoked(Exec(s, run))| <= slots {
        var k := RunAfter(s, slots, run);
        FlippedKnown(s, k);
        SubsetSize(Unchoked(Exec(s, run)), Flipped(s, k) * s.peers.Values);
        FlippedSize(s, k);
      }
    } else {
      var k :| 0 <= k <= |s.tick.value.rest| && |Unchoked(s)| + |ToUnchoke(s, k)| > slots + |ToChoke(s, k)|;
      var run := OnlyFlips(s, slots, k);
      FlippedSize(s, k);
      assert |Unchoked(Exec(s, run))| > slots;
    }
  }

  lemma FlippedKnown<P>(s: State<P>, k: nat)
    requires MidTick(s) && k <= |s.tick.value.rest|
    ensures Flipped(s, k) <= s.known
  {
  }
}
