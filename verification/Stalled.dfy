/**
 * Who can still take a pending piece. A worker that was told there is nothing waits for a Have message from its peer
 * (internal/downloader/worker.go:226-300), and does not look again when another worker gives a piece back.
 */
module Stalled {
  import opened Bytes
  import opened BitFields
  import opened Pieces
  import opened Swarm

  /** The worker asks for a piece again before it waits for a message. */
  predicate AsksAgain(p: Phase) {
    !p.Idle? && !p.Waiting? && !p.Leaving?
  }

  predicate CanStillTake(sw: State, w: nat, i: nat) {
    w in sw.workers && AsksAgain(sw.workers[w].phase) && HasPiece(sw.workers[w].bf, i)
  }

  /** The field of the worker's peer has room for the piece, so that a Have message can announce it. */
  predicate CanBeTold(sw: State, w: nat, i: nat) {
    w in sw.workers && !sw.workers[w].phase.Leaving? && i < 8 * |sw.workers[w].bf|
  }

  /** Nobody joins, and no peer announces anything. */
  predicate Silent(s: Step) {
    !s.Join? && !s.Have? && !s.Announce?
  }

  /** Nobody joins, and no peer sends a whole field. */
  predicate OnlyHaves(s: Step) {
    !s.Join? && !s.Announce?
  }

  ghost predicate PendingThroughout(sw: State, i: nat, allowed: Step -> bool)
    requires Inv(sw)
  {
    forall run: seq<Step> :: (forall k :: 0 <= k < |run| ==> allowed(run[k])) ==> Is(Exec(sw, run).pm, i, Pending)
  }

  // ----- A step -----

  /** A pending piece stays pending unless it is taken, or completed by somebody who has it in hand all the same. */
  lemma StepPending(sw: State, s: Step, i: nat)
    requires Inv(sw) && Enabled(sw, s) && Is(sw.pm, i, Pending)
    requires s.Take? ==> s.choice != Some(i)
    requires s.Complete? ==> !Holds(sw, s.w, i)
    ensures Is(Next(sw, s).pm, i, Pending)
  {
    hide PMInv, HasPiece, NoneStranded, WatchersRight, Offered, AllComplete, PendingFor;
    ShapeOf(sw.pm);
    if !s.Join? {
      var p := sw.workers[s.w].phase;
      assert Holding(p).Some? ==> Holds(sw, s.w, Holding(p).value);
    }
  }

  /** What changes for the worker of a step, when no peer announces anything. */
  lemma SilentWorkers(sw: State, s: Step)
    requires Inv(sw) && Enabled(sw, s) && Silent(s)
    ensures forall x :: x in Next(sw, s).workers ==>
              && x in sw.workers && Next(sw, s).workers[x].bf == sw.workers[x].bf
              && (x != s.w ==> Next(sw, s).workers[x] == sw.workers[x])
    ensures !s.Cleanup? ==> s.w in Next(sw, s).workers && Next(sw, s).workers[s.w].addr == sw.workers[s.w].addr
  {
    hide PMInv, HasPiece, NoneStranded, WatchersRight, Offered, AllComplete;
  }

  lemma NobodyCan(sw: State, s: Step, i: nat)
    requires Inv(sw) && Is(sw.pm, i, Pending) && Silent(s) && forall w: nat :: !CanStillTake(sw, w, i)
    ensures Is(Taken(sw, s).pm, i, Pending) && forall w: nat :: !CanStillTake(Taken(sw, s), w, i)
  {
    hide PMInv, HasPiece, NoneStranded, WatchersRight, AllComplete;
    if Enabled(sw, s) {
      if s.Take? {
        assert !CanStillTake(sw, s.w, i);
      }
      assert s.Complete? && Holds(sw, s.w, i) ==> CanStillTake(sw, s.w, i);
      StepPending(sw, s, i);
      SilentWorkers(sw, s);
      NotAwake(sw, s, i);
      forall w: nat ensures !CanStillTake(Next(sw, s), w, i) {
        assert !CanStillTake(sw, w, i);
      }
    }
  }

  /** As long as a piece is pending, a waiting worker is woken by messages only. */
  lemma NotAwake(sw: State, s: Step, i: nat)
    requires Inv(sw) && Enabled(sw, s) && Silent(s) && Is(sw.pm, i, Pending)
    ensures s.w in Next(sw, s).workers && AsksAgain(Next(sw, s).workers[s.w].phase) ==> AsksAgain(sw.workers[s.w].phase)
  {
    hide PMInv, HasPiece, NoneStranded, WatchersRight, Offered;
    assert !AllComplete(sw.pm) by { assert !sw.pm.states[i].Completed?; }
  }

  lemma {:induction false} NobodyEverCan(sw: State, run: seq<Step>, i: nat)
    requires Inv(sw) && Is(sw.pm, i, Pending) && forall w: nat :: !CanStillTake(sw, w, i)
    requires forall k :: 0 <= k < |run| ==> Silent(run[k])
    ensures Is(Exec(sw, run).pm, i, Pending)
    decreases |run|
  {
    hide Inv, Taken, CanStillTake;
    if run != [] {
      NobodyCan(sw, run[0], i);
      NobodyEverCan(Taken(sw, run[0]), run[1..], i);
    }
  }

  // ----- How it can be taken -----

  /** The next thing for a worker to do if its peer fails it. */
  function Move(w: nat, p: Phase, i: nat): Step {
    match p
    case Loop => Take(w, Some(i))
    case Idle => Look(w)
    case Waiting => Have(w, i)
    case Got(_) => CheckEndgame(w)
    case InEndgame(_) => Watch(w)
    case Fetching(_, _) => Fail(w)
    case Failed(_) => Release(w)
    case Fetched(_) => Complete(w)
    case Leaving => Cleanup(w)
  }

  function Rank(p: Phase): nat {
    match p
    case Loop => 0
    case Waiting => 1
    case Idle => 2
    case Failed(_) => 1
    case Fetched(_) => 1
    case Fetching(_, _) => 2
    case InEndgame(_) => 3
    case Got(_) => 4
    case Leaving => 0
  }

  lemma MoveTaken(sw: State, w: nat, i: nat)
    requires Inv(sw) && CanStillTake(sw, w, i) && Is(sw.pm, i, Pending)
    ensures var p := sw.workers[w].phase;
            var s := Move(w, p, i);
            && Silent(s)
            && (p.Loop? ==> !Is(Taken(sw, s).pm, i, Pending))
            && (!p.Loop? ==>
                  w in Taken(sw, s).workers && Rank(Taken(sw, s).workers[w].phase) < Rank(p)
                  && CanStillTake(Taken(sw, s), w, i))
  {
    hide PMInv, HasPiece, NoneStranded, WatchersRight, Offered, AllComplete, PendingFor;
    ShapeOf(sw.pm);
  }

  lemma {:induction false} TakenLater(sw: State, w: nat, i: nat) returns (run: seq<Step>)
    requires Inv(sw) && CanStillTake(sw, w, i) && Is(sw.pm, i, Pending)
    ensures (forall k :: 0 <= k < |run| ==> Silent(run[k])) && !Is(Exec(sw, run).pm, i, Pending)
    decreases Rank(sw.workers[w].phase)
  {
    hide Inv, Taken, Is, HasPiece;
    var s := Move(w, sw.workers[w].phase, i);
    MoveTaken(sw, w, i);
    var rest: seq<Step> := [];
    if Is(Taken(sw, s).pm, i, Pending) {
      rest := TakenLater(Taken(sw, s), w, i);
    }
    run := FirstThen(sw, s, rest, i);
  }

  lemma FirstThen(sw: State, s: Step, rest: seq<Step>, i: nat) returns (run: seq<Step>)
    requires Inv(sw) && !Is(Exec(Taken(sw, s), rest).pm, i, Pending)
    ensures run == [s] + rest && !Is(Exec(sw, run).pm, i, Pending)
  {
    hide Inv, Taken, Is;
    run := [s] + rest;
    assert run[0] == s && run[1..] == rest;
  }

  // ----- Main results -----

  /**
   * If no peer announces anything, and nobody joins: a pending piece stays pending, whatever the workers do, exactly if
   * each of them whose peer has it is waiting, about to wait, or leaving.
   */
  lemma PendingUntilHave(sw: State, i: nat)
    requires Inv(sw) && Is(sw.pm, i, Pending)
    ensures PendingThroughout(sw, i, Silent) <==> forall w: nat :: !CanStillTake(sw, w, i)
  {
    hide Inv, Exec, CanStillTake;
    if forall w: nat :: !CanStillTake(sw, w, i) {
      forall run: seq<Step> | forall k :: 0 <= k < |run| ==> Silent(run[k]) ensures Is(Exec(sw, run).pm, i, Pending) {
        NobodyEverCan(sw, run, i);
      }
    } else {
      var w: nat :| CanStillTake(sw, w, i);
      var run := TakenLater(sw, w, i);
      assert !Is(Exec(sw, run).pm, i, Pending);
    }
  }

  // ----- With Have messages -----

  lemma InField(bf: seq<bv8>, i: nat)
    requires HasPiece(bf, i)
    ensures i < 8 * |bf|
  {
  }

  /** Nobody comes back from leaving, and fields do not grow. */
  lemma ToldWorkers(sw: State, s: Step)
    requires Inv(sw) && Enabled(sw, s) && OnlyHaves(s)
    ensures forall x :: x in Next(sw, s).workers ==>
              && x in sw.workers && |Next(sw, s).workers[x].bf| == |sw.workers[x].bf|
              && (sw.workers[x].phase.Leaving? ==> Next(sw, s).workers[x].phase.Leaving?)
  {
    hide PMInv, HasPiece, NoneStranded, WatchersRight, Offered, AllComplete, PendingFor, Choosable;
  }

  lemma NobodyTold(sw: State, s: Step, i: nat)
    requires Inv(sw) && Is(sw.pm, i, Pending) && OnlyHaves(s) && forall w: nat :: !CanBeTold(sw, w, i)
    ensures Is(Taken(sw, s).pm, i, Pending) && forall w: nat :: !CanBeTold(Taken(sw, s), w, i)
  {
    hide PMInv, HasPiece, NoneStranded, WatchersRight, AllComplete;
    if Enabled(sw, s) {
      assert !CanBeTold(sw, s.w, i);
      NobodyHas(sw, s, i);
      StepPending(sw, s, i);
      ToldWorkers(sw, s);
      forall w: nat ensures !CanBeTold(Next(sw, s), w, i) {
        assert !CanBeTold(sw, w, i);
      }
    }
  }

  lemma NobodyHas(sw: State, s: Step, i: nat)
    requires Inv(sw) && Enabled(sw, s) && !CanBeTold(sw, s.w, i)
    ensures (s.Take? ==> s.choice != Some(i)) && (s.Complete? ==> !Holds(sw, s.w, i))
  {
    hide PMInv, HasPiece, NoneStranded, WatchersRight, AllComplete;
    if s.Take? || s.Complete? {
      var bf := sw.workers[s.w].bf;
      if HasPiece(bf, i) { InField(bf, i); }
      assert !HasPiece(bf, i);
    }
  }

  lemma {:induction false} NobodyEverTold(sw: State, run: seq<Step>, i: nat)
    requires Inv(sw) && Is(sw.pm, i, Pending) && forall w: nat :: !CanBeTold(sw, w, i)
    requires forall k :: 0 <= k < |run| ==> OnlyHaves(run[k])
    ensures Is(Exec(sw, run).pm, i, Pending)
    decreases |run|
  {
    hide Inv, Taken, CanBeTold;
    if run != [] {
      NobodyTold(sw, run[0], i);
      NobodyEverTold(Taken(sw, run[0]), run[1..], i);
    }
  }

  /** The same moves, with a Have message as soon as the worker reads one. */
  function ToldMove(w: nat, p: Phase, i: nat): Step {
    if p.Loop? || p.Fetching? then Have(w, i) else Move(w, p, i)
  }

  lemma ToldMoveTaken(sw: State, w: nat, i: nat)
    requires Inv(sw) && CanBeTold(sw, w, i) && !CanStillTake(sw, w, i) && Is(sw.pm, i, Pending)
    ensures var p := sw.workers[w].phase;
            var r := Taken(sw, ToldMove(w, p, i));
            && OnlyHaves(ToldMove(w, p, i))
            && (CanStillTake(r, w, i)
                || (CanBeTold(r, w, i) && Rank(r.workers[w].phase) < Rank(p)))
  {
    hide PMInv, HasPiece, NoneStranded, WatchersRight, Offered;
    ShapeOf(sw.pm);
    assert !AllComplete(sw.pm) by { assert !sw.pm.states[i].Completed?; }
    if OnHave(sw.workers[w].phase) {
      var bf := WithPiece(sw.workers[w].bf, i);
      assert HasPiece(bf, i);
      assert PendingFor(sw.pm, bf);
    }
  }

  predicate OnHave(p: Phase) {
    p.Loop? || p.Fetching? || p.Waiting?
  }

  lemma {:induction false} TakenAfterHave(sw: State, w: nat, i: nat) returns (run: seq<Step>)
    requires Inv(sw) && CanBeTold(sw, w, i) && Is(sw.pm, i, Pending)
    ensures (forall k :: 0 <= k < |run| ==> OnlyHaves(run[k])) && !Is(Exec(sw, run).pm, i, Pending)
    decreases Rank(sw.workers[w].phase)
  {
    hide Inv, Taken, Is, HasPiece, CanStillTake;
    if CanStillTake(sw, w, i) {
      run := TakenLater(sw, w, i);
    } else {
      var s := ToldMove(w, sw.workers[w].phase, i);
      ToldMoveTaken(sw, w, i);
      var r := Taken(sw, s);
      var rest: seq<Step> := [];
      if Is(r.pm, i, Pending) {
        if CanStillTake(r, w, i) {
          rest := TakenLater(r, w, i);
        } else {
          rest := TakenAfterHave(r, w, i);
        }
      }
      run := FirstThen(sw, s, rest, i);
    }
  }

  /**
   * With Have messages, still nobody joining and no new fields: a pending piece stays pending exactly if every worker
   * is leaving or has a peer whose field has no room for it. So a waiting worker lacks nothing but a message.
   */
  lemma PendingDespiteHaves(sw: State, i: nat)
    requires Inv(sw) && Is(sw.pm, i, Pending)
    ensures PendingThroughout(sw, i, OnlyHaves) <==> forall w: nat :: !CanBeTold(sw, w, i)
  {
    hide Inv, Exec, CanBeTold;
    if forall w: nat :: !CanBeTold(sw, w, i) {
      forall run: seq<Step> | forall k :: 0 <= k < |run| ==> OnlyHaves(run[k]) ensures Is(Exec(sw, run).pm, i, Pending) {
        NobodyEverTold(sw, run, i);
      }
    } else {
      var w: nat :| CanBeTold(sw, w, i);
      var run := TakenAfterHave(sw, w, i);
      assert !Is(Exec(sw, run).pm, i, Pending);
    }
  }

  // ----- A run that gets stuck -----

  /**
   * One piece, no endgame, and the peers X and Y, who both have it. Worker 1 takes it, worker 2 finds nothing and waits;
   * then worker 1 fails, gives the piece back and leaves.
   */
  function StallingRun(): (run: seq<Step>)
    ensures |run| == 10
  {
    [Join(1, "X", HAS_IT), Join(2, "Y", HAS_IT), Take(1, Some(0)), Take(2, None), Look(2),
     CheckEndgame(1), Fail(1), Release(1), Quit(1), Cleanup(1)]
  }

  /** The state after the first `k` steps. */
  function StallingState(k: nat): State {
    var x, y := Worker("X", HAS_IT, Loop), Worker("Y", HAS_IT, Loop);
    var free, taken := OnePiece(Pending, ""), OnePiece(InProgress, "X");
    var waiting := y.(phase := Phase.Waiting);
    if k == 0 then State(free, map[])
    else if k == 1 then State(free, map[1 := x])
    else if k == 2 then State(free, map[1 := x, 2 := y])
    else if k == 3 then State(taken, map[1 := x.(phase := Got(0)), 2 := y])
    else if k == 4 then State(taken, map[1 := x.(phase := Got(0)), 2 := y.(phase := Idle)])
    else if k == 5 then State(taken, map[1 := x.(phase := Got(0)), 2 := waiting])
    else if k == 6 then State(taken, map[1 := x.(phase := Fetching(0, None)), 2 := waiting])
    else if k == 7 then State(taken, map[1 := x.(phase := Failed(0)), 2 := waiting])
    else if k == 8 then State(free, map[1 := x, 2 := waiting])
    else if k == 9 then State(free, map[1 := x.(phase := Leaving), 2 := waiting])
    else State(free, map[2 := waiting])
  }

  lemma StallingStep(k: nat)
    requires k < 10 && Inv(StallingState(k))
    ensures Taken(StallingState(k), StallingRun()[k]) == StallingState(k + 1)
  {
    hide Inv, Taken, HAS_IT, StallingState;
    if k < 5 { SecondWaits(k); } else { FirstLeaves(k); }
  }

  lemma SecondWaits(k: nat)
    requires k < 5 && Inv(StallingState(k))
    ensures Taken(StallingState(k), StallingRun()[k]) == StallingState(k + 1)
  {
    hide Inv, Taken, HAS_IT;
    var sw := StallingState(k);
    if k == 0 { Joins(sw, 1, "X"); }
    else if k == 1 { Joins(sw, 2, "Y"); }
    else if k == 2 { TakesIt(sw, 1); }
    else if k == 3 { FindsNothing(sw, 2); }
    else { WaitsNow(sw, 2); }
  }

  lemma FirstLeaves(k: nat)
    requires 5 <= k < 10 && Inv(StallingState(k))
    ensures Taken(StallingState(k), StallingRun()[k]) == StallingState(k + 1)
  {
    hide Inv, Taken, HAS_IT;
    var sw := StallingState(k);
    if k == 5 { FetchesNow(sw, 1); }
    else if k == 6 { FailsNow(sw, 1); }
    else if k == 7 { GivesBack(sw, 1); }
    else if k == 8 { Quits(sw, 1); }
    else { CleansUp(sw, 1); }
  }

  lemma FindsNothing(sw: State, w: nat)
    requires Inv(sw) && w in sw.workers && sw.workers[w].phase.Loop? && sw.pm == OnePiece(InProgress, "X")
    ensures Taken(sw, Take(w, None)) == Swarm.At(sw, w, Idle)
  {
    hide PMInv, HasPiece, NoneStranded, WatchersRight, Offered;
  }

  lemma WaitsNow(sw: State, w: nat)
    requires Inv(sw) && w in sw.workers && sw.workers[w].phase.Idle? && sw.pm == OnePiece(InProgress, "X")
    ensures Taken(sw, Look(w)) == Swarm.At(sw, w, Phase.Waiting)
  {
    hide PMInv, HasPiece, NoneStranded, WatchersRight, Offered;
    assert !AllComplete(sw.pm) by { assert !sw.pm.states[0].Completed?; }
  }

  lemma FetchesNow(sw: State, w: nat)
    requires Inv(sw) && w in sw.workers && sw.workers[w].phase == Got(0) && !sw.pm.endgame
    ensures Taken(sw, CheckEndgame(w)) == Swarm.At(sw, w, Fetching(0, None))
  {
    hide PMInv, HasPiece, NoneStranded, WatchersRight, Offered;
  }

  lemma FailsNow(sw: State, w: nat)
    requires Inv(sw) && w in sw.workers && sw.workers[w].phase == Fetching(0, None)
    ensures Taken(sw, Fail(w)) == Swarm.At(sw, w, Failed(0))
  {
    hide PMInv, HasPiece, NoneStranded, WatchersRight, Offered;
  }

  lemma GivesBack(sw: State, w: nat)
    requires Inv(sw) && w in sw.workers && sw.workers[w].phase == Failed(0) && sw.pm == OnePiece(InProgress, "X")
    ensures Taken(sw, Release(w)) == Swarm.At(sw.(pm := OnePiece(Pending, "")), w, Loop)
  {
    hide PMInv, HasPiece, NoneStranded, WatchersRight, Offered;
    assert [InProgress][0 := Pending] == [Pending] && ["X"][0 := ""] == [""];
  }

  lemma {:induction false} StallingUpTo(k: nat)
    requires k <= 10
    ensures Exec(Initial(1, 0, None), StallingRun()[..k]) == StallingState(k)
  {
    hide Inv, Taken, StallingRun, StallingState;
    if k == 0 {
      FreshOne();
      StallingStart();
    } else {
      StallingUpTo(k - 1);
      ExecNext(Initial(1, 0, None), StallingRun(), k - 1);
      StallingStep(k - 1);
    }
  }

  lemma StallingStart()
    ensures StallingState(0) == State(OnePiece(Pending, ""), map[])
  {
  }

  /** The only piece is pending, the only worker has a peer that offers it, and without a message it never asks. */
  lemma WaitingStalls()
    ensures var sw := Exec(Initial(1, 0, None), StallingRun());
            && Is(sw.pm, 0, Pending) && 2 in sw.workers && sw.workers[2].phase.Waiting? && HasPiece(sw.workers[2].bf, 0)
            && PendingThroughout(sw, 0, Silent) && !PendingThroughout(sw, 0, OnlyHaves)
  {
    hide Inv, Taken, Exec, HasPiece, PendingThroughout, HAS_IT;
    StallingUpTo(10);
    assert StallingRun()[..10] == StallingRun();
    StalledThere(Exec(Initial(1, 0, None), StallingRun()));
  }

  lemma StalledThere(sw: State)
    requires Inv(sw) && sw == StallingState(10)
    ensures Is(sw.pm, 0, Pending) && sw.workers.Keys == {2} && sw.workers[2].phase.Waiting? && HasPiece(sw.workers[2].bf, 0)
    ensures PendingThroughout(sw, 0, Silent) && !PendingThroughout(sw, 0, OnlyHaves)
  {
    hide Inv, HasPiece, PendingThroughout, HAS_IT;
    HasIt();
    InField(HAS_IT, 0);
    PendingUntilHave(sw, 0);
    PendingDespiteHaves(sw, 0);
    assert CanBeTold(sw, 2, 0);
  }
}
