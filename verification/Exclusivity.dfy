/**
 * Who else has a piece: before endgame two workers can only have the same one if a worker that leaves gives back, by
 * its address, what another worker at that address has in hand (internal/downloader/piece_manager.go:210-225).
 */
module Exclusivity {
  import opened Bytes
  import opened BitFields
  import opened Pieces
  import opened Swarm

  /** Whoever has a piece in hand owns it, and is the only one. */
  ghost predicate Exclusive(sw: State)
    requires |sw.pm.owners| == |sw.pm.states|
  {
    && (forall w: nat, i: nat :: Holds(sw, w, i) ==> Is(sw.pm, i, InProgress) && sw.pm.owners[i] == sw.workers[w].addr)
    && (forall w: nat, x: nat, i: nat :: Holds(sw, w, i) && Holds(sw, x, i) ==> w == x)
  }

  /** The branch of the release in `cleanup`: some piece in progress is owned by the address of the leaving worker. */
  ghost predicate GivesBack(sw: State, s: Step)
    requires |sw.pm.owners| == |sw.pm.states|
  {
    s.Cleanup? && s.w in sw.workers && exists i :: 0 <= i < |sw.pm.states| && OwnedBy(sw.pm, sw.workers[s.w].addr, i)
  }

  // ----- One step -----

  lemma AssignOne(pm: PM, a: string, bf: seq<bv8>, choice: Option<nat>)
    requires |pm.owners| == |pm.states| && Choosable(pm, a, bf, choice)
    requires !Assigned(pm, a, choice).endgame
    ensures choice.Some? ==> Is(pm, choice.value, Pending)
  {
    hide HasPiece;
  }

  lemma TakeExclusive(sw: State, s: Step)
    requires Inv(sw) && s.Take? && Enabled(sw, s) && Exclusive(sw) && !Next(sw, s).pm.endgame
    ensures |Next(sw, s).pm.owners| == |Next(sw, s).pm.states| && Exclusive(Next(sw, s))
  {
    hide PMInv, HasPiece, NoneStranded, WatchersRight;
    ShapeOf(sw.pm);
    var a := sw.workers[s.w].addr;
    AssignOne(sw.pm, a, sw.workers[s.w].bf, s.choice);
    SameHands(sw.(pm := Assigned(sw.pm, a, s.choice)), s.w, if s.choice.Some? then Got(s.choice.value) else Idle);
    HandsOnly(sw, Assigned(sw.pm, a, s.choice));
  }

  lemma WatchExclusive(sw: State, s: Step)
    requires Inv(sw) && Enabled(sw, s) && Exclusive(sw) && s.Watch?
    ensures |Next(sw, s).pm.owners| == |Next(sw, s).pm.states| && Exclusive(Next(sw, s))
  {
    hide PMInv, HasPiece, NoneStranded, WatchersRight;
    ShapeOf(sw.pm);
    var p := sw.workers[s.w].phase;
    assert Holding(p).Some? ==> Holds(sw, s.w, Holding(p).value);
    var r := Next(sw, s);
    HandsOnly(sw, r.pm);
    SameHands(sw.(pm := r.pm), s.w, r.workers[s.w].phase);
  }

  /** A worker hands in the piece, or gives it back. */
  lemma HandOverExclusive(sw: State, s: Step)
    requires Inv(sw) && Enabled(sw, s) && Exclusive(sw) && (s.Complete? || s.Release?)
    ensures |Next(sw, s).pm.owners| == |Next(sw, s).pm.states| && Exclusive(Next(sw, s))
  {
    hide PMInv, HasPiece, NoneStranded, WatchersRight;
    ShapeOf(sw.pm);
    var p := sw.workers[s.w].phase;
    assert Holding(p).Some? ==> Holds(sw, s.w, Holding(p).value);
    var r := Next(sw, s);
    HandsOnly(sw, r.pm);
    SameHands(sw.(pm := r.pm), s.w, r.workers[s.w].phase);
  }

  /** A worker moves on with its piece, or drops one that has been cancelled. */
  lemma MoveExclusive(sw: State, s: Step)
    requires Inv(sw) && Enabled(sw, s) && Exclusive(sw)
    requires s.CheckEndgame? || s.Arrive? || s.Fail? || s.Cancel?
    ensures Exclusive(Next(sw, s))
  {
    hide PMInv, HasPiece, NoneStranded, WatchersRight, Offered, Exclusive;
    var r := Next(sw, s);
    SameHands(sw, s.w, r.workers[s.w].phase);
    FewerHands(sw, r);
  }

  lemma FewerHands(sw: State, r: State)
    requires |sw.pm.owners| == |sw.pm.states| && Exclusive(sw) && r.pm == sw.pm
    requires forall x: nat, i: nat :: Holds(r, x, i) ==> Holds(sw, x, i)
    requires forall x :: x in r.workers ==> x in sw.workers && r.workers[x].addr == sw.workers[x].addr
    ensures Exclusive(r)
  {
  }

  /** A step that leaves all pieces where they are. */
  lemma SamePiecesExclusive(sw: State, s: Step)
    requires Inv(sw) && Enabled(sw, s) && Exclusive(sw)
    requires s.Have? || s.Announce? || s.Look? || s.Wake? || s.Quit?
    ensures Exclusive(Next(sw, s))
  {
    hide PMInv, HasPiece, NoneStranded, WatchersRight, PendingFor, AllComplete;
    assert forall x: nat, i: nat :: Holds(Next(sw, s), x, i) <==> Holds(sw, x, i);
  }

  lemma JoinExclusive(sw: State, s: Step)
    requires Inv(sw) && Enabled(sw, s) && Exclusive(sw) && s.Join?
    ensures Exclusive(Next(sw, s))
  {
    hide PMInv, NoneStranded, WatchersRight;
    assert forall x: nat, i: nat :: Holds(Next(sw, s), x, i) <==> Holds(sw, x, i);
  }

  lemma CleanupExclusive(sw: State, s: Step)
    requires Inv(sw) && Enabled(sw, s) && Exclusive(sw) && s.Cleanup? && !GivesBack(sw, s)
    ensures Next(sw, s).pm == sw.pm && Exclusive(Next(sw, s))
  {
    hide PMInv, NoneStranded, WatchersRight, HasPiece;
    NothingToRelease(sw.pm, sw.workers[s.w].addr);
    assert forall x: nat, i: nat :: Holds(Next(sw, s), x, i) <==> x != s.w && Holds(sw, x, i);
  }

  /** What a leaving worker gives back is in the hand of another one, at the same address. */
  lemma CleanupBreaks(sw: State, s: Step)
    requires Inv(sw) && Enabled(sw, s) && s.Cleanup? && GivesBack(sw, s)
    ensures |Next(sw, s).pm.owners| == |Next(sw, s).pm.states| && !Exclusive(Next(sw, s))
  {
    hide PMInv, WatchersRight, HasPiece;
    var a := sw.workers[s.w].addr;
    var i :| 0 <= i < |sw.pm.states| && OwnedBy(sw.pm, a, i);
    assert Is(sw.pm, i, InProgress);
    assert HeldByOwner(sw, i);
    var x: nat :| Holds(sw, x, i) && sw.workers[x].addr == sw.pm.owners[i];
    assert Holds(Next(sw, s), x, i);
    assert Is(Next(sw, s).pm, i, Pending);
  }

  lemma StepExclusive(sw: State, s: Step)
    requires Inv(sw) && Exclusive(sw) && !Taken(sw, s).pm.endgame
    ensures Exclusive(Taken(sw, s)) <==> !(Enabled(sw, s) && GivesBack(sw, s))
  {
    hide PMInv, NoneStranded, WatchersRight, Addressed, Next, Enabled, Exclusive, GivesBack;
    if Enabled(sw, s) {
      match s {
        case Take(_, _) => TakeExclusive(sw, s); NotCleanup(sw, s);
        case Have(_, _) => SamePiecesExclusive(sw, s); NotCleanup(sw, s);
        case Announce(_, _) => SamePiecesExclusive(sw, s); NotCleanup(sw, s);
        case Look(_) => SamePiecesExclusive(sw, s); NotCleanup(sw, s);
        case Wake(_) => SamePiecesExclusive(sw, s); NotCleanup(sw, s);
        case Quit(_) => SamePiecesExclusive(sw, s); NotCleanup(sw, s);
        case Join(_, _, _) => JoinExclusive(sw, s); NotCleanup(sw, s);
        case Cleanup(_) => if GivesBack(sw, s) { CleanupBreaks(sw, s); } else { CleanupExclusive(sw, s); }
        case Complete(_) => HandOverExclusive(sw, s); NotCleanup(sw, s);
        case Release(_) => HandOverExclusive(sw, s); NotCleanup(sw, s);
        case Watch(_) => WatchExclusive(sw, s); NotCleanup(sw, s);
        case _ => MoveExclusive(sw, s); NotCleanup(sw, s);
      }
    }
  }

  lemma NotCleanup(sw: State, s: Step)
    requires |sw.pm.owners| == |sw.pm.states| && !s.Cleanup?
    ensures !GivesBack(sw, s)
  {
  }

  // ----- Runs -----

  ghost predicate AlwaysExclusive(sw: State, run: seq<Step>)
    requires Inv(sw)
    decreases |run|
  {
    Exclusive(sw) && (run != [] ==> AlwaysExclusive(Taken(sw, run[0]), run[1..]))
  }

  /** No leaving worker gives back anything. */
  ghost predicate NothingGivenBack(sw: State, run: seq<Step>)
    requires Inv(sw)
    decreases |run|
  {
    run != [] ==>
      !(Enabled(sw, run[0]) && GivesBack(sw, run[0])) && NothingGivenBack(Taken(sw, run[0]), run[1..])
  }

  /**
   * Over any run that has not reached endgame: every worker always owns what it has in hand, and alone, exactly if no
   * leaving worker takes the branch of its release that gives a piece back.
   */
  lemma {:induction false} ExclusiveIff(sw: State, run: seq<Step>)
    requires Inv(sw) && Exclusive(sw) && !Exec(sw, run).pm.endgame
    ensures AlwaysExclusive(sw, run) <==> NothingGivenBack(sw, run)
    decreases |run|
  {
    hide PMInv, NoneStranded, WatchersRight, Addressed, Exclusive, Taken, GivesBack, Enabled;
    if run != [] {
      var r := Taken(sw, run[0]);
      OnlyForward(r, run[1..], 0);
      StepExclusive(sw, run[0]);
      if Exclusive(r) {
        ExclusiveIff(r, run[1..]);
      }
    }
  }

  /** Endgame is not reached as long as more pieces remain than the threshold, and never with a threshold of zero. */
  lemma BeforeEndgame(sw: State)
    requires Inv(sw) && (sw.pm.threshold <= 0 || |sw.pm.states| - sw.pm.completed > sw.pm.threshold)
    ensures !sw.pm.endgame
  {
  }

  lemma InitiallyExclusive(n: nat, threshold: int, present: Option<seq<bool>>)
    requires present.Some? ==> |present.value| == n
    ensures Exclusive(Initial(n, threshold, present))
  {
  }

  // ----- Different addresses -----

  ghost predicate Distinct(sw: State) {
    forall w, x :: w in sw.workers && x in sw.workers && sw.workers[w].addr == sw.workers[x].addr ==> w == x
  }

  /** Nobody joins with an address that a worker has. */
  ghost predicate FreshAddresses(sw: State, run: seq<Step>)
    requires Inv(sw)
    decreases |run|
  {
    run != [] ==>
      && (run[0].Join? && Enabled(sw, run[0]) ==> forall w :: w in sw.workers ==> sw.workers[w].addr != run[0].addr)
      && FreshAddresses(Taken(sw, run[0]), run[1..])
  }

  lemma StepDistinct(sw: State, s: Step)
    requires Inv(sw) && Distinct(sw)
    requires s.Join? && Enabled(sw, s) ==> forall w :: w in sw.workers ==> sw.workers[w].addr != s.addr
    ensures Distinct(Taken(sw, s))
  {
    hide PMInv, NoneStranded, WatchersRight, Choosable;
  }

  /** The exact condition for an empty cleanup: nobody else at the address has in hand a piece the address owns. */
  lemma CleanupIff(sw: State, w: nat)
    requires Inv(sw) && w in sw.workers && sw.workers[w].phase.Leaving?
    ensures ReleasedAll(sw.pm, sw.workers[w].addr) == sw.pm <==>
              !exists x: nat, i: nat :: x != w && Holds(sw, x, i) && OwnedBy(sw.pm, sw.workers[x].addr, i)
                                        && sw.workers[x].addr == sw.workers[w].addr
  {
    hide PMInv, WatchersRight, HasPiece;
    var a := sw.workers[w].addr;
    forall i | 0 <= i < |sw.pm.states| && OwnedBy(sw.pm, a, i)
      ensures exists x: nat :: x != w && Holds(sw, x, i) && sw.workers[x].addr == a
    {
      assert Is(sw.pm, i, InProgress);
      assert HeldByOwner(sw, i);
      var x: nat :| Holds(sw, x, i) && sw.workers[x].addr == sw.pm.owners[i];
      assert x != w;
    }
    if i :| 0 <= i < |sw.pm.states| && OwnedBy(sw.pm, a, i) {
      var x: nat :| x != w && Holds(sw, x, i) && sw.workers[x].addr == a;
      assert ReleasedAll(sw.pm, a).states[i].Pending?;
    } else {
      NothingToRelease(sw.pm, a);
    }
  }

  /** With an address of its own, a leaving worker finds nothing to release. */
  lemma CleanupFindsNothing(sw: State, w: nat)
    requires Inv(sw) && Distinct(sw) && w in sw.workers && sw.workers[w].phase.Leaving?
    ensures ReleasedAll(sw.pm, sw.workers[w].addr) == sw.pm && !GivesBack(sw, Cleanup(w))
  {
    hide PMInv, WatchersRight, HasPiece, ReleasedAll;
    var a := sw.workers[w].addr;
    forall i | 0 <= i < |sw.pm.states| ensures !OwnedBy(sw.pm, a, i) {
      assert Is(sw.pm, i, InProgress) ==> HeldByOwner(sw, i);
    }
    NothingToRelease(sw.pm, a);
  }

  lemma {:induction false} DistinctGiveNothingBack(sw: State, run: seq<Step>)
    requires Inv(sw) && Distinct(sw) && FreshAddresses(sw, run)
    ensures NothingGivenBack(sw, run)
    decreases |run|
  {
    hide PMInv, NoneStranded, WatchersRight, Addressed, Next, Taken, Distinct;
    if run != [] {
      StepDistinct(sw, run[0]);
      if run[0].Cleanup? && Enabled(sw, run[0]) {
        LeavingNow(sw, run[0]);
        CleanupFindsNothing(sw, run[0].w);
      }
      DistinctGiveNothingBack(Taken(sw, run[0]), run[1..]);
    }
  }

  lemma LeavingNow(sw: State, s: Step)
    requires Wellformed(sw) && s.Cleanup? && Enabled(sw, s)
    ensures s.w in sw.workers && sw.workers[s.w].phase.Leaving?
  {
  }

  /** With different addresses, a worker has a piece in hand exactly if the piece is in progress and its own. */
  lemma ExclusiveMeans(sw: State, w: nat, i: nat)
    requires Inv(sw) && Exclusive(sw) && Distinct(sw) && w in sw.workers && i < |sw.pm.states|
    ensures Holds(sw, w, i) <==> Is(sw.pm, i, InProgress) && sw.pm.owners[i] == sw.workers[w].addr
  {
    hide PMInv, WatchersRight;
    assert Is(sw.pm, i, InProgress) ==> HeldByOwner(sw, i);
  }

  /** From the start, with an address of its own for every worker: until endgame no two have the same piece. */
  lemma DistinctExclusive(n: nat, threshold: int, present: Option<seq<bool>>, run: seq<Step>)
    requires present.Some? ==> |present.value| == n
    requires FreshAddresses(Initial(n, threshold, present), run)
    requires !Exec(Initial(n, threshold, present), run).pm.endgame
    ensures AlwaysExclusive(Initial(n, threshold, present), run)
  {
    var sw := Initial(n, threshold, present);
    InitiallyExclusive(n, threshold, present);
    DistinctGiveNothingBack(sw, run);
    ExclusiveIff(sw, run);
  }

  // ----- A shared address -----

  /**
   * One piece, no endgame, and the peers X, X and Y. Worker 1 fetches the piece; worker 2 gives up before it has one and
   * its cleanup makes the piece of worker 1 pending; worker 3 takes it too.
   */
  function SharedRun(): (run: seq<Step>)
    ensures |run| == 7
  {
    [Join(1, "X", HAS_IT), Join(2, "X", HAS_IT), Join(3, "Y", HAS_IT), Take(1, Some(0)), Quit(2), Cleanup(2),
     Take(3, Some(0))]
  }

  /** The state after the first `k` steps. */
  function SharedState(k: nat): State {
    var x, y := Worker("X", HAS_IT, Loop), Worker("Y", HAS_IT, Loop);
    var x1, y1 := x.(phase := Got(0)), y.(phase := Got(0));
    var free, taken := OnePiece(Pending, ""), OnePiece(InProgress, "X");
    if k == 0 then State(free, map[])
    else if k == 1 then State(free, map[1 := x])
    else if k == 2 then State(free, map[1 := x, 2 := x])
    else if k == 3 then State(free, map[1 := x, 2 := x, 3 := y])
    else if k == 4 then State(taken, map[1 := x1, 2 := x, 3 := y])
    else if k == 5 then State(taken, map[1 := x1, 2 := x.(phase := Leaving), 3 := y])
    else if k == 6 then State(free, map[1 := x1, 3 := y])
    else State(OnePiece(InProgress, "Y"), map[1 := x1, 3 := y1])
  }

  lemma SharedStep(k: nat)
    requires k < 7 && Inv(SharedState(k))
    ensures Taken(SharedState(k), SharedRun()[k]) == SharedState(k + 1)
  {
    hide Inv, Taken, HAS_IT;
    var sw := SharedState(k);
    if k == 0 { Joins(sw, 1, "X"); }
    else if k == 1 { Joins(sw, 2, "X"); }
    else if k == 2 { Joins(sw, 3, "Y"); }
    else if k == 3 { TakesIt(sw, 1); }
    else if k == 4 { Quits(sw, 2); }
    else if k == 5 { CleansUp(sw, 2); }
    else { TakesIt(sw, 3); }
  }

  lemma {:induction false} SharedUpTo(k: nat)
    requires k <= 7
    ensures Exec(Initial(1, 0, None), SharedRun()[..k]) == SharedState(k)
  {
    hide Inv, Taken, Exec, SharedRun, SharedState;
    if k == 0 {
      FreshOne();
      SharedStart();
      assert Exec(Initial(1, 0, None), []) == Initial(1, 0, None) by { Nothing(Initial(1, 0, None)); }
    } else {
      SharedUpTo(k - 1);
      ExecNext(Initial(1, 0, None), SharedRun(), k - 1);
      SharedStep(k - 1);
    }
  }

  lemma SharedStart()
    ensures SharedState(0) == State(OnePiece(Pending, ""), map[])
  {
  }

  lemma Nothing(sw: State)
    requires Inv(sw)
    ensures Exec(sw, []) == sw
  {
  }

  /** Two workers have the same piece, before endgame. */
  lemma SharedAddressBreaks()
    ensures var sw := Exec(Initial(1, 0, None), SharedRun());
            Holds(sw, 1, 0) && Holds(sw, 3, 0) && !sw.pm.endgame && sw.workers[1].addr != sw.workers[3].addr
  {
    hide Inv, Taken, Exec;
    SharedUpTo(7);
    assert SharedRun()[..7] == SharedRun();
  }
}
