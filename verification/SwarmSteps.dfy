/**
 * What each step of a worker does (internal/downloader/worker.go:155-300 and 342-360): to the worker itself, to the piece
 * manager, and to nobody else.
 */
module SwarmSteps {
  import opened Bytes
  import opened BitFields
  import opened Pieces
  import opened PieceSteps
  import opened Swarm

  /** The worker of the step is as given afterwards, and all others are as before. */
  ghost predicate OnlyWorker(sw: State, r: State, w: nat, after: Worker) {
    && w in r.workers && r.workers[w] == after
    && forall x :: x != w ==> (x in r.workers <==> x in sw.workers) && (x in sw.workers ==> r.workers[x] == sw.workers[x])
  }

  /** A step that leaves the piece manager alone. */
  ghost predicate WorkerOnly(sw: State, r: State, w: nat, after: Worker) {
    r.pm == sw.pm && OnlyWorker(sw, r, w, after)
  }

  lemma OwnSteps(sw: State, s: Step)
    requires Inv(sw) && Enabled(sw, s)
    ensures var r := Next(sw, s);
            match s
            case Join(w, addr, bf) => WorkerOnly(sw, r, w, Worker(addr, bf, Loop))
            case CheckEndgame(w) =>
              var i := sw.workers[w].phase.piece;
              WorkerOnly(sw, r, w, sw.workers[w].(phase := if sw.pm.endgame then InEndgame(i) else Fetching(i, None)))
            case Arrive(w) => WorkerOnly(sw, r, w, sw.workers[w].(phase := Fetched(sw.workers[w].phase.piece)))
            case Fail(w) => WorkerOnly(sw, r, w, sw.workers[w].(phase := Failed(sw.workers[w].phase.piece)))
            case Cancel(w) => WorkerOnly(sw, r, w, sw.workers[w].(phase := Loop))
            case Quit(w) => WorkerOnly(sw, r, w, sw.workers[w].(phase := Leaving))
            case Wake(w) => WorkerOnly(sw, r, w, sw.workers[w].(phase := Loop))
            case Announce(w, bf) => WorkerOnly(sw, r, w, sw.workers[w].(bf := bf))
            case _ => true
  {
    hide PMInv, HasPiece, NoneStranded, WatchersRight, Offered, AllComplete, PendingFor;
  }

  /** A worker with nothing to do leaves if every piece is complete, and waits otherwise. */
  lemma LookMeans(sw: State, w: nat)
    requires Inv(sw) && Enabled(sw, Look(w))
    ensures WorkerOnly(sw, Next(sw, Look(w)), w, sw.workers[w].(phase :=
              if forall i :: 0 <= i < |sw.pm.states| ==> sw.pm.states[i].Completed? then Leaving else Phase.Waiting))
  {
    hide PMInv, HasPiece, NoneStranded, WatchersRight, Offered;
  }

  /** A Have message adds a piece, and wakes a waiting worker if its peer has a pending one then. */
  lemma HaveMeans(sw: State, w: nat, index: nat)
    requires Inv(sw) && Enabled(sw, Have(w, index))
    ensures var before, r := sw.workers[w], Next(sw, Have(w, index));
            w in r.workers &&
            var after := r.workers[w];
            && WorkerOnly(sw, r, w, after) && after.addr == before.addr && |after.bf| == |before.bf|
            && (forall j :: HasPiece(after.bf, j) <==> HasPiece(before.bf, j) || (j == index < 8 * |before.bf|))
            && after.phase == if before.phase.Waiting?
                                 && exists i :: 0 <= i < |sw.pm.states| && sw.pm.states[i].Pending? && HasPiece(after.bf, i)
                              then Loop else before.phase
  {
    hide PMInv, HasPiece, NoneStranded, WatchersRight, Offered;
    var bf := WithPiece(sw.workers[w].bf, index);
    if i :| 0 <= i < |sw.pm.states| && sw.pm.states[i].Pending? && HasPiece(bf, i) {
      assert Is(sw.pm, i, Pending);
    }
  }

  /** The steps that are calls of the piece manager, each doing what the call does. */
  lemma ManagerSteps(sw: State, s: Step)
    requires Inv(sw) && Enabled(sw, s)
    ensures |sw.pm.owners| == |sw.pm.states|
    ensures var r := Next(sw, s);
            match s
            case Take(w, choice) =>
              && Handed(sw.pm, r.pm, sw.workers[w].addr, sw.workers[w].bf, choice)
              && OnlyWorker(sw, r, w, sw.workers[w].(phase := if choice.Some? then Got(choice.value) else Idle))
            case Watch(w) =>
              exists ch: nat :: Watched(sw.pm, r.pm, sw.workers[w].phase.piece, ch)
                && OnlyWorker(sw, r, w, sw.workers[w].(phase := Fetching(sw.workers[w].phase.piece, Some(ch))))
            case Complete(w) =>
              var i := sw.workers[w].phase.piece;
              i < |sw.pm.states| && Done(sw.pm, r.pm, i) && OnlyWorker(sw, r, w, sw.workers[w].(phase := Loop))
            case Release(w) =>
              var i := sw.workers[w].phase.piece;
              i < |sw.pm.states| && GivenBack(sw.pm, r.pm, i) && OnlyWorker(sw, r, w, sw.workers[w].(phase := Loop))
            case Cleanup(w) =>
              && GivenBackBy(sw.pm, r.pm, sw.workers[w].addr) && w !in r.workers
              && forall x :: x != w ==>
                   (x in r.workers <==> x in sw.workers) && (x in sw.workers ==> r.workers[x] == sw.workers[x])
            case _ => true
  {
    hide PMInv, HasPiece, NoneStranded, WatchersRight, Offered, Handed, Watched, Done, GivenBack, GivenBackBy, Choosable;
    hide Assigned, WithChannel, Finished, Released, ReleasedAll;
    ShapeOf(sw.pm);
    if !s.Join? {
      var p := sw.workers[s.w].phase;
      assert Holding(p).Some? ==> Holds(sw, s.w, Holding(p).value);
      match s {
        case Take(w, choice) => HandedOut(sw.pm, sw.workers[w].addr, sw.workers[w].bf, choice);
        case Watch(w) => ChannelMeans(sw.pm, p.piece);
        case Complete(w) => CompletionMeans(sw.pm, p.piece);
        case Release(w) => ReleaseMeans(sw.pm, p.piece);
        case Cleanup(w) => ReleaseAllMeans(sw.pm, sw.workers[w].addr);
        case _ =>
      }
    }
  }
}
