/**
 * The piece protocol: any number of workers (internal/downloader/worker.go:155-224 and 342-360) against one piece
 * manager, interleaved at its locked regions. Between two of those a worker is alone with its peer, where anything may
 * happen: pieces arrive, fail, or are cancelled. The manager knows workers by the address of their peer only, and
 * nothing keeps two workers from having the same one (cmd/bittorrent/command.go:170-174).
 */
module Swarm {
  import opened Bytes
  import opened BitFields
  import opened Pieces

  /**
   * Where a worker is; the ones from `Got` to `Fetched` have a piece. `Loop` is also waiting for an unchoke, `Idle` is
   * having been told that there is nothing, and `Waiting` is waiting for a Have message.
   */
  datatype Phase =
    | Loop
    | Idle
    | Waiting
    | Got(piece: nat)
    | InEndgame(piece: nat)
    | Fetching(piece: nat, cancel: Option<nat>)
    | Failed(piece: nat)
    | Fetched(piece: nat)
    | Leaving

  /** `bf` is what its peer has announced. */
  datatype Worker = Worker(addr: string, bf: seq<bv8>, phase: Phase)

  /** Workers by number; one that has left is not in the map. */
  datatype State = State(pm: PM, workers: map<nat, Worker>)

  datatype Step =
    | Join(w: nat, addr: string, bf: seq<bv8>)
    | Take(w: nat, choice: Option<nat>)
    | Look(w: nat)
    | Have(w: nat, index: nat)
    | Announce(w: nat, bf: seq<bv8>)
    | Wake(w: nat)
    | CheckEndgame(w: nat)
    | Watch(w: nat)
    | Arrive(w: nat)
    | Fail(w: nat)
    | Cancel(w: nat)
    | Complete(w: nat)
    | Release(w: nat)
    | Quit(w: nat)
    | Cleanup(w: nat)

  function Holding(p: Phase): Option<nat> {
    match p
    case Loop => None
    case Idle => None
    case Waiting => None
    case Leaving => None
    case Got(i) => Some(i)
    case InEndgame(i) => Some(i)
    case Fetching(i, _) => Some(i)
    case Failed(i) => Some(i)
    case Fetched(i) => Some(i)
  }

  predicate Holds(sw: State, w: nat, i: nat) {
    w in sw.workers && Holding(sw.workers[w].phase) == Some(i)
  }

  /** The worker is fetching, and its cancel channel is closed. */
  predicate SeesClosed(sw: State, p: Phase) {
    p.Fetching? && p.cancel.Some? && p.cancel.value in sw.pm.closed
  }

  ghost predicate Wellformed(sw: State) {
    && |sw.pm.owners| == |sw.pm.states|
    && forall w: nat, i: nat :: Holds(sw, w, i) ==> i < |sw.pm.states|
  }

  ghost predicate Enabled(sw: State, s: Step)
    requires Wellformed(sw)
  {
    if s.Join? then s.w !in sw.workers && s.addr != ""
    else
      s.w in sw.workers &&
      var p := sw.workers[s.w].phase;
      match s
      case Take(w, choice) => p.Loop? && Choosable(sw.pm, sw.workers[w].addr, sw.workers[w].bf, choice)
      case Look(_) => p.Idle?
      case Have(_, _) => p.Loop? || p.Fetching? || p.Waiting?
      case Announce(_, _) => p.Loop?
      case Wake(_) => p.Waiting? && AllComplete(sw.pm)
      case CheckEndgame(_) => p.Got?
      case Watch(_) => p.InEndgame?
      case Arrive(_) => p.Fetching?
      case Fail(_) => p.Fetching?
      case Cancel(_) => SeesClosed(sw, p)
      case Complete(_) => p.Fetched?
      case Release(_) => p.Failed?
      case Quit(_) => p.Loop? || p.Waiting?
      case Cleanup(_) => p.Leaving?
      case Join(_, _, _) => false
  }

  predicate AllComplete(pm: PM) {
    forall i :: 0 <= i < |pm.states| ==> pm.states[i].Completed?
  }

  /** A message: the index of one more piece, or a whole field in the place of the old one. */
  function Told(sw: State, w: nat, bf: seq<bv8>): State
    requires w in sw.workers
  {
    sw.(workers := sw.workers[w := sw.workers[w].(bf := bf)])
  }

  function At(sw: State, w: nat, p: Phase): State
    requires w in sw.workers
  {
    sw.(workers := sw.workers[w := sw.workers[w].(phase := p)])
  }

  ghost function Next(sw: State, s: Step): State
    requires Wellformed(sw) && Enabled(sw, s)
  {
    var w := s.w;
    if s.Join? then sw.(workers := sw.workers[w := Worker(s.addr, s.bf, Loop)])
    else
      var a, p := sw.workers[w].addr, sw.workers[w].phase;
      assert Holding(p).Some? ==> Holds(sw, w, Holding(p).value);
      match s
      case Take(_, choice) =>
        At(sw.(pm := Assigned(sw.pm, a, choice)), w, if choice.Some? then Got(choice.value) else Idle)
      case Look(_) => At(sw, w, if AllComplete(sw.pm) then Leaving else Waiting)
      case Have(_, index) =>
        var bf := WithPiece(sw.workers[w].bf, index);
        At(Told(sw, w, bf), w, if p.Waiting? && PendingFor(sw.pm, bf) then Loop else p)
      case Announce(_, bf) => Told(sw, w, bf)
      case Wake(_) => At(sw, w, Loop)
      case CheckEndgame(_) => At(sw, w, if sw.pm.endgame then InEndgame(p.piece) else Fetching(p.piece, None))
      case Watch(_) =>
        At(sw.(pm := WithChannel(sw.pm, p.piece)), w, Fetching(p.piece, Some(ChannelOf(sw.pm, p.piece))))
      case Arrive(_) => At(sw, w, Fetched(p.piece))
      case Fail(_) => At(sw, w, Failed(p.piece))
      case Cancel(_) => At(sw, w, Loop)
      case Complete(_) => At(sw.(pm := Finished(sw.pm, p.piece)), w, Loop)
      case Release(_) => At(sw.(pm := Released(sw.pm, p.piece)), w, Loop)
      case Quit(_) => At(sw, w, Leaving)
      case Cleanup(_) => State(ReleasedAll(sw.pm, a), sw.workers - {w})
      case Join(_, _, _) => sw
  }

  // ----- The invariant -----

  /** Some live worker at the address that owns piece `i` has it in hand. */
  ghost predicate HeldByOwner(sw: State, i: nat)
    requires |sw.pm.owners| == |sw.pm.states| && i < |sw.pm.states|
  {
    exists w: nat :: Holds(sw, w, i) && sw.workers[w].addr == sw.pm.owners[i]
  }

  ghost predicate NoneStranded(sw: State)
    requires |sw.pm.owners| == |sw.pm.states|
  {
    forall i :: 0 <= i < |sw.pm.states| && Is(sw.pm, i, InProgress) ==> HeldByOwner(sw, i)
  }

  /** A cancel channel belongs to the piece it is watched for. */
  ghost predicate WatchersRight(sw: State) {
    forall w :: w in sw.workers && sw.workers[w].phase.Fetching? && sw.workers[w].phase.cancel.Some? ==>
      var p := sw.workers[w].phase; p.cancel.value < |sw.pm.made| && sw.pm.made[p.cancel.value] == p.piece
  }

  ghost predicate Addressed(sw: State) {
    forall w :: w in sw.workers ==> sw.workers[w].addr != ""
  }

  /** Whoever has a piece in hand has a peer that announced it. */
  ghost predicate Offered(sw: State) {
    forall w: nat, i: nat :: Holds(sw, w, i) ==> HasPiece(sw.workers[w].bf, i)
  }

  ghost predicate Inv(sw: State) {
    Wellformed(sw) && PMInv(sw.pm) && Addressed(sw) && NoneStranded(sw) && WatchersRight(sw) && Offered(sw)
  }

  lemma ShapeOf(pm: PM)
    requires PMInv(pm)
    ensures |pm.owners| == |pm.states|
  {
  }

  /** What a worker holds changes only for the worker that moves. */
  lemma SameHands(sw: State, w: nat, p: Phase)
    requires w in sw.workers
    ensures forall x: nat, i: nat ::
              Holds(At(sw, w, p), x, i) <==> if x == w then Holding(p) == Some(i) else Holds(sw, x, i)
    ensures forall x :: x in sw.workers <==> x in At(sw, w, p).workers
    ensures forall x :: x in sw.workers ==>
              At(sw, w, p).workers[x].addr == sw.workers[x].addr && At(sw, w, p).workers[x].bf == sw.workers[x].bf
  {
  }

  lemma HandsOnly(sw: State, pm: PM)
    ensures forall x: nat, i: nat :: Holds(sw.(pm := pm), x, i) <==> Holds(sw, x, i)
  {
  }

  lemma JoinKeeps(sw: State, s: Step)
    requires Inv(sw) && s.Join? && Enabled(sw, s)
    ensures Inv(Next(sw, s))
  {
    hide PMInv, HasPiece;
    var r := Next(sw, s);
    assert forall x: nat, i: nat :: Holds(r, x, i) <==> Holds(sw, x, i);
    OwnersStay(sw, r);
  }

  /** A piece whose owner has it in hand before, with everybody still there, has it after. */
  lemma OwnersStay(sw: State, r: State)
    requires Wellformed(sw) && NoneStranded(sw) && |r.pm.owners| == |r.pm.states| == |sw.pm.states|
    requires forall i :: 0 <= i < |r.pm.states| && Is(r.pm, i, InProgress) ==>
               (Is(sw.pm, i, InProgress) && r.pm.owners[i] == sw.pm.owners[i] && KeepsHolders(sw, r, i)) || HeldByOwner(r, i)
    ensures NoneStranded(r)
  {
  }

  ghost predicate KeepsHolders(sw: State, r: State, i: nat) {
    forall w: nat :: Holds(sw, w, i) ==> Holds(r, w, i) && r.workers[w].addr == sw.workers[w].addr
  }

  lemma TakeKeeps(sw: State, s: Step)
    requires Inv(sw) && s.Take? && Enabled(sw, s)
    ensures Inv(Next(sw, s))
  {
    hide PMInv, HasPiece, HeldByOwner;
    ShapeOf(sw.pm);
    var a := sw.workers[s.w].addr;
    AssignedInv(sw.pm, a, sw.workers[s.w].bf, s.choice);
    var p := if s.choice.Some? then Got(s.choice.value) else Idle;
    var mid := sw.(pm := Assigned(sw.pm, a, s.choice));
    SameHands(mid, s.w, p);
    HandsOnly(sw, Assigned(sw.pm, a, s.choice));
    var r := Next(sw, s);
    if s.choice.Some? && sw.pm.states[s.choice.value].Pending? {
      assert Holds(r, s.w, s.choice.value) && r.workers[s.w].addr == r.pm.owners[s.choice.value];
      OwnerHolds(r, s.w, s.choice.value);
    }
    OwnersStay(sw, r);
  }

  lemma OwnerHolds(sw: State, w: nat, i: nat)
    requires |sw.pm.owners| == |sw.pm.states| && i < |sw.pm.states|
    requires Holds(sw, w, i) && sw.workers[w].addr == sw.pm.owners[i]
    ensures HeldByOwner(sw, i)
  {
  }

  /** A message changes what a worker can ask for, and at most wakes it. */
  lemma MessageKeeps(sw: State, s: Step)
    requires Inv(sw) && Enabled(sw, s) && (s.Have? || s.Announce?)
    ensures Inv(Next(sw, s))
  {
    hide PMInv, HasPiece, HeldByOwner, PendingFor;
    ShapeOf(sw.pm);
    var r := Next(sw, s);
    assert forall x: nat, i: nat :: Holds(r, x, i) <==> Holds(sw, x, i);
    OwnersStay(sw, r);
  }

  /** A worker that keeps its piece, or had none, and leaves the manager alone. */
  lemma MoveKeeps(sw: State, s: Step)
    requires Inv(sw) && Enabled(sw, s)
    requires s.CheckEndgame? || s.Arrive? || s.Fail?
    ensures Inv(Next(sw, s))
  {
    hide PMInv, HasPiece, HeldByOwner;
    ShapeOf(sw.pm);
    var p := sw.workers[s.w].phase;
    assert Holding(p).Some? ==> Holds(sw, s.w, Holding(p).value);
    var r := Next(sw, s);
    SameHands(sw, s.w, r.workers[s.w].phase);
    OwnersStay(sw, r);
  }

  /** A worker without a piece that waits, wakes or gives up. */
  lemma EmptyHandedKeeps(sw: State, s: Step)
    requires Inv(sw) && Enabled(sw, s) && (s.Look? || s.Wake? || s.Quit?)
    ensures Inv(Next(sw, s))
  {
    hide PMInv, HasPiece, HeldByOwner, AllComplete;
    ShapeOf(sw.pm);
    var r := Next(sw, s);
    assert forall x: nat, i: nat :: Holds(r, x, i) <==> Holds(sw, x, i);
    OwnersStay(sw, r);
  }

  lemma WatchKeeps(sw: State, s: Step)
    requires Inv(sw) && Enabled(sw, s) && s.Watch?
    ensures Inv(Next(sw, s))
  {
    hide PMInv, HasPiece, HeldByOwner;
    ShapeOf(sw.pm);
    var i := sw.workers[s.w].phase.piece;
    assert Holds(sw, s.w, i);
    WithChannelInv(sw.pm, i);
    var pm := WithChannel(sw.pm, i);
    assert forall c :: 0 <= c < |sw.pm.made| ==> c < |pm.made| && pm.made[c] == sw.pm.made[c];
    var r := Next(sw, s);
    SameHands(sw.(pm := pm), s.w, r.workers[s.w].phase);
    HandsOnly(sw, pm);
    OwnersStay(sw, r);
  }

  /** A closed channel is only ever seen by workers whose piece is complete. */
  lemma CancelledIsComplete(sw: State, w: nat)
    requires Inv(sw) && w in sw.workers && SeesClosed(sw, sw.workers[w].phase)
    ensures Is(sw.pm, sw.workers[w].phase.piece, Completed)
  {
  }

  lemma CancelKeeps(sw: State, s: Step)
    requires Inv(sw) && Enabled(sw, s) && s.Cancel?
    ensures Inv(Next(sw, s))
  {
    hide PMInv, HasPiece, HeldByOwner;
    CancelledIsComplete(sw, s.w);
    assert Holds(sw, s.w, sw.workers[s.w].phase.piece);
    SameHands(sw, s.w, Loop);
    OwnersStay(sw, Next(sw, s));
  }

  lemma CompleteKeeps(sw: State, s: Step)
    requires Inv(sw) && Enabled(sw, s) && s.Complete?
    ensures Inv(Next(sw, s))
  {
    hide PMInv, HasPiece, HeldByOwner;
    ShapeOf(sw.pm);
    var i := sw.workers[s.w].phase.piece;
    assert Holds(sw, s.w, i);
    FinishedInv(sw.pm, i);
    SameHands(sw.(pm := Finished(sw.pm, i)), s.w, Loop);
    HandsOnly(sw, Finished(sw.pm, i));
    OwnersStay(sw, Next(sw, s));
  }

  lemma ReleaseKeeps(sw: State, s: Step)
    requires Inv(sw) && Enabled(sw, s) && s.Release?
    ensures Inv(Next(sw, s))
  {
    hide PMInv, HasPiece, HeldByOwner;
    ShapeOf(sw.pm);
    var i := sw.workers[s.w].phase.piece;
    assert Holds(sw, s.w, i);
    ReleasedInv(sw.pm, i);
    SameHands(sw.(pm := Released(sw.pm, i)), s.w, Loop);
    HandsOnly(sw, Released(sw.pm, i));
    OwnersStay(sw, Next(sw, s));
  }

  lemma CleanupKeeps(sw: State, s: Step)
    requires Inv(sw) && Enabled(sw, s) && s.Cleanup?
    ensures Inv(Next(sw, s))
  {
    hide PMInv, HasPiece, HeldByOwner;
    ShapeOf(sw.pm);
    ReleasedAllInv(sw.pm, sw.workers[s.w].addr);
    var r := Next(sw, s);
    assert forall x: nat, i: nat :: Holds(r, x, i) <==> x != s.w && Holds(sw, x, i);
    assert forall i: nat :: !Holds(sw, s.w, i);
    OwnersStay(sw, r);
  }

  lemma StepKeepsInv(sw: State, s: Step)
    requires Inv(sw) && Enabled(sw, s)
    ensures Inv(Next(sw, s))
  {
    hide Inv, Enabled, Next, Wellformed;
    match s {
      case Join(_, _, _) => JoinKeeps(sw, s);
      case Take(_, _) => TakeKeeps(sw, s);
      case Have(_, _) => MessageKeeps(sw, s);
      case Announce(_, _) => MessageKeeps(sw, s);
      case Look(_) => EmptyHandedKeeps(sw, s);
      case Wake(_) => EmptyHandedKeeps(sw, s);
      case Quit(_) => EmptyHandedKeeps(sw, s);
      case Watch(_) => WatchKeeps(sw, s);
      case Cancel(_) => CancelKeeps(sw, s);
      case Complete(_) => CompleteKeeps(sw, s);
      case Release(_) => ReleaseKeeps(sw, s);
      case Cleanup(_) => CleanupKeeps(sw, s);
      case _ => MoveKeeps(sw, s);
    }
  }

  // ----- Runs -----

  /** A new piece manager, possibly resuming, and no workers yet. */
  ghost function Initial(n: nat, threshold: int, present: Option<seq<bool>>): (sw: State)
    requires present.Some? ==> |present.value| == n
    ensures Inv(sw)
  {
    FreshInv(n, threshold, present);
    State(Fresh(n, threshold, present), map[])
  }

  /** A step that is not possible where it stands is skipped. */
  ghost function Taken(sw: State, s: Step): (r: State)
    requires Inv(sw)
    ensures Inv(r)
  {
    if Enabled(sw, s) then (StepKeepsInv(sw, s); Next(sw, s)) else sw
  }

  ghost function Exec(sw: State, run: seq<Step>): (r: State)
    requires Inv(sw)
    ensures Inv(r)
    decreases |run|
  {
    if run == [] then sw else Exec(Taken(sw, run[0]), run[1..])
  }

  lemma {:induction false} ExecJoined(sw: State, a: seq<Step>, b: seq<Step>)
    requires Inv(sw)
    ensures Exec(sw, a + b) == Exec(Exec(sw, a), b)
    decreases |a|
  {
    hide Inv, Taken;
    if a == [] {
      assert a + b == b;
    } else {
      ExecJoined(Taken(sw, a[0]), a[1..], b);
      assert (a + b)[1..] == a[1..] + b;
    }
  }

  lemma ExecOne(sw: State, s: Step)
    requires Inv(sw)
    ensures Exec(sw, [s]) == Taken(sw, s)
  {
    hide Inv, Taken;
    assert [s][1..] == [];
  }

  /** One step further along a run. */
  lemma ExecNext(sw: State, run: seq<Step>, k: nat)
    requires Inv(sw) && k < |run|
    ensures Exec(sw, run[..k + 1]) == Taken(Exec(sw, run[..k]), run[k])
  {
    hide Inv, Taken, Exec;
    assert run[..k + 1] == run[..k] + [run[k]];
    ExecJoined(sw, run[..k], [run[k]]);
    ExecOne(Exec(sw, run[..k]), run[k]);
  }

  /**
   * No stranded piece, in every interleaving, with endgame duplicates and with shared addresses: a piece in progress is
   * in the hand of a live worker at the address that owns it; a cancel channel seen closed belongs to a completed piece;
   * and once all workers are gone nothing is in progress.
   */
  lemma EveryRun(n: nat, threshold: int, present: Option<seq<bool>>, run: seq<Step>)
    requires present.Some? ==> |present.value| == n
    ensures var sw := Exec(Initial(n, threshold, present), run);
            && PMInv(sw.pm)
            && (forall i :: 0 <= i < |sw.pm.states| && Is(sw.pm, i, InProgress) ==> HeldByOwner(sw, i))
            && (forall w :: w in sw.workers && SeesClosed(sw, sw.workers[w].phase) ==>
                  Is(sw.pm, sw.workers[w].phase.piece, Completed))
            && (sw.workers == map[] ==> forall i :: 0 <= i < |sw.pm.states| ==> !Is(sw.pm, i, InProgress))
  {
    hide PMInv, Exec;
    var sw := Exec(Initial(n, threshold, present), run);
    forall w | w in sw.workers && SeesClosed(sw, sw.workers[w].phase)
      ensures Is(sw.pm, sw.workers[w].phase.piece, Completed)
    {
      CancelledIsComplete(sw, w);
    }
    if sw.workers == map[] {
      forall i | 0 <= i < |sw.pm.states| ensures !Is(sw.pm, i, InProgress) {
        assert !HeldByOwner(sw, i);
      }
    }
  }

  // ----- What is never taken back -----

  ghost predicate Forward(pm: PM, r: PM, i: nat) {
    && (Is(pm, i, Completed) ==> Is(r, i, Completed))
    && (pm.endgame ==> r.endgame)
    && pm.completed <= r.completed && |r.states| == |pm.states| && r.threshold == pm.threshold
    && pm.closed <= r.closed && pm.doneCloses <= r.doneCloses
  }

  lemma OperationsForward(pm: PM, i: nat, k: nat)
    requires |pm.owners| == |pm.states| && k < |pm.states|
    ensures Forward(pm, Finished(pm, k), i) && Forward(pm, Released(pm, k), i) && Forward(pm, WithChannel(pm, k), i)
  {
  }

  lemma AssignForward(pm: PM, i: nat, a: string, bf: seq<bv8>, choice: Option<nat>)
    requires |pm.owners| == |pm.states| && Choosable(pm, a, bf, choice)
    ensures Forward(pm, Assigned(pm, a, choice), i)
  {
    hide HasPiece;
  }

  lemma ReleaseAllForward(pm: PM, i: nat, a: string)
    requires |pm.owners| == |pm.states|
    ensures Forward(pm, ReleasedAll(pm, a), i)
  {
  }

  lemma StepForward(sw: State, s: Step, i: nat)
    requires Inv(sw)
    ensures Forward(sw.pm, Taken(sw, s).pm, i)
  {
    hide Forward, PMInv, Choosable, Assigned, Finished, Released, ReleasedAll, WithChannel;
    ShapeOf(sw.pm);
    if Enabled(sw, s) && !s.Join? {
      var p := sw.workers[s.w].phase;
      assert Holding(p).Some? ==> Holds(sw, s.w, Holding(p).value);
      if Holding(p).Some? { OperationsForward(sw.pm, i, Holding(p).value); }
      if s.Take? { AssignForward(sw.pm, i, sw.workers[s.w].addr, sw.workers[s.w].bf, s.choice); }
      ReleaseAllForward(sw.pm, i, sw.workers[s.w].addr);
    }
    Stay(sw.pm, i);
  }

  lemma Stay(pm: PM, i: nat)
    ensures Forward(pm, pm, i)
  {
  }

  /** Completed is for ever, and so is endgame; `done` and the cancel channels stay closed. */
  lemma {:induction false} OnlyForward(sw: State, run: seq<Step>, i: nat)
    requires Inv(sw)
    ensures Forward(sw.pm, Exec(sw, run).pm, i)
    decreases |run|
  {
    hide Inv, Taken;
    if run == [] {
      Stay(sw.pm, i);
    } else {
      StepForward(sw, run[0], i);
      OnlyForward(Taken(sw, run[0]), run[1..], i);
    }
  }

  /** For a non-empty torrent `done` is closed exactly when everything is complete, and then exactly once. */
  lemma DoneExactlyOnce(sw: State, run: seq<Step>)
    requires Inv(sw) && sw.pm.states != []
    ensures var r := Exec(sw, run).pm;
            && r.completed == CountCompleted(r.states)
            && (if forall i :: 0 <= i < |r.states| ==> r.states[i].Completed? then r.doneCloses == 1 else r.doneCloses == 0)
  {
    OnlyForward(sw, run, 0);
    CountFull(Exec(sw, run).pm.states);
  }

  // ----- A torrent with one piece, without endgame -----

  function OnePiece(state: PieceState, owner: string): PM {
    PM([state], [owner], 0, 0, false, map[], [], {}, 0)
  }

  /** The bitfield of a peer that has the piece. */
  const HAS_IT: seq<bv8> := [0x80]

  lemma HasIt()
    ensures HasPiece(HAS_IT, 0)
  {
    assert Quo8(0) == 0 && Rem8(0) == 0;
    assert Flag(0) == 0x80;
  }

  lemma FreshOne()
    ensures Initial(1, 0, None).pm == OnePiece(Pending, "") && Initial(1, 0, None).workers == map[]
  {
    var pm := Fresh(1, 0, None);
    assert pm.states == [Pending] && pm.owners == [""];
    assert CountCompleted([Pending]) == 0;
  }

  lemma Joins(sw: State, w: nat, addr: string)
    requires Inv(sw) && w !in sw.workers && addr != ""
    ensures Taken(sw, Join(w, addr, HAS_IT)) == sw.(workers := sw.workers[w := Worker(addr, HAS_IT, Loop)])
  {
    hide HAS_IT;
  }

  /** The free worker takes the one piece. */
  lemma TakesIt(sw: State, w: nat)
    requires Inv(sw) && w in sw.workers && sw.workers[w].phase.Loop? && sw.workers[w].bf == HAS_IT
    requires sw.pm == OnePiece(Pending, "")
    ensures var a := sw.workers[w].addr;
            Taken(sw, Take(w, Some(0))) == State(OnePiece(InProgress, a), sw.workers[w := Worker(a, HAS_IT, Got(0))])
  {
    hide HasPiece, PMInv, NoneStranded, WatchersRight, HAS_IT;
    HasIt();
    var s := Take(w, Some(0));
    assert Is(sw.pm, 0, Pending);
    assert Enabled(sw, s);
    assert [Pending][0 := InProgress] == [InProgress] && [""][0 := sw.workers[w].addr] == [sw.workers[w].addr];
  }

  lemma Quits(sw: State, w: nat)
    requires Inv(sw) && w in sw.workers && sw.workers[w].phase.Loop?
    ensures Taken(sw, Quit(w)) == At(sw, w, Leaving)
  {
  }

  lemma CleansUp(sw: State, w: nat)
    requires Inv(sw) && w in sw.workers && sw.workers[w].phase.Leaving?
    requires sw.pm == OnePiece(InProgress, sw.workers[w].addr) || sw.pm == OnePiece(Pending, "")
    ensures Taken(sw, Cleanup(w)) == State(OnePiece(Pending, ""), sw.workers - {w})
  {
    hide PMInv, NoneStranded, WatchersRight;
    var r := ReleasedAll(sw.pm, sw.workers[w].addr);
    assert r.states == [Pending] && r.owners == [""];
  }
}
