/**
 * internal/downloader/piece_manager.go on values: who fetches which piece. Channels are numbered in the order they are
 * made; `made[c]` is the piece channel `c` was made for.
 */
module Pieces {
  import opened Bytes
  import opened BitFields

  datatype PieceState = Pending | InProgress | Completed

  /** `owners` holds "" where there is no owner; `doneCloses` counts the closings of the `done` channel. */
  datatype PM = PM(states: seq<PieceState>, owners: seq<string>, completed: nat, threshold: int, endgame: bool,
                   chans: map<nat, nat>, made: seq<nat>, closed: set<nat>, doneCloses: nat)

  function CountCompleted(states: seq<PieceState>): (c: nat)
    ensures c <= |states|
  {
    if states == [] then 0
    else CountCompleted(states[..|states| - 1]) + if states[|states| - 1].Completed? then 1 else 0
  }

  predicate Is(pm: PM, i: nat, s: PieceState) {
    i < |pm.states| && pm.states[i] == s
  }

  predicate EndgameNow(pm: PM) {
    pm.threshold > 0 && |pm.states| - pm.completed <= pm.threshold
  }

  ghost predicate ChannelsInv(pm: PM) {
    && (forall i :: i in pm.chans ==> pm.chans[i] < |pm.made| && pm.made[pm.chans[i]] == i && pm.chans[i] !in pm.closed)
    && (forall c :: c in pm.closed ==> c < |pm.made| && Is(pm, pm.made[c], Completed))
  }

  /**
   * What every operation keeps: the counter is the number of completed pieces, only pieces in progress have owners,
   * `done` is closed once if all pieces of a non-empty torrent are complete and not at all before, endgame stays on, and
   * a closed cancel channel belongs to a completed piece and is not used again.
   */
  ghost predicate PMInv(pm: PM) {
    && |pm.owners| == |pm.states|
    && pm.completed == CountCompleted(pm.states)
    && (forall i :: 0 <= i < |pm.states| && !pm.states[i].InProgress? ==> pm.owners[i] == "")
    && (pm.states != [] ==> pm.doneCloses == if pm.completed == |pm.states| then 1 else 0)
    && (pm.endgame ==> EndgameNow(pm))
    && ChannelsInv(pm)
  }

  // ----- Operations -----

  function Fresh(n: nat, threshold: int, present: Option<seq<bool>>): (pm: PM)
    requires present.Some? ==> |present.value| == n
    ensures |pm.states| == n
  {
    var states := seq(n, i requires 0 <= i < n => if present.Some? && present.value[i] then Completed else Pending);
    var completed := CountCompleted(states);
    PM(states, seq(n, _ => ""), completed, threshold, false, map[], [], {},
       if present.Some? && completed == n then 1 else 0)
  }

  /** Pending, or in endgame being fetched by somebody else. */
  predicate CanTake(pm: PM, addr: string, bf: seq<bv8>, i: nat)
    requires |pm.owners| == |pm.states|
  {
    HasPiece(bf, i) && (Is(pm, i, Pending) || (EndgameNow(pm) && Is(pm, i, InProgress) && pm.owners[i] != addr))
  }

  /** Pending pieces are preferred; nothing is assigned only if there is nothing to assign. */
  ghost predicate Choosable(pm: PM, addr: string, bf: seq<bv8>, choice: Option<nat>)
    requires |pm.owners| == |pm.states|
  {
    match choice
    case None => forall i :: 0 <= i < |pm.states| ==> !CanTake(pm, addr, bf, i)
    case Some(i) =>
      && CanTake(pm, addr, bf, i)
      && (Is(pm, i, Pending) || forall j :: 0 <= j < |pm.states| ==> !(HasPiece(bf, j) && Is(pm, j, Pending)))
  }

  /** Some pending piece is one the peer has. */
  ghost predicate PendingFor(pm: PM, bf: seq<bv8>) {
    exists i: nat :: Is(pm, i, Pending) && HasPiece(bf, i)
  }

  function Assigned(pm: PM, addr: string, choice: Option<nat>): PM
    requires |pm.owners| == |pm.states| && (choice.Some? ==> choice.value < |pm.states|)
  {
    var e := pm.(endgame := pm.endgame || EndgameNow(pm));
    if choice.Some? && pm.states[choice.value].Pending?
    then e.(states := pm.states[choice.value := InProgress], owners := pm.owners[choice.value := addr])
    else e
  }

  function ChannelOf(pm: PM, i: nat): nat {
    if i in pm.chans then pm.chans[i] else |pm.made|
  }

  function WithChannel(pm: PM, i: nat): PM {
    if i in pm.chans then pm else pm.(chans := pm.chans[i := |pm.made|], made := pm.made + [i])
  }

  function Finished(pm: PM, i: nat): PM
    requires |pm.owners| == |pm.states| && i < |pm.states|
  {
    if pm.states[i].Completed? then pm
    else
      pm.(states := pm.states[i := Completed], owners := pm.owners[i := ""], completed := pm.completed + 1,
          closed := if i in pm.chans then pm.closed + {pm.chans[i]} else pm.closed, chans := pm.chans - {i},
          doneCloses := pm.doneCloses + if pm.completed + 1 == |pm.states| then 1 else 0)
  }

  function Released(pm: PM, i: nat): PM
    requires |pm.owners| == |pm.states| && i < |pm.states|
  {
    if pm.states[i].InProgress? then pm.(states := pm.states[i := Pending], owners := pm.owners[i := ""]) else pm
  }

  predicate OwnedBy(pm: PM, addr: string, i: nat)
    requires |pm.owners| == |pm.states|
  {
    i < |pm.states| && pm.owners[i] == addr && pm.states[i].InProgress?
  }

  function ReleasedAll(pm: PM, addr: string): (r: PM)
    requires |pm.owners| == |pm.states|
  {
    var n := |pm.states|;
    pm.(states := seq(n, i requires 0 <= i < n => if OwnedBy(pm, addr, i) then Pending else pm.states[i]),
        owners := seq(n, i requires 0 <= i < n => if OwnedBy(pm, addr, i) then "" else pm.owners[i]))
  }

  // ----- What the operations keep -----

  lemma {:induction false} CountUpdate(states: seq<PieceState>, i: nat, s: PieceState)
    requires i < |states|
    ensures CountCompleted(states[i := s])
         == CountCompleted(states) - (if states[i].Completed? then 1 else 0) + (if s.Completed? then 1 else 0)
  {
    var k := |states| - 1;
    var after := states[i := s];
    if i == k {
      assert after[..k] == states[..k];
    } else {
      assert after[..k] == states[..k][i := s];
      CountUpdate(states[..k], i, s);
    }
  }

  lemma {:induction false} CountSame(a: seq<PieceState>, b: seq<PieceState>)
    requires |a| == |b| && forall i :: 0 <= i < |a| ==> (a[i].Completed? <==> b[i].Completed?)
    ensures CountCompleted(a) == CountCompleted(b)
  {
    if a != [] { CountSame(a[..|a| - 1], b[..|b| - 1]); }
  }

  /** All pieces are complete exactly if the count says so. */
  lemma {:induction false} CountFull(states: seq<PieceState>)
    ensures CountCompleted(states) == |states| <==> forall i :: 0 <= i < |states| ==> states[i].Completed?
  {
    if states != [] {
      var k := |states| - 1;
      CountFull(states[..k]);
      assert forall i :: 0 <= i < k ==> states[..k][i] == states[i];
    }
  }

  lemma FreshInv(n: nat, threshold: int, present: Option<seq<bool>>)
    requires present.Some? ==> |present.value| == n
    ensures PMInv(Fresh(n, threshold, present))
  {
    var pm := Fresh(n, threshold, present);
    CountFull(pm.states);
    if n > 0 && present.None? {
      assert pm.states[0].Pending?;
    }
  }

  lemma AssignedInv(pm: PM, addr: string, bf: seq<bv8>, choice: Option<nat>)
    requires PMInv(pm) && Choosable(pm, addr, bf, choice)
    ensures PMInv(Assigned(pm, addr, choice))
  {
    hide HasPiece;
    if choice.Some? && pm.states[choice.value].Pending? {
      CountUpdate(pm.states, choice.value, InProgress);
    }
  }

  lemma WithChannelInv(pm: PM, i: nat)
    requires PMInv(pm)
    ensures PMInv(WithChannel(pm, i))
    ensures ChannelOf(pm, i) < |WithChannel(pm, i).made| && WithChannel(pm, i).made[ChannelOf(pm, i)] == i
  {
    hide CountCompleted;
    var r := WithChannel(pm, i);
    assert |pm.made| !in pm.closed;
    assert forall c :: 0 <= c < |pm.made| ==> r.made[c] == pm.made[c];
  }

  lemma FinishedInv(pm: PM, i: nat)
    requires PMInv(pm) && i < |pm.states|
    ensures PMInv(Finished(pm, i))
  {
    if !pm.states[i].Completed? {
      CountUpdate(pm.states, i, Completed);
      CountFull(pm.states);
    }
  }

  lemma ReleasedInv(pm: PM, i: nat)
    requires PMInv(pm) && i < |pm.states|
    ensures PMInv(Released(pm, i))
  {
    if pm.states[i].InProgress? {
      CountUpdate(pm.states, i, Pending);
    }
  }

  lemma ReleasedAllInv(pm: PM, addr: string)
    requires PMInv(pm)
    ensures PMInv(ReleasedAll(pm, addr))
  {
    CountSame(pm.states, ReleasedAll(pm, addr).states);
  }

  /** Nobody's pieces: nothing to release. */
  lemma NothingToRelease(pm: PM, addr: string)
    requires |pm.owners| == |pm.states| && forall i :: 0 <= i < |pm.states| ==> !OwnedBy(pm, addr, i)
    ensures ReleasedAll(pm, addr) == pm
  {
    assert ReleasedAll(pm, addr).states == pm.states;
    assert ReleasedAll(pm, addr).owners == pm.owners;
  }
}
