/**
 * What one call does to the piece manager (internal/downloader/piece_manager.go:51-225), piece by piece. Nothing here
 * refers to how the operations are defined.
 */
module PieceSteps {
  import opened Bytes
  import opened BitFields
  import opened Pieces

  ghost function Incomplete(states: seq<PieceState>): set<nat> {
    set i: nat | i < |states| && !states[i].Completed?
  }

  lemma {:induction false} IncompleteSize(states: seq<PieceState>)
    ensures |Incomplete(states)| == |states| - CountCompleted(states)
  {
    if states == [] {
      assert Incomplete(states) == {};
    } else {
      var n := |states| - 1;
      IncompleteSize(states[..n]);
      assert Incomplete(states) == Incomplete(states[..n]) + if states[n].Completed? then {} else {n};
    }
  }

  /** What `Assign` does not touch. */
  ghost predicate SameChannels(before: PM, after: PM) {
    && after.chans == before.chans && after.made == before.made && after.closed == before.closed
    && after.doneCloses == before.doneCloses && after.threshold == before.threshold && after.completed == before.completed
  }

  /**
   * Endgame begins when no more pieces than the threshold are incomplete. A pending piece of the peer is handed out and
   * owned from then on; only if there is none, and in endgame, one in progress under another address is handed out as
   * well; and nothing is handed out only if there is nothing of either kind.
   */
  ghost predicate Handed(before: PM, after: PM, addr: string, bf: seq<bv8>, r: Option<nat>)
    requires |before.owners| == |before.states|
  {
    var n := |before.states|;
    var few := 0 < before.threshold && |Incomplete(before.states)| <= before.threshold;
    var pending := exists j :: 0 <= j < n && before.states[j].Pending? && HasPiece(bf, j);
    && SameChannels(before, after)
    && (after.endgame <==> before.endgame || few)
    && (r.None? ==>
          && after.states == before.states && after.owners == before.owners && !pending
          && forall j :: 0 <= j < n && few && HasPiece(bf, j) && before.states[j].InProgress? ==> before.owners[j] == addr)
    && (r.Some? ==>
          var i := r.value;
          && i < n && HasPiece(bf, i)
          && (if pending then
                && before.states[i].Pending?
                && after.states == before.states[i := InProgress] && after.owners == before.owners[i := addr]
              else
                && few && before.states[i].InProgress? && before.owners[i] != addr
                && after.states == before.states && after.owners == before.owners))
  }

  lemma HandedOut(pm: PM, addr: string, bf: seq<bv8>, r: Option<nat>)
    requires PMInv(pm) && Choosable(pm, addr, bf, r)
    ensures r.Some? ==> r.value < |pm.states|
    ensures Handed(pm, Assigned(pm, addr, r), addr, bf, r)
  {
    hide HasPiece, CountCompleted, ChannelsInv;
    IncompleteSize(pm.states);
    forall j | 0 <= j < |pm.states| && HasPiece(bf, j) && r.None?
      ensures !pm.states[j].Pending? && (EndgameNow(pm) && pm.states[j].InProgress? ==> pm.owners[j] == addr)
    {
      assert !CanTake(pm, addr, bf, j);
    }
    if r.Some? && !pm.states[r.value].Pending? {
      assert forall j :: 0 <= j < |pm.states| ==> !(HasPiece(bf, j) && Is(pm, j, Pending));
    }
  }

  /** The channel of a piece, made if there is none. */
  ghost predicate Watched(before: PM, after: PM, i: nat, ch: nat) {
    && after.states == before.states && after.owners == before.owners && after.completed == before.completed
    && after.threshold == before.threshold && after.endgame == before.endgame
    && after.closed == before.closed && after.doneCloses == before.doneCloses
    && (if i in before.chans then
          ch == before.chans[i] && after.chans == before.chans && after.made == before.made
        else ch == |before.made| && after.made == before.made + [i] && after.chans == before.chans[i := ch])
  }

  lemma ChannelMeans(pm: PM, i: nat)
    ensures Watched(pm, WithChannel(pm, i), i, ChannelOf(pm, i))
  {
  }

  /**
   * The piece is complete and owned by nobody, its channel is closed and forgotten, and with no piece left to complete
   * `done` is closed; a piece that was complete before changes nothing.
   */
  ghost predicate Done(before: PM, after: PM, i: nat)
    requires |before.owners| == |before.states| && i < |before.states|
  {
    if before.states[i].Completed? then after == before
    else
      && after.states == before.states[i := Completed] && after.owners == before.owners[i := ""]
      && after.completed == before.completed + 1 && after.threshold == before.threshold && after.endgame == before.endgame
      && after.made == before.made && after.chans == (map c | c in before.chans && c != i :: before.chans[c])
      && after.closed == before.closed + (if i in before.chans then {before.chans[i]} else {})
      && after.doneCloses == before.doneCloses + if Incomplete(after.states) == {} then 1 else 0
  }

  lemma Counted(pm: PM)
    requires PMInv(pm)
    ensures |pm.owners| == |pm.states| && pm.completed == CountCompleted(pm.states)
  {
    hide CountCompleted;
  }

  lemma NoneIncomplete(pm: PM)
    requires PMInv(pm)
    ensures Incomplete(pm.states) == {} <==> pm.completed == |pm.states|
  {
    hide CountCompleted, Incomplete, ChannelsInv;
    IncompleteSize(pm.states);
    assert |Incomplete(pm.states)| == 0 <==> Incomplete(pm.states) == {};
  }

  lemma CompletionMeans(pm: PM, i: nat)
    requires PMInv(pm) && i < |pm.states|
    ensures Done(pm, Finished(pm, i), i)
  {
    hide CountCompleted, ChannelsInv, PMInv, Incomplete;
    Counted(pm);
    FinishedInv(pm, i);
    var after := Finished(pm, i);
    NoneIncomplete(after);
    assert pm.chans - {i} == (map c | c in pm.chans && c != i :: pm.chans[c]);
  }

  /** A piece in progress becomes pending and owned by nobody; any other is left alone. */
  ghost predicate GivenBack(before: PM, after: PM, i: nat)
    requires |before.owners| == |before.states| && i < |before.states|
  {
    && SameChannels(before, after) && after.endgame == before.endgame
    && after.states == (if before.states[i] == InProgress then before.states[i := Pending] else before.states)
    && after.owners == (if before.states[i] == InProgress then before.owners[i := ""] else before.owners)
  }

  lemma ReleaseMeans(pm: PM, i: nat)
    requires |pm.owners| == |pm.states| && i < |pm.states|
    ensures GivenBack(pm, Released(pm, i), i)
  {
  }

  /** Exactly the pieces in progress under the address become pending and owned by nobody. */
  ghost predicate GivenBackBy(before: PM, after: PM, addr: string)
    requires |before.owners| == |before.states|
  {
    && SameChannels(before, after) && after.endgame == before.endgame
    && |after.states| == |before.states| == |after.owners|
    && forall i :: 0 <= i < |before.states| ==>
         var given := before.states[i] == InProgress && before.owners[i] == addr;
         && after.states[i] == (if given then Pending else before.states[i])
         && after.owners[i] == (if given then "" else before.owners[i])
  }

  lemma ReleaseAllMeans(pm: PM, addr: string)
    requires |pm.owners| == |pm.states|
    ensures GivenBackBy(pm, ReleasedAll(pm, addr), addr)
  {
  }

  /** Present pieces are complete and all others pending, nobody owns any, and no channel has been made. */
  ghost predicate Started(pm: PM, n: nat, threshold: int, present: Option<seq<bool>>)
    requires present.Some? ==> |present.value| == n
  {
    && |pm.states| == |pm.owners| == n && pm.threshold == threshold && !pm.endgame
    && (forall i :: 0 <= i < n ==> pm.states[i] == if present.Some? && present.value[i] then Completed else Pending)
    && (forall i :: 0 <= i < n ==> pm.owners[i] == "")
    && pm.completed + |Incomplete(pm.states)| == n
    && pm.chans == map[] && pm.made == [] && pm.closed == {}
    && pm.doneCloses == if present.Some? && Incomplete(pm.states) == {} then 1 else 0
  }

  lemma FreshMeans(n: nat, threshold: int, present: Option<seq<bool>>)
    requires present.Some? ==> |present.value| == n
    ensures Started(Fresh(n, threshold, present), n, threshold, present)
  {
    hide CountCompleted;
    var pm := Fresh(n, threshold, present);
    IncompleteSize(pm.states);
    assert |Incomplete(pm.states)| == 0 <==> Incomplete(pm.states) == {};
  }
}
