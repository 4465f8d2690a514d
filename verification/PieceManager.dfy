/** internal/downloader/piece_manager.go: the piece manager as the object it is, one method per locked region. */
module PieceManagers {
  import opened Bytes
  import opened BitFields
  import opened Selectors
  import opened DiskMachine
  import opened DiskStores
  import opened Pieces
  import opened PieceSteps

  /** The bytes first given for each piece, those in memory, and what the disk store has. */
  datatype Contents = Contents(first: map<nat, Data>, data: seq<Option<Data>>, bits: seq<bool>, files: seq<File>)

  /** Piece `i` is kept, in memory or on disk, with the bytes first given for it. */
  predicate Kept(c: Contents, i: nat) {
    i in c.first && i < |c.data| &&
    (c.data[i] == Some(c.first[i]) ||
     (c.data[i] == None && i < |c.bits| && c.bits[i] && i < |c.files| && c.files[i] == Whole(c.first[i])))
  }

  predicate Absent(c: Contents, i: nat) {
    i !in c.first && i < |c.data| && c.data[i] == None && !(i < |c.bits| && c.bits[i])
  }

  /** Exactly the completed pieces are kept, except the damaged ones, and only those are marked as on disk. */
  ghost predicate AllKept(states: seq<PieceState>, c: Contents, damaged: set<nat>) {
    forall i :: 0 <= i < |states| ==> if states[i].Completed? then i in damaged || Kept(c, i) else Absent(c, i)
  }

  lemma KeptAfterComplete(states: seq<PieceState>, c: Contents, r: Contents, damaged: set<nat>, i: nat, payload: Data)
    requires i < |states| && !states[i].Completed? && AllKept(states, c, damaged)
    requires r.first == c.first[i := payload] && Kept(r, i)
    requires |r.data| == |c.data| && |r.bits| == |c.bits| && |r.files| == |c.files|
    requires forall k :: 0 <= k < |c.data| && k != i ==> r.data[k] == c.data[k]
    requires forall k :: 0 <= k < |c.bits| && k != i ==> r.bits[k] == c.bits[k]
    requires forall k :: 0 <= k < |c.files| && k != i ==> r.files[k] == c.files[k]
    ensures AllKept(states[i := PieceState.Completed], r, damaged)
  {
  }

  lemma InMemory(c: Contents, i: nat)
    requires i in c.first && i < |c.data| && c.data[i] == Some(c.first[i])
    ensures Kept(c, i)
  {
  }

  lemma AlreadyFinished(pm: PM, i: nat)
    requires |pm.owners| == |pm.states| && i < |pm.states| && pm.states[i].Completed?
    ensures Finished(pm, i) == pm
  {
  }

  lemma FinishedIs(pm: PM, r: PM, i: nat)
    requires |pm.owners| == |pm.states| && i < |pm.states| && !pm.states[i].Completed?
    requires r.states == pm.states[i := PieceState.Completed] && r.owners == pm.owners[i := ""]
    requires r.completed == pm.completed + 1 && r.threshold == pm.threshold && r.endgame == pm.endgame && r.made == pm.made
    requires r.chans == pm.chans - {i} && r.closed == if i in pm.chans then pm.closed + {pm.chans[i]} else pm.closed
    requires r.doneCloses == pm.doneCloses + if pm.completed + 1 == |pm.states| then 1 else 0
    ensures r == Finished(pm, i)
  {
  }

  lemma AbsentHere(states: seq<PieceState>, c: Contents, damaged: set<nat>, i: nat)
    requires AllKept(states, c, damaged) && i < |states| && !states[i].Completed?
    ensures i < |c.data| && !(i < |c.bits| && c.bits[i])
  {
  }

  lemma KeptSameStates(states: seq<PieceState>, r: seq<PieceState>, c: Contents, damaged: set<nat>)
    requires AllKept(states, c, damaged) && |r| == |states|
    requires forall i :: 0 <= i < |states| ==> (r[i].Completed? <==> states[i].Completed?)
    ensures AllKept(r, c, damaged)
  {
    hide Kept, Absent;
  }

  class PieceManager {
    const total: nat
    const threshold: int
    const selector: Selector
    const store: DiskStore?

    var states: seq<PieceState>
    var data: seq<Option<Data>>
    var owners: seq<string>
    var availability: seq<int>
    var completed: nat
    var endgameActivated: bool
    /** Open cancel channels by piece; `channels` lists the piece of every channel ever made, `closed` the closed ones. */
    var cancelChs: map<nat, nat>
    var channels: seq<nat>
    var closed: set<nat>
    var doneCloses: nat
    /** The bytes of the first `Complete` of each completed piece, or those found on disk at the start. */
    ghost var first: map<nat, Data>
    /** The pieces that were marked on disk at the start without being a complete file of given bytes. */
    ghost var damaged: set<nat>

    ghost function View(): PM
      reads this
    {
      PM(states, owners, completed, threshold, endgameActivated, cancelChs, channels, closed, doneCloses)
    }

    ghost function Disk(): set<object> {
      if store == null then {} else {store}
    }

    /** What is known about the pieces' bytes. */
    ghost function Holdings(): Contents
      reads `data, `first, Disk()
    {
      Contents(first, data, if store == null then [] else store.bitfield, if store == null then [] else store.disk.pieces)
    }

    ghost predicate StoreValid()
      reads Disk()
    {
      store != null ==> store.Valid() && store.numPieces == total
    }

    ghost predicate Valid()
      reads this, Disk()
    {
      && PMInv(View()) && |states| == |data| == |availability| == total
      && StoreValid()
      && AllKept(states, Holdings(), damaged)
    }

    /** Resumes whatever the store marks; nothing of it is damaged if no write was ever begun to a marked piece. */
    constructor (total: nat, selector: Selector, threshold: int, store: DiskStore?)
      requires store != null ==> store.Valid() && store.numPieces == total
      ensures Valid() && this.total == total && this.threshold == threshold && this.store == store
      ensures View() == Fresh(total, threshold, if store == null then None else Some(store.bitfield))
      ensures Started(View(), total, threshold, if store == null then None else Some(store.bitfield))
      ensures damaged == if store == null then {} else Damaged(store.bitfield, Exec(total, store.log))
      ensures store != null && FirstWrites(total, store.log) && NoMarkedOverwrite(total, store.log) ==> damaged == {}
    {
      this.total := total;
      this.selector := selector;
      this.threshold := threshold;
      this.store := store;
      states := seq(total, _ => Pending);
      data := seq(total, _ => None);
      owners := seq(total, _ => "");
      availability := seq(total, _ => 0);
      completed := 0;
      endgameActivated := false;
      cancelChs := map[];
      channels := [];
      closed := {};
      doneCloses := 0;
      first := map[];
      damaged := {};
      new;
      hide Started;
      FreshMeans(total, threshold, if store == null then None else Some(store.bitfield));
      CountNone(states);
      assert View() == Fresh(total, threshold, None) by { FreshIs(View(), None); }
      FreshInv(total, threshold, None);
      if store != null {
        Resume();
      }
    }

    /** The resuming part of `NewPieceManager`. */
    method Resume()
      requires store != null && store.Valid() && store.numPieces == total
      requires View() == Fresh(total, threshold, None) && |data| == |availability| == total && first == map[]
      requires forall i :: 0 <= i < total ==> data[i] == None
      modifies `states, `completed, `doneCloses, `first, `damaged
      ensures Valid() && View() == Fresh(total, threshold, Some(store.bitfield))
      ensures damaged == Damaged(store.bitfield, Exec(total, store.log))
      ensures FirstWrites(total, store.log) && NoMarkedOverwrite(total, store.log) ==> damaged == {}
    {
      hide Exec, IsRun, FirstWrites, NoMarkedOverwrite, PMInv, CountCompleted, MemoryGood, AlwaysIntact, Intact, Fresh;
      hide DiskStore.Mirrors, Damaged;
      var bf := store.bitfield;
      FreshParts(View());
      StoreShape();
      var i := 0;
      while i < |bf|
        invariant 0 <= i <= |bf| == total == |states|
        invariant forall k :: 0 <= k < total ==> states[k] == if k < i && bf[k] then Completed else Pending
        invariant completed == CountCompleted(states)
        invariant doneCloses == 0
      {
        if bf[i] {
          CountUpdate(states, i, Completed);
          states := states[i := Completed];
          completed := completed + 1;
        }
        i := i + 1;
      }
      if completed == total {
        doneCloses := doneCloses + 1;
      }
      first := map k | 0 <= k < total && bf[k] && store.disk.pieces[k].Whole? :: store.disk.pieces[k].data;
      damaged := Damaged(bf, Exec(total, store.log));
      FreshIs(View(), Some(bf));
      FreshInv(total, threshold, Some(bf));
      ResumedKept(states, Holdings(), Exec(total, store.log));
      if FirstWrites(total, store.log) && NoMarkedOverwrite(total, store.log) {
        CleanRunIntact(total, store.log);
        NoneDamaged(total, bf, Exec(total, store.log));
      }
    }

    lemma StoreShape()
      requires store != null && store.Valid()
      ensures |store.bitfield| == store.numPieces == |store.disk.pieces|
      ensures var m := Exec(store.numPieces, store.log); m.bits == store.bitfield && m.disk == store.disk
    {
      hide Exec, IsRun;
    }

    method Assign(peerAddr: string, bitfield: seq<bv8>) returns (r: Option<nat>)
      requires Valid()
      modifies `states, `owners, `endgameActivated
      ensures Valid()
      ensures Choosable(old(View()), peerAddr, bitfield, r) && View() == Assigned(old(View()), peerAddr, r)
      ensures r.Some? ==> forall j :: 0 <= j < total && SameClass(old(View()), peerAddr, bitfield, r.value, j) ==>
                if selector.RarestFirst? then availability[r.value] <= availability[j] else r.value <= j
      ensures Handed(old(View()), View(), peerAddr, bitfield, r)
      ensures r.Some? ==> Best(old(View()), availability, selector, peerAddr, bitfield, r.value)
    {
      hide PMInv, HasPiece, Exec, IsRun, FirstWrites, AllKept, Choosable, SameClass, Allowed, CanTake, Handed, Best;
      ghost var before := View();
      ManagerShape();
      var remaining: int := total - completed;
      var endgame := threshold > 0 && remaining <= threshold;
      if endgame && !endgameActivated {
        endgameActivated := true;
      }
      var candidates, endgameCandidates := Candidates(peerAddr, bitfield, endgame);
      var choice := Pick(candidates, endgameCandidates);
      ChoiceRight(before, peerAddr, bitfield, candidates, endgameCandidates, choice);
      ChoiceBest(before, peerAddr, bitfield, candidates, endgameCandidates, choice);
      AssignedInv(before, peerAddr, bitfield, choice);
      HandedOut(before, peerAddr, bitfield, choice);
      if choice.Some? { BestMeans(before, availability, selector, peerAddr, bitfield, choice.value); }
      if choice.None? {
        return None;
      }
      var idx := choice.value;
      if states[idx].Pending? {
        KeptSameStates(states, states[idx := InProgress], Holdings(), damaged);
        states := states[idx := InProgress];
        owners := owners[idx := peerAddr];
      }
      r := Some(idx);
    }

    /** Pending pieces first; only without any of them the endgame duplicates. */
    method Pick(candidates: seq<nat>, endgameCandidates: seq<nat>) returns (choice: Option<nat>)
      requires forall c: nat :: c in candidates || c in endgameCandidates ==> c < |availability|
      ensures Allowed(selector, if candidates != [] then candidates else endgameCandidates, availability, choice)
    {
      InRange(candidates, |availability|);
      InRange(endgameCandidates, |availability|);
      choice := Select(selector, candidates, availability);
      if choice.None? {
        choice := Select(selector, endgameCandidates, availability);
      }
    }

    /** The loop over all pieces. */
    method Candidates(peerAddr: string, bitfield: seq<bv8>, endgame: bool)
      returns (candidates: seq<nat>, endgameCandidates: seq<nat>)
      requires |owners| == |states|
      ensures forall c: nat :: c in candidates <==> c < |states| && IsPendingFor(bitfield, c)
      ensures forall c: nat :: c in endgameCandidates <==> c < |states| && IsDuplicateFor(peerAddr, bitfield, endgame, c)
    {
      hide HasPiece;
      candidates, endgameCandidates := [], [];
      for i := 0 to |states|
        invariant forall c: nat :: c in candidates <==> c < i && IsPendingFor(bitfield, c)
        invariant forall c: nat :: c in endgameCandidates <==> c < i && IsDuplicateFor(peerAddr, bitfield, endgame, c)
      {
        if HasPiece(bitfield, i) {
          if states[i].Pending? {
            candidates := candidates + [i];
          } else if endgame && states[i].InProgress? && owners[i] != peerAddr {
            endgameCandidates := endgameCandidates + [i];
          }
        }
      }
    }

    predicate IsPendingFor(bf: seq<bv8>, i: nat)
      reads this
    {
      i < |states| && states[i].Pending? && HasPiece(bf, i)
    }

    predicate IsDuplicateFor(addr: string, bf: seq<bv8>, endgame: bool, i: nat)
      reads this
    {
      i < |states| && i < |owners| && endgame && states[i].InProgress? && owners[i] != addr && HasPiece(bf, i)
    }

    lemma ManagerShape()
      requires PMInv(View())
      ensures |owners| == |states| && completed <= |states|
    {
    }

    lemma ChoiceRight(pm: PM, addr: string, bf: seq<bv8>, candidates: seq<nat>, duplicates: seq<nat>, choice: Option<nat>)
      requires |owners| == |states| && pm.states == states && pm.owners == owners
      requires forall c: nat :: c in candidates <==> c < |states| && IsPendingFor(bf, c)
      requires forall c: nat :: c in duplicates <==> c < |states| && IsDuplicateFor(addr, bf, EndgameNow(pm), c)
      requires Allowed(selector, if candidates != [] then candidates else duplicates, availability, choice)
      ensures Choosable(pm, addr, bf, choice) && (choice.Some? ==> choice.value < |states|)
    {
      hide HasPiece;
      forall i: nat | i < |states|
        ensures i in candidates <==> Is(pm, i, Pending) && HasPiece(bf, i)
        ensures i in candidates || i in duplicates <==> CanTake(pm, addr, bf, i)
      {
      }
    }

    lemma ChoiceBest(pm: PM, addr: string, bf: seq<bv8>, candidates: seq<nat>, duplicates: seq<nat>, choice: Option<nat>)
      requires |owners| == |states| == |availability| && pm.states == states && pm.owners == owners
      requires forall c: nat :: c in candidates <==> c < |states| && IsPendingFor(bf, c)
      requires forall c: nat :: c in duplicates <==> c < |states| && IsDuplicateFor(addr, bf, EndgameNow(pm), c)
      requires Allowed(selector, if candidates != [] then candidates else duplicates, availability, choice)
      ensures choice.Some? ==> forall j :: 0 <= j < |states| && SameClass(pm, addr, bf, choice.value, j) ==>
                choice.value < |states| &&
                if selector.RarestFirst? then availability[choice.value] <= availability[j] else choice.value <= j
    {
      hide HasPiece;
      if choice.Some? {
        forall j | 0 <= j < |states| && SameClass(pm, addr, bf, choice.value, j)
          ensures j in (if candidates != [] then candidates else duplicates)
        {
          assert choice.value in candidates <==> states[choice.value].Pending?;
        }
      }
    }

    method HasPendingFor(bitfield: seq<bv8>) returns (r: bool)
      ensures r <==> PendingFor(View(), bitfield)
      ensures r <==> exists i :: 0 <= i < |states| && states[i].Pending? && HasPiece(bitfield, i)
    {
      hide HasPiece;
      for i := 0 to |states|
        invariant forall k :: 0 <= k < i ==> !(states[k].Pending? && HasPiece(bitfield, k))
      {
        if states[i].Pending? && HasPiece(bitfield, i) {
          assert Is(View(), i, Pending);
          return true;
        }
      }
      r := false;
    }

    method IsFinished() returns (r: bool)
      requires Valid()
      ensures r <==> forall i :: 0 <= i < total ==> states[i].Completed?
    {
      CountFull(states);
      r := completed == total;
    }

    /** The channel is a new one if the piece has none; it may be asked for after the piece is complete. */
    method CancelCh(index: nat) returns (ch: nat)
      requires Valid()
      modifies `cancelChs, `channels
      ensures Valid() && View() == WithChannel(old(View()), index) && ch == ChannelOf(old(View()), index)
      ensures ch < |channels| && channels[ch] == index && (ch in closed ==> index < total && states[index].Completed?)
      ensures Watched(old(View()), View(), index, ch)
    {
      ChannelMeans(View(), index);
      hide PMInv, Exec, IsRun, FirstWrites, AllKept;
      ghost var before := View();
      WithChannelInv(before, index);
      if index in cancelChs {
        ch := cancelChs[index];
      } else {
        ch := |channels|;
        channels := channels + [index];
        cancelChs := cancelChs[index := ch];
      }
      ClosedIsComplete(View(), ch);
    }

    method Complete(index: nat, payload: Data, fault: Fault)
      requires Valid() && index < total
      modifies this, Disk()
      ensures Valid() && View() == Finished(old(View()), index) && Done(old(View()), View(), index)
      ensures first == if old(states[index]).Completed? then old(first) else old(first)[index := payload]
      ensures availability == old(availability) && damaged == old(damaged)
      ensures store != null ==>
                && store.log == old(store.log) + (if old(states[index]).Completed? then [] else WriteSteps(index, payload, fault))
                && (FirstWrites(total, old(store.log)) ==> FirstWrites(total, store.log))
    {
      hide PMInv, Exec, IsRun, FirstWrites, WriteSteps, AllKept, Finished, StoreValid, Done;
      assert this !in Disk();
      ghost var before := View();
      CompletionMeans(before, index);
      FinishedInv(before, index);
      ManagerShape();
      if states[index].Completed? {
        AlreadyFinished(before, index);
        return;
      }
      Mark(index);
      Keep(before.states, index, payload, fault);
      Announce(index);
      FinishedIs(before, View(), index);
    }

    /** The part of `Complete` about states and counter. */
    method Mark(index: nat)
      requires index < |states| == |owners|
      modifies `states, `owners, `completed
      ensures states == old(states)[index := Completed] && owners == old(owners)[index := ""]
      ensures completed == old(completed) + 1
    {
      states := states[index := Completed];
      owners := owners[index := ""];
      completed := completed + 1;
    }

    /** The part of `Complete` about the channels. */
    method Announce(index: nat)
      modifies `closed, `cancelChs, `doneCloses
      ensures closed == if index in old(cancelChs) then old(closed) + {old(cancelChs)[index]} else old(closed)
      ensures cancelChs == old(cancelChs) - {index}
      ensures doneCloses == old(doneCloses) + if completed == total then 1 else 0
    {
      if index in cancelChs {
        closed := closed + {cancelChs[index]};
        cancelChs := cancelChs - {index};
      }
      if completed == total {
        doneCloses := doneCloses + 1;
      }
    }

    /** The part of `Complete` about the bytes: into memory, and from there to disk if there is a store. */
    method Keep(ghost before: seq<PieceState>, index: nat, payload: Data, fault: Fault)
      requires StoreValid() && |before| == |data| == total && AllKept(before, Holdings(), damaged)
      requires index < total && !before[index].Completed?
      modifies `data, `first, Disk()
      ensures StoreValid() && |data| == total && AllKept(before[index := PieceState.Completed], Holdings(), damaged)
      ensures first == old(first)[index := payload]
      ensures store != null ==>
                && store.log == old(store.log) + WriteSteps(index, payload, fault)
                && (FirstWrites(total, old(store.log)) ==> FirstWrites(total, store.log))
    {
      hide Exec, IsRun, FirstWrites, WriteSteps, AllKept, Kept;
      ghost var kept := Holdings();
      AbsentHere(before, kept, damaged, index);
      data := data[index := Some(payload)];
      first := first[index := payload];
      InMemory(Holdings(), index);
      if store != null {
        Persist(index, payload, fault);
      }
      KeptAfterComplete(before, kept, Holdings(), damaged, index, payload);
    }

    /** The bytes stay in memory if writing them, or the bitfield after them, fails. */
    method Persist(index: nat, payload: Data, fault: Fault)
      requires store != null && StoreValid() && index < total == |data|
      requires !(index < |store.bitfield| && store.bitfield[index])
      requires data[index] == Some(payload) && index in first && first[index] == payload
      modifies `data, Disk()
      ensures StoreValid() && store.log == old(store.log) + WriteSteps(index, payload, fault)
      ensures FirstWrites(total, old(store.log)) ==> FirstWrites(total, store.log)
      ensures |data| == old(|data|) && forall k :: 0 <= k < |data| && k != index ==> data[k] == old(data[k])
      ensures |store.bitfield| == old(|store.bitfield|) && |store.disk.pieces| == old(|store.disk.pieces|)
      ensures forall k :: 0 <= k < |store.bitfield| && k != index ==> store.bitfield[k] == old(store.bitfield[k])
      ensures forall k :: 0 <= k < |store.disk.pieces| && k != index ==> store.disk.pieces[k] == old(store.disk.pieces[k])
      ensures Kept(Holdings(), index)
    {
      hide Exec, IsRun, FirstWrites, WriteSteps;
      if FirstWrites(total, store.log) { NotYetMarked(total, store.log, index, payload, fault); }
      var ok := store.WritePiece(index, payload, fault);
      if ok {
        data := data[index := None];
      }
    }

    method Release(index: nat)
      requires Valid() && index < total
      modifies `states, `owners
      ensures Valid() && View() == Released(old(View()), index) && GivenBack(old(View()), View(), index)
    {
      hide PMInv, Exec, IsRun, FirstWrites, AllKept;
      ManagerShape();
      ReleasedInv(View(), index);
      ReleaseMeans(View(), index);
      if states[index].InProgress? {
        KeptSameStates(states, states[index := Pending], Holdings(), damaged);
        states := states[index := Pending];
        owners := owners[index := ""];
      }
    }

    method ReleaseAll(peerAddr: string)
      requires Valid()
      modifies `states, `owners
      ensures Valid() && View() == ReleasedAll(old(View()), peerAddr) && GivenBackBy(old(View()), View(), peerAddr)
    {
      hide PMInv, Exec, IsRun, FirstWrites, AllKept;
      ghost var before := View();
      ManagerShape();
      ReleasedAllInv(before, peerAddr);
      ReleaseAllMeans(before, peerAddr);
      KeptSameStates(states, ReleasedAll(before, peerAddr).states, Holdings(), damaged);
      var i := 0;
      while i < |owners|
        invariant 0 <= i <= |owners| == |states| == total
        invariant forall k :: i <= k < total ==> states[k] == before.states[k] && owners[k] == before.owners[k]
        invariant forall k :: 0 <= k < i ==> states[k] == ReleasedAll(before, peerAddr).states[k]
        invariant forall k :: 0 <= k < i ==> owners[k] == ReleasedAll(before, peerAddr).owners[k]
      {
        if owners[i] == peerAddr && states[i].InProgress? {
          states := states[i := Pending];
          owners := owners[i := ""];
        }
        i := i + 1;
      }
      assert states == ReleasedAll(before, peerAddr).states && owners == ReleasedAll(before, peerAddr).owners;
    }

    /** The bytes first given for the piece, wherever they are kept, unless they are on disk and cannot be read. */
    method GetPieceData(index: int, readable: bool) returns (r: Option<Data>)
      requires Valid()
      ensures r.Some? ==> 0 <= index < total && states[index].Completed?
      ensures r.Some? && index !in damaged ==> index in first && r.value == first[index]
      ensures r.None? ==> !(0 <= index < total) || !states[index].Completed? || (data[index] == None && !readable)
                          || index in damaged
    {
      hide PMInv, Exec, IsRun, FirstWrites;
      if index < 0 || index >= |states| {
        return None;
      }
      if !states[index].Completed? {
        return None;
      }
      assert index in damaged || Kept(Holdings(), index);
      if data[index] == None && store != null {
        r := store.ReadPiece(index, readable);
        return;
      }
      r := data[index];
    }

    /** What `Results` may hold for piece `i`. */
    ghost predicate ResultFor(i: nat, r: Option<Data>, readable: bool)
      requires i < |states| && i < |data|
      reads `states, `data, `first, `damaged
    {
      if !states[i].Completed? then r == None
      else
        || i in damaged
        || (i in first && r == Some(first[i]))
        || (r == None && data[i] == None && !readable)
    }

    /** All pieces in order; a missing one is not complete, or is on disk and cannot be read. */
    method Results(readable: nat -> bool) returns (r: seq<Option<Data>>)
      requires Valid()
      ensures |r| == total && forall i :: 0 <= i < total ==> ResultFor(i, r[i], readable(i))
    {
      hide PMInv, Exec, IsRun, FirstWrites;
      if store == null {
        assert forall i :: 0 <= i < total && states[i].Completed? ==> i in damaged || Kept(Holdings(), i);
        return data;
      }
      r := seq(|data|, _ => None);
      for i := 0 to |data|
        invariant |r| == total && forall k :: i <= k < total ==> r[k] == None
        invariant forall k :: 0 <= k < i ==> ResultFor(k, r[k], readable(k))
      {
        if data[i] != None {
          r := r[i := data[i]];
        } else if states[i].Completed? {
          assert i in damaged || Kept(Holdings(), i);
          var d := store.ReadPiece(i, readable(i));
          r := r[i := d];
        }
      }
    }

    method CompletedBitfield() returns (bf: array<bv8>)
      requires Valid()
      ensures fresh(bf) && bf.Length == (total + 7) / 8
      ensures forall j :: HasPiece(bf[..], j) <==> 0 <= j < total && states[j].Completed?
    {
      hide PMInv, HasPiece, Exec, IsRun, FirstWrites, AllKept;
      bf := NewBitField(total);
      for i := 0 to |states|
        invariant fresh(bf)
        invariant forall j :: HasPiece(bf[..], j) <==> 0 <= j < i && states[j].Completed?
      {
        if states[i].Completed? {
          SetPiece(bf, i);
        }
      }
    }
  }

  /** The marked pieces whose files are not complete files of given bytes. */
  ghost function Damaged(bits: seq<bool>, m: Machine): set<nat> {
    set i | 0 <= i < |bits| && bits[i] && !Good(m, i)
  }

  lemma ResumedKept(states: seq<PieceState>, c: Contents, m: Machine)
    requires |states| == |c.bits| == |c.data| == |c.files| && c.files == m.disk.pieces
    requires forall i :: 0 <= i < |states| ==> (states[i].Completed? <==> c.bits[i]) && c.data[i] == None
    requires c.first == map k | 0 <= k < |c.bits| && c.bits[k] && c.files[k].Whole? :: c.files[k].data
    ensures AllKept(states, c, Damaged(c.bits, m))
  {
  }

  lemma NoneDamaged(n: nat, bits: seq<bool>, m: Machine)
    requires |bits| == n && m.bits == bits && MemoryGood(n, m)
    ensures Damaged(bits, m) == {}
  {
    assert forall i :: 0 <= i < n && bits[i] ==> Bit(m, i);
  }

  /** Two pieces that compete for the same assignment. */
  predicate SameClass(pm: PM, addr: string, bf: seq<bv8>, i: nat, j: nat)
    requires |pm.owners| == |pm.states|
  {
    CanTake(pm, addr, bf, j) && i < |pm.states| && j < |pm.states| && pm.states[i] == pm.states[j]
  }

  /** The rarest, or the first, of the peer's pieces in the same state that are not its own already. */
  ghost predicate Best(pm: PM, availability: seq<int>, selector: Selector, addr: string, bf: seq<bv8>, i: nat)
    requires |pm.owners| == |pm.states| == |availability|
  {
    i < |pm.states| &&
    forall j :: (0 <= j < |pm.states| && HasPiece(bf, j) && pm.states[j] == pm.states[i]
                 && (pm.states[j].Pending? || pm.owners[j] != addr)) ==>
      if selector.RarestFirst? then availability[i] <= availability[j] else i <= j
  }

  lemma BestMeans(pm: PM, availability: seq<int>, selector: Selector, addr: string, bf: seq<bv8>, i: nat)
    requires PMInv(pm) && |availability| == |pm.states|
    requires Choosable(pm, addr, bf, Some(i))
    requires forall j :: 0 <= j < |pm.states| && SameClass(pm, addr, bf, i, j) ==>
               if selector.RarestFirst? then availability[i] <= availability[j] else i <= j
    ensures Best(pm, availability, selector, addr, bf, i)
  {
    hide HasPiece, CountCompleted, ChannelsInv;
  }

  lemma ClosedIsComplete(pm: PM, ch: nat)
    requires PMInv(pm) && ch < |pm.made|
    ensures ch in pm.closed ==> Is(pm, pm.made[ch], PieceState.Completed)
  {
  }

  /** A piece that is not complete is not marked in memory, so writing it is a first write. */
  lemma NotYetMarked(n: nat, log: seq<Step>, i: nat, payload: Data, f: Fault)
    requires FirstWrites(n, log) && !Bit(Exec(n, log), i)
    ensures FirstWrites(n, log + WriteSteps(i, payload, f))
  {
    hide Exec;
    var more := WriteSteps(i, payload, f);
    FirstThen(n, log, more, |more|);
    assert more[..|more|] == more;
  }

  lemma InRange(s: seq<nat>, n: nat)
    requires forall c: nat :: c in s ==> c < n
    ensures forall k :: 0 <= k < |s| ==> s[k] < n
  {
    assert forall k :: 0 <= k < |s| ==> s[k] in s;
  }

  lemma {:induction false} FirstThen(n: nat, log: seq<Step>, more: seq<Step>, k: nat)
    requires FirstWrites(n, log) && k <= |more|
    requires more != [] && (more[0].Open? ==> !Bit(Exec(n, log), more[0].index))
    requires forall j :: 0 < j < |more| ==> !more[j].Open?
    ensures FirstWrites(n, log + more[..k])
  {
    hide Exec, Bit;
    if k == 0 {
      assert log + more[..0] == log;
    } else {
      FirstThen(n, log, more, k - 1);
      var all := log + more[..k];
      assert all[..|all| - 1] == log + more[..k - 1];
      assert all[|all| - 1] == more[k - 1];
      assert k == 1 ==> log + more[..0] == log;
    }
  }

  /** How to recognise a new manager. */
  lemma FreshIs(pm: PM, present: Option<seq<bool>>)
    requires present.Some? ==> |present.value| == |pm.states|
    requires |pm.owners| == |pm.states| && forall i :: 0 <= i < |pm.owners| ==> pm.owners[i] == ""
    requires forall i :: 0 <= i < |pm.states| ==>
               pm.states[i] == if present.Some? && present.value[i] then Completed else Pending
    requires pm.completed == CountCompleted(pm.states) && !pm.endgame && pm.chans == map[] && pm.made == [] && pm.closed == {}
    requires pm.doneCloses == if present.Some? && pm.completed == |pm.states| then 1 else 0
    ensures pm == Fresh(|pm.states|, pm.threshold, present)
  {
    hide CountCompleted;
    assert pm.states == Fresh(|pm.states|, pm.threshold, present).states;
    assert pm.owners == Fresh(|pm.states|, pm.threshold, present).owners;
  }

  lemma FreshParts(pm: PM)
    requires pm == Fresh(|pm.states|, pm.threshold, None)
    ensures |pm.owners| == |pm.states| && forall i :: 0 <= i < |pm.owners| ==> pm.owners[i] == ""
    ensures forall i :: 0 <= i < |pm.states| ==> pm.states[i].Pending?
    ensures !pm.endgame && pm.chans == map[] && pm.made == [] && pm.closed == {} && pm.doneCloses == 0
    ensures pm.completed == CountCompleted(pm.states)
  {
  }

  lemma {:induction false} CountNone(states: seq<PieceState>)
    requires forall i :: 0 <= i < |states| ==> states[i].Pending?
    ensures CountCompleted(states) == 0
  {
    if states != [] { CountNone(states[..|states| - 1]); }
  }
}
