/** internal/downloader/pex_manager.go: peer exchange deltas. Addresses are modelled by their text. */
module Pex {
  import opened Sets

  const PEX_MAX_ADDED := 50

  datatype Addr = Addr(text: string)

  class PEXManager {
    /** Addresses of connected peers. */
    var connected: set<Addr>
    /** By receiver: what was connected, receiver excepted, at the last delta for it. */
    var lastSent: map<Addr, set<Addr>>

    /** The manager as a state of a run. */
    ghost function View(): State
      reads this
    {
      State(connected, lastSent)
    }

    constructor ()
      ensures View() == Exec([]) && connected == {} && lastSent == map[]
    {
      connected := {};
      lastSent := map[];
    }

    method PeerConnected(addr: Addr)
      modifies `connected
      ensures View() == Next(old(View()), Connect(addr)) && connected == old(connected) + {addr}
    {
      connected := connected + {addr};
    }

    method PeerDisconnected(addr: Addr)
      modifies this
      ensures View() == Next(old(View()), Disconnect(addr))
      ensures connected == old(connected) - {addr} && lastSent == map r | r in old(lastSent) && r != addr :: old(lastSent)[r]
    {
      connected := connected - {addr};
      lastSent := lastSent - {addr};
    }

    /** Maps are traversed in any order, so which 50 of more new peers are announced is arbitrary. */
    method ComputeDelta(peerAddr: Addr) returns (added: seq<Addr>, dropped: seq<Addr>)
      modifies `lastSent
      ensures Distinct(added) && Distinct(dropped)
      ensures Enabled(old(View()), Delta(peerAddr, ToSet(added)))
      ensures View() == Next(old(View()), Delta(peerAddr, ToSet(added)))
      ensures ToSet(dropped) == Gone(old(View()), peerAddr)
      ensures DeltaOf(old(View()), View(), peerAddr, added, dropped)
    {
      hide DeltaOf;
      var prev := Prev(lastSent, peerAddr);
      var current := connected - {peerAddr};
      added := Unseen(current, prev);
      dropped := Missing(prev, current);
      DistinctSize(added);
      DeltaMeans(View(), peerAddr, added, dropped);
      lastSent := lastSent[peerAddr := current];
    }
  }

  /**
   * A delta for `r`: the record becomes who is connected besides `r`, and no other record changes. Announced are at most
   * 50, all of them connected and not on record before; all of those, if they are fewer. Dropped are those on record
   * before that are not connected any more, and `r`.
   */
  ghost predicate DeltaOf(before: State, after: State, r: Addr, added: seq<Addr>, dropped: seq<Addr>) {
    && after.connected == before.connected
    && r in after.lastSent && (forall a :: a in after.lastSent[r] <==> a in before.connected && a != r)
    && (forall q :: q != r ==> (q in after.lastSent <==> q in before.lastSent))
    && (forall q :: q != r && q in after.lastSent ==> after.lastSent[q] == before.lastSent[q])
    && (forall a :: a in added ==> a in before.connected && a != r && !(r in before.lastSent && a in before.lastSent[r]))
    && |added| <= 50
    && (|added| < 50 ==> forall a :: a in before.connected && a != r && !(r in before.lastSent && a in before.lastSent[r]) ==> a in added)
    && (forall a :: a in dropped <==> r in before.lastSent && a in before.lastSent[r] && (a !in before.connected || a == r))
  }

  lemma DeltaMeans(s: State, r: Addr, added: seq<Addr>, dropped: seq<Addr>)
    requires Distinct(added) && ToSet(added) <= News(s, r) && |added| == Min(PEX_MAX_ADDED, |News(s, r)|)
    requires ToSet(dropped) == Gone(s, r)
    ensures DeltaOf(s, Next(s, Delta(r, ToSet(added))), r, added, dropped)
  {
    hide Distinct;
    DistinctSize(added);
    if |added| < 50 { SubsetSize(ToSet(added), News(s, r)); }
    assert forall a :: a in added <==> a in ToSet(added);
    assert forall a :: a in dropped <==> a in ToSet(dropped);
    assert forall a :: a in Current(s, r) <==> a in s.connected && a != r;
  }

  /** The first loop of `ComputeDelta`. */
  method Unseen(current: set<Addr>, prev: set<Addr>) returns (added: seq<Addr>)
    ensures Distinct(added) && ToSet(added) <= current - prev && |added| == Min(PEX_MAX_ADDED, |current - prev|)
  {
    hide Announces;
    added := [];
    var left := current;
    ghost var unseen: set<Addr> := {};
    AnnouncesNone();
    while left != {}
      invariant left <= current && unseen == current - left - prev && Announces(added, unseen)
      decreases |left|
    {
      var key :| key in left;
      NextKey(current, left, prev, key);
      left := left - {key};
      if key !in prev {
        AnnouncesMore(added, unseen, key);
        unseen := unseen + {key};
        if |added| < PEX_MAX_ADDED {
          added := added + [key];
        }
      }
    }
    assert current - left == current;
    AnnouncesMeans(added, current - prev);
  }

  /** `added` lists 50 of the given peers, or all of them if they are not more. */
  ghost predicate Announces(added: seq<Addr>, peers: set<Addr>) {
    Distinct(added) && ToSet(added) <= peers && |added| == Min(PEX_MAX_ADDED, |peers|)
  }

  lemma AnnouncesMeans(added: seq<Addr>, peers: set<Addr>)
    requires Announces(added, peers)
    ensures Distinct(added) && ToSet(added) <= peers && |added| == Min(PEX_MAX_ADDED, |peers|)
  {
  }

  lemma AnnouncesNone()
    ensures Announces([], {})
  {
  }

  lemma AnnouncesMore(added: seq<Addr>, peers: set<Addr>, key: Addr)
    requires Announces(added, peers) && key !in peers
    ensures Announces(if |added| < PEX_MAX_ADDED then added + [key] else added, peers + {key})
  {
    Appended(added, key);
  }

  /** The second loop. */
  method Missing(prev: set<Addr>, current: set<Addr>) returns (dropped: seq<Addr>)
    ensures Distinct(dropped) && ToSet(dropped) == prev - current
  {
    dropped := [];
    var left := prev;
    while left != {}
      invariant left <= prev && Distinct(dropped) && ToSet(dropped) == prev - left - current
      decreases |left|
    {
      var key :| key in left;
      NextKey(prev, left, current, key);
      left := left - {key};
      if key !in current {
        Appended(dropped, key);
        dropped := dropped + [key];
      }
    }
  }

  lemma Appended(s: seq<Addr>, key: Addr)
    ensures ToSet(s + [key]) == ToSet(s) + {key}
    ensures Distinct(s) && key !in ToSet(s) ==> Distinct(s + [key])
  {
  }

  /** Visiting one more key. */
  lemma NextKey(all: set<Addr>, left: set<Addr>, prev: set<Addr>, key: Addr)
    requires left <= all && key in left
    ensures all - (left - {key}) - prev == (all - left - prev) + if key in prev then {} else {key}
    ensures key !in all - left - prev
  {
    assert all - (left - {key}) - prev == (all - left - prev) + if key in prev then {} else {key};
  }

  function Prev(lastSent: map<Addr, set<Addr>>, r: Addr): set<Addr> {
    if r in lastSent then lastSent[r] else {}
  }

  // ----- Runs -----

  /** `Delta(r, added)`: a delta for `r` that announces `added`; it reaches `r` if `r` is connected. */
  datatype Step = Connect(a: Addr) | Disconnect(a: Addr) | Delta(r: Addr, added: set<Addr>)

  datatype State = State(connected: set<Addr>, lastSent: map<Addr, set<Addr>>)

  function Current(s: State, r: Addr): set<Addr> {
    s.connected - {r}
  }

  function News(s: State, r: Addr): set<Addr> {
    Current(s, r) - Prev(s.lastSent, r)
  }

  /** Who is dropped in a delta for `r`. */
  function Gone(s: State, r: Addr): set<Addr> {
    Prev(s.lastSent, r) - Current(s, r)
  }

  predicate Enabled(s: State, step: Step) {
    step.Delta? ==> step.added <= News(s, step.r) && |step.added| == Min(PEX_MAX_ADDED, |News(s, step.r)|)
  }

  function Next(s: State, step: Step): State {
    match step
    case Connect(a) => s.(connected := s.connected + {a})
    case Disconnect(a) => State(s.connected - {a}, s.lastSent - {a})
    case Delta(r, _) => s.(lastSent := s.lastSent[r := Current(s, r)])
  }

  function Exec(run: seq<Step>): State {
    if run == [] then State({}, map[]) else Next(Exec(run[..|run| - 1]), run[|run| - 1])
  }

  /** Who is connected: exactly those with a Connect that no Disconnect came after. */
  lemma {:induction false} ConnectedExactly(run: seq<Step>, a: Addr)
    ensures a in Exec(run).connected <==>
              exists k :: 0 <= k < |run| && run[k] == Connect(a) && forall j :: k < j < |run| ==> run[j] != Disconnect(a)
  {
    if run != [] {
      var n := |run| - 1;
      ConnectedExactly(run[..n], a);
      assert forall k :: 0 <= k < n ==> run[..n][k] == run[k];
      if k :| 0 <= k < |run| && run[k] == Connect(a) && forall j :: k < j < |run| ==> run[j] != Disconnect(a) {
        if k < n { assert run[..n][k] == Connect(a); }
      }
      if run[n] != Disconnect(a) && a in Exec(run[..n]).connected {
        var k :| 0 <= k < n && run[..n][k] == Connect(a) && forall j :: k < j < n ==> run[..n][j] != Disconnect(a);
        assert run[k] == Connect(a);
        forall j | k < j < |run| ensures run[j] != Disconnect(a) {
          if j < n { assert run[..n][j] == run[j]; }
        }
      }
    }
  }

  ghost predicate IsRun(run: seq<Step>) {
    forall k :: 0 <= k < |run| ==> Enabled(Exec(run[..k]), run[k])
  }

  /** What `r` believes: every connection starts from nothing, and a delta that arrives is applied. */
  function View(run: seq<Step>, r: Addr): set<Addr> {
    if run == [] then {}
    else ViewNext(View(run[..|run| - 1], r), Exec(run[..|run| - 1]), run[|run| - 1], r)
  }

  function ViewNext(view: set<Addr>, s: State, step: Step, r: Addr): set<Addr> {
    match step
    case Connect(a) => if a == r then {} else view
    case Disconnect(a) => if a == r then {} else view
    case Delta(q, added) =>
      if q == r && r in s.connected then (view - Gone(s, r)) + added else view
  }

  /**
   * `a` was new to `r` at step `k` and stayed connected at every later delta for `r`, so it was never announced again;
   * and step `k` did not tell `r` for good: `a` did not fit, `r` was not connected, or `r` has reconnected since.
   */
  ghost predicate LostAt(run: seq<Step>, r: Addr, a: Addr, k: nat) {
    && k < |run| && run[k].Delta? && run[k].r == r
    && a in News(Exec(run[..k]), r)
    && (forall j :: k < j < |run| ==> run[j] != Disconnect(r))
    && (forall j :: k < j < |run| && run[j].Delta? && run[j].r == r ==> a in Current(Exec(run[..j]), r))
    && (a !in run[k].added || r !in Exec(run[..k]).connected || exists j :: k < j < |run| && run[j] == Connect(r))
  }

  ghost predicate Lost(run: seq<Step>, r: Addr, a: Addr) {
    exists k: nat :: LostAt(run, r, a, k)
  }

  /** Like a loss, without the clause that says why. */
  ghost predicate NewAt(run: seq<Step>, r: Addr, a: Addr, k: nat) {
    && k < |run| && run[k].Delta? && run[k].r == r
    && a in News(Exec(run[..k]), r)
    && (forall j :: k < j < |run| ==> run[j] != Disconnect(r))
    && (forall j :: k < j < |run| && run[j].Delta? && run[j].r == r ==> a in Current(Exec(run[..j]), r))
  }

  ghost predicate Kept(run: seq<Step>, r: Addr, a: Addr) {
    exists k: nat :: NewAt(run, r, a, k)
  }

  /** The step lets earlier deltas for `r` stand. */
  ghost predicate Spares(s: State, step: Step, r: Addr, a: Addr) {
    step != Disconnect(r) && (step.Delta? && step.r == r ==> a in Current(s, r))
  }

  lemma NewEarlier(run: seq<Step>, r: Addr, a: Addr, k: nat)
    requires run != [] && k < |run| - 1
    ensures var front, step := run[..|run| - 1], run[|run| - 1];
            && (NewAt(run, r, a, k) <==> Spares(Exec(front), step, r, a) && NewAt(front, r, a, k))
            && (LostAt(run, r, a, k) <==>
                  Spares(Exec(front), step, r, a)
                  && (LostAt(front, r, a, k) || (step == Connect(r) && NewAt(front, r, a, k))))
  {
    hide Exec, Current, News;
    var n := |run| - 1;
    var front := run[..n];
    assert forall j :: 0 <= j <= n ==> front[..j] == run[..j];
    assert forall j :: 0 <= j < n ==> front[j] == run[j];
  }

  lemma NewLast(run: seq<Step>, r: Addr, a: Addr)
    requires run != []
    ensures var s, step := Exec(run[..|run| - 1]), run[|run| - 1];
            && (NewAt(run, r, a, |run| - 1) <==> step.Delta? && step.r == r && a in News(s, r))
            && (LostAt(run, r, a, |run| - 1) <==>
                  step.Delta? && step.r == r && a in News(s, r) && (a !in step.added || r !in s.connected))
  {
    hide Exec, Current, News;
  }

  lemma LostSplit(run: seq<Step>, r: Addr, a: Addr)
    requires run != []
    ensures var front, step := run[..|run| - 1], run[|run| - 1];
            && (Kept(run, r, a) <==>
                  NewAt(run, r, a, |run| - 1) || (Spares(Exec(front), step, r, a) && Kept(front, r, a)))
            && (Lost(run, r, a) <==>
                  LostAt(run, r, a, |run| - 1)
                  || (Spares(Exec(front), step, r, a)
                      && (Lost(front, r, a) || (step == Connect(r) && Kept(front, r, a)))))
  {
    hide Exec, Spares;
    var n := |run| - 1;
    forall k: nat | k < n
      ensures NewAt(run, r, a, k) <==> Spares(Exec(run[..n]), run[n], r, a) && NewAt(run[..n], r, a, k)
      ensures LostAt(run, r, a, k) <==>
                Spares(Exec(run[..n]), run[n], r, a)
                && (LostAt(run[..n], r, a, k) || (run[n] == Connect(r) && NewAt(run[..n], r, a, k)))
    {
      NewEarlier(run, r, a, k);
    }
    Bounded(run, r, a);
    Bounded(run[..n], r, a);
    hide NewAt, LostAt;
    assert forall k: nat :: NewAt(run, r, a, k) ==> k < n || k == n;
    assert forall k: nat :: LostAt(run, r, a, k) ==> k < n || k == n;
  }

  lemma Bounded(run: seq<Step>, r: Addr, a: Addr)
    ensures forall k: nat :: NewAt(run, r, a, k) ==> k < |run|
    ensures forall k: nat :: LostAt(run, r, a, k) ==> k < |run|
  {
  }

  /**
   * For every address: it is on record as sent to `r` exactly if some delta found it new and none since found it gone;
   * what `r` believes is on record; and what is on record without `r` believing it is exactly what was lost.
   */
  lemma {:induction false} ViewExactly(run: seq<Step>, r: Addr, a: Addr)
    requires IsRun(run)
    ensures var sent := Prev(Exec(run).lastSent, r);
            && (a in sent <==> Kept(run, r, a))
            && (a in View(run, r) ==> a in sent)
            && (a in sent && a !in View(run, r) <==> Lost(run, r, a))
            && (r !in Exec(run).connected ==> a !in View(run, r))
  {
    hide Kept, Lost, NewAt, LostAt, Next, ViewNext, Spares, Enabled, News;
    if run == [] {
      NothingYet(r, a);
    } else {
      var front, step := run[..|run| - 1], run[|run| - 1];
      RunFront(run);
      ViewExactly(front, r, a);
      LostSplit(run, r, a);
      NewLast(run, r, a);
      StepExactly(Exec(front), step, View(front, r), r, a, Kept(front, r, a), Lost(front, r, a));
    }
  }

  /** One step of the induction, with the two run properties as facts. */
  lemma StepExactly(s: State, step: Step, view: set<Addr>, r: Addr, a: Addr, kept: bool, lost: bool)
    requires Enabled(s, step)
    requires a in Prev(s.lastSent, r) <==> kept
    requires a in view ==> kept
    requires kept && a !in view <==> lost
    requires r !in s.connected ==> a !in view
    ensures var sent, view' := Prev(Next(s, step).lastSent, r), ViewNext(view, s, step, r);
            var found := step.Delta? && step.r == r && a in News(s, r);
            var kept' := found || (Spares(s, step, r, a) && kept);
            var lost' := (found && (a !in step.added || r !in s.connected))
                         || (Spares(s, step, r, a) && (lost || (step == Connect(r) && kept)));
            && (a in sent <==> kept')
            && (a in view' ==> a in sent)
            && (a in sent && a !in view' <==> lost')
            && (r !in Next(s, step).connected ==> a !in view')
  {
  }

  lemma NothingYet(r: Addr, a: Addr)
    ensures !Kept([], r, a) && !Lost([], r, a)
  {
  }

  lemma RunFront(run: seq<Step>)
    requires IsRun(run) && run != []
    ensures IsRun(run[..|run| - 1]) && Enabled(Exec(run[..|run| - 1]), run[|run| - 1])
  {
    hide Exec, Enabled;
    var front := run[..|run| - 1];
    assert forall k :: 0 <= k < |front| ==> front[..k] == run[..k];
  }

  /** The connection is fresh: every delta since the last connect or disconnect of `r` was delivered and fitted. */
  ghost predicate Undisturbed(run: seq<Step>, r: Addr) {
    && (forall k :: 0 <= k < |run| && run[k].Delta? && run[k].r == r ==>
          r in Exec(run[..k]).connected && |News(Exec(run[..k]), r)| <= PEX_MAX_ADDED)
    && (forall k :: 0 <= k < |run| && run[k] == Connect(r) ==> Prev(Exec(run[..k]).lastSent, r) == {})
  }

  lemma AllFit(s: State, step: Step)
    requires Enabled(s, step) && step.Delta? && |News(s, step.r)| <= PEX_MAX_ADDED
    ensures step.added == News(s, step.r)
  {
    SubsetSize(step.added, News(s, step.r));
  }

  lemma Replaced(prev: set<Addr>, current: set<Addr>)
    ensures (prev - (prev - current)) + (current - prev) == current
  {
  }

  /** If no delta for `r` had more than 50 new peers, `r` knows exactly who was connected at the last one. */
  lemma {:induction false} ViewComplete(run: seq<Step>, r: Addr)
    requires IsRun(run) && Undisturbed(run, r)
    ensures View(run, r) == Prev(Exec(run).lastSent, r)
  {
    hide Enabled, Next, ViewNext, News;
    if run != [] {
      RunFront(run);
      UndisturbedFront(run, r);
      ViewComplete(run[..|run| - 1], r);
      CompleteStep(Exec(run[..|run| - 1]), run[|run| - 1], r);
    }
  }

  lemma CompleteStep(s: State, step: Step, r: Addr)
    requires Enabled(s, step)
    requires step.Delta? && step.r == r ==> r in s.connected && |News(s, r)| <= PEX_MAX_ADDED
    requires step == Connect(r) ==> Prev(s.lastSent, r) == {}
    ensures ViewNext(Prev(s.lastSent, r), s, step, r) == Prev(Next(s, step).lastSent, r)
  {
    if step.Delta? && step.r == r {
      AllFit(s, step);
      Replaced(Prev(s.lastSent, r), Current(s, r));
    }
  }

  lemma UndisturbedFront(run: seq<Step>, r: Addr)
    requires Undisturbed(run, r) && run != []
    ensures Undisturbed(run[..|run| - 1], r)
    ensures var s, step := Exec(run[..|run| - 1]), run[|run| - 1];
            && (step.Delta? && step.r == r ==> r in s.connected && |News(s, r)| <= PEX_MAX_ADDED)
            && (step == Connect(r) ==> Prev(s.lastSent, r) == {})
  {
    hide Exec, News;
    var front := run[..|run| - 1];
    assert forall k :: 0 <= k < |front| ==> front[..k] == run[..k] && front[k] == run[k];
  }

  /** What is on record for `r` is who was connected, `r` excepted, at the last delta for it. */
  lemma {:induction false} OnRecord(run: seq<Step>, r: Addr, k: nat)
    requires k < |run| && run[k].Delta? && run[k].r == r
    requires forall j :: k < j < |run| ==> run[j] != Disconnect(r) && !(run[j].Delta? && run[j].r == r)
    ensures Prev(Exec(run).lastSent, r) == Current(Exec(run[..k]), r)
    decreases |run|
  {
    if k < |run| - 1 {
      var front := run[..|run| - 1];
      OnRecord(front, r, k);
      assert front[..k] == run[..k];
    }
  }
}
