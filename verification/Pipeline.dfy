/**
 * Fetching a piece in blocks: internal/peer/peer.go:332-467, and the side that serves them,
 * internal/peer/peer.go:196-223 and internal/downloader/block_server.go:18-28.
 */
module Pipeline {
  import opened Bytes
  import opened BitFields

  const BLOCK_SIZE := 16384
  const MAX_PIPELINE_REQUESTS := 5
  const MAX_BLOCK := 131072
  const UINT32 := 0x1_0000_0000

  /** Go's `uint32`. */
  type uint32 = n: int | 0 <= n < 0x1_0000_0000

  datatype Request = Request(index: uint32, begin: uint32, length: uint32)

  /** What is sent to the peer. */
  datatype Wire = Ask(req: Request) | Cancel(req: Request)

  /** What is read from the peer; `Have` without an index is a payload too short to hold one. */
  datatype Event = KeepAlive | Piece(payload: seq<byte>) | Choke | Unchoke | Have(index: Option<nat>) | Other

  datatype Outcome = Got(blocks: seq<seq<byte>>) | Cancelled | Choked | Failed

  // ----- Tiling -----

  /** The requests cover [0, length) in order, without gap or overlap, in blocks of at most 16384 bytes. */
  ghost predicate Tiles(reqs: seq<Request>, index: uint32, length: nat) {
    && (forall k :: 0 <= k < |reqs| ==> reqs[k].index == index && 0 < reqs[k].length <= 16384)
    && (forall k :: 0 <= k < |reqs| ==> reqs[k].begin == if k == 0 then 0 else reqs[k - 1].begin + reqs[k - 1].length)
    && length == (if reqs == [] then 0 else reqs[|reqs| - 1].begin + reqs[|reqs| - 1].length)
  }

  lemma TilesSnoc(reqs: seq<Request>, index: uint32, length: nat, r: Request)
    requires Tiles(reqs, index, length) && r.index == index && r.begin == length && 0 < r.length <= BLOCK_SIZE
    ensures Tiles(reqs + [r], index, length + r.length)
  {
  }

  lemma TilesFront(reqs: seq<Request>, index: uint32, length: nat)
    requires Tiles(reqs, index, length) && reqs != []
    ensures Tiles(reqs[..|reqs| - 1], index, reqs[|reqs| - 1].begin)
  {
  }

  ghost predicate Covers(r: Request, offset: nat) {
    r.begin <= offset < r.begin + r.length
  }

  /** Every byte of the piece is asked for by exactly one request. */
  lemma {:induction false} EveryByteOnce(reqs: seq<Request>, index: uint32, length: nat, offset: nat)
    requires Tiles(reqs, index, length)
    ensures offset < length <==> exists k :: 0 <= k < |reqs| && Covers(reqs[k], offset)
    ensures forall j, k :: 0 <= j < |reqs| && 0 <= k < |reqs| && Covers(reqs[j], offset) && Covers(reqs[k], offset) ==> j == k
  {
    if reqs != [] {
      var n := |reqs| - 1;
      var front := reqs[..n];
      TilesFront(reqs, index, length);
      EveryByteOnce(front, index, reqs[n].begin, offset);
      assert forall k :: 0 <= k < n ==> front[k] == reqs[k];
      if offset >= reqs[n].begin && offset < length {
        assert Covers(reqs[n], offset);
      }
      assert Covers(reqs[n], offset) ==> forall k :: 0 <= k < n ==> !Covers(front[k], offset);
    }
  }

  /** The request loop of `GetPiece`. */
  method BlockRequests(pieceLength: uint32, pieceIndex: uint32) returns (requests: seq<Request>)
    ensures Tiles(requests, pieceIndex, pieceLength)
    ensures |requests| == (pieceLength + 16383) / 16384
  {
    requests := [];
    var begin: uint32 := 0;
    var remaining: uint32 := pieceLength;
    while remaining > 0
      invariant begin + remaining == pieceLength && Tiles(requests, pieceIndex, begin)
      invariant remaining > 0 ==> begin == BLOCK_SIZE * |requests|
      invariant remaining == 0 ==> |requests| == (pieceLength + BLOCK_SIZE - 1) / BLOCK_SIZE
    {
      var blockLen: uint32 := BLOCK_SIZE;
      if remaining < BLOCK_SIZE {
        blockLen := remaining;
      }
      TilesSnoc(requests, pieceIndex, begin, Request(pieceIndex, begin, blockLen));
      requests := requests + [Request(pieceIndex, begin, blockLen)];
      begin := begin + blockLen;
      remaining := remaining - blockLen;
    }
  }

  // ----- Pipelining -----

  function Asks(reqs: seq<Request>): (w: seq<Wire>)
    ensures |w| == |reqs| && forall k :: 0 <= k < |reqs| ==> w[k] == Ask(reqs[k])
  {
    seq(|reqs|, k requires 0 <= k < |reqs| => Ask(reqs[k]))
  }

  function Cancels(reqs: seq<Request>): (w: seq<Wire>)
    ensures |w| == |reqs| && forall k :: 0 <= k < |reqs| ==> w[k] == Cancel(reqs[k])
  {
    seq(|reqs|, k requires 0 <= k < |reqs| => Cancel(reqs[k]))
  }

  predicate IsBlock(e: Event) {
    e.Piece? && |e.payload| >= 8
  }

  /** The blocks among the messages, in order of arrival. */
  function BlocksOf(events: seq<Event>): seq<seq<byte>> {
    if events == [] then []
    else
      var e := events[|events| - 1];
      BlocksOf(events[..|events| - 1]) + if IsBlock(e) then [e.payload[8..]] else []
  }

  /** The blocks are what follows the first eight bytes of the piece messages, and shorter ones hold none. */
  lemma BlocksExactly(events: seq<Event>, e: Event)
    ensures BlocksOf([]) == []
    ensures BlocksOf(events + [e]) == BlocksOf(events) + if e.Piece? && |e.payload| >= 8 then [e.payload[8..]] else []
  {
    assert (events + [e])[..|events|] == events;
  }

  lemma {:induction false} BlocksGrow(events: seq<Event>, i: nat, j: nat)
    requires i <= j <= |events|
    ensures |BlocksOf(events[..i])| <= |BlocksOf(events[..j])|
    decreases j - i
  {
    if i < j {
      BlocksGrow(events, i, j - 1);
      BlocksStep(events, j - 1);
    }
  }

  // ----- When a download succeeds -----

  predicate Short(e: Event) {
    e.Piece? && |e.payload| < 8
  }

  /** Up to message `n` the channel stays open, and the peer neither chokes nor sends a piece message without a block. */
  ghost predicate Smooth(events: seq<Event>, n: nat, closed: nat -> bool)
    requires n <= |events|
  {
    forall k :: 0 <= k < n ==> !closed(k) && !events[k].Choke? && !Short(events[k])
  }

  /** The next `n` messages can be sent, `before` having been sent already. */
  ghost predicate CanSend(broken: nat -> bool, before: nat, n: nat) {
    forall m: nat :: before <= m < before + n ==> !broken(m)
  }

  /** All requests can be sent, and enough blocks come before anything gets in the way. */
  ghost predicate Succeeds(requests: nat, events: seq<Event>, closed: nat -> bool, broken: nat -> bool, before: nat) {
    CanSend(broken, before, requests) &&
    exists n :: 0 <= n <= |events| && |BlocksOf(events[..n])| == requests && Smooth(events, n, closed)
  }

  /** Why a download fails: a request cannot be sent, a piece message is too short, or nothing more can be read. */
  ghost predicate FailedBecause(requests: nat, events: seq<Event>, used: nat, broken: nat -> bool, before: nat, asked: nat)
    requires used <= |events|
  {
    || (broken(before + asked) && asked < requests && asked - |BlocksOf(events[..used])| < 5)
    || (used > 0 && Short(events[used - 1]))
    || used == |events|
  }

  lemma GotSucceeds(requests: nat, events: seq<Event>, used: nat, closed: nat -> bool, broken: nat -> bool, before: nat)
    requires used <= |events| && |BlocksOf(events[..used])| == requests
    requires Smooth(events, used, closed) && CanSend(broken, before, requests)
    ensures Succeeds(requests, events, closed, broken, before)
  {
  }

  lemma EndedEarly(requests: nat, events: seq<Event>, used: nat, closed: nat -> bool, broken: nat -> bool, before: nat, asked: nat)
    requires used <= |events| && |BlocksOf(events[..used])| < requests
    requires closed(used) || (used > 0 && events[used - 1].Choke?)
             || FailedBecause(requests, events, used, broken, before, asked)
    ensures !Succeeds(requests, events, closed, broken, before)
  {
    hide BlocksOf;
    if Succeeds(requests, events, closed, broken, before) {
      var n :| 0 <= n <= |events| && |BlocksOf(events[..n])| == requests && Smooth(events, n, closed);
      if n <= used { BlocksGrow(events, n, used); }
    }
  }

  lemma BlocksStep(events: seq<Event>, i: nat)
    requires i < |events|
    ensures BlocksOf(events[..i + 1]) == BlocksOf(events[..i])
              + if IsBlock(events[i]) then [events[i].payload[8..]] else []
  {
    assert events[..i + 1][..i] == events[..i];
  }

  /** What happens on the connection, in order. */
  datatype Io = Sent(msg: Wire) | Read(event: Event)

  function Sends(log: seq<Io>): seq<Wire> {
    if log == [] then []
    else Sends(log[..|log| - 1]) + if log[|log| - 1].Sent? then [log[|log| - 1].msg] else []
  }

  function Reads(log: seq<Io>): seq<Event> {
    if log == [] then []
    else Reads(log[..|log| - 1]) + if log[|log| - 1].Read? then [log[|log| - 1].event] else []
  }

  /** Requests sent minus blocks received. */
  function Outstanding(log: seq<Io>): int {
    if log == [] then 0
    else
      var io := log[|log| - 1];
      Outstanding(log[..|log| - 1])
      + if io.Sent? && io.msg.Ask? then 1 else if io.Read? && IsBlock(io.event) then -1 else 0
  }

  /** At no point of the conversation are more than five requests unanswered. */
  predicate Windowed(log: seq<Io>) {
    log == [] || (Windowed(log[..|log| - 1]) && 0 <= Outstanding(log) <= MAX_PIPELINE_REQUESTS)
  }

  /** Requests sent and blocks read in the first part of a conversation. */
  ghost function AsksIn(log: seq<Io>): set<nat> {
    set k: nat | k < |log| && log[k].Sent? && log[k].msg.Ask?
  }

  ghost function BlocksIn(log: seq<Io>): set<nat> {
    set k: nat | k < |log| && log[k].Read? && log[k].event.Piece? && |log[k].event.payload| >= 8
  }

  lemma {:induction false} OutstandingMeans(log: seq<Io>)
    ensures Outstanding(log) == |AsksIn(log)| - |BlocksIn(log)|
  {
    if log == [] {
      assert AsksIn(log) == {} && BlocksIn(log) == {};
    } else {
      var n := |log| - 1;
      hide AsksIn, BlocksIn, IsBlock;
      OutstandingMeans(log[..n]);
      AsksInStep(log);
      BlocksInStep(log);
    }
  }

  lemma AsksInStep(log: seq<Io>)
    requires log != []
    ensures var n, io := |log| - 1, log[|log| - 1];
            |AsksIn(log)| == |AsksIn(log[..n])| + if io.Sent? && io.msg.Ask? then 1 else 0
  {
    var n, io := |log| - 1, log[|log| - 1];
    assert AsksIn(log) == AsksIn(log[..n]) + if io.Sent? && io.msg.Ask? then {n} else {};
  }

  lemma BlocksInStep(log: seq<Io>)
    requires log != []
    ensures var n, io := |log| - 1, log[|log| - 1];
            |BlocksIn(log)| == |BlocksIn(log[..n])| + if io.Read? && IsBlock(io.event) then 1 else 0
  {
    var n, io := |log| - 1, log[|log| - 1];
    assert BlocksIn(log) == BlocksIn(log[..n]) + if io.Read? && IsBlock(io.event) then {n} else {};
  }

  /** At every point, the requests sent exceed the blocks read by no more than five, and never fall behind. */
  lemma {:induction false} WindowedMeans(log: seq<Io>)
    ensures Windowed(log) <==>
              forall k :: 0 <= k <= |log| ==> |BlocksIn(log[..k])| <= |AsksIn(log[..k])| <= |BlocksIn(log[..k])| + 5
  {
    hide AsksIn, BlocksIn, Outstanding;
    assert log[..|log|] == log;
    OutstandingMeans(log);
    if log == [] {
      NothingYet();
    } else {
      var front := log[..|log| - 1];
      WindowedMeans(front);
      assert forall k :: 0 <= k <= |front| ==> front[..k] == log[..k];
    }
  }

  lemma NothingYet()
    ensures AsksIn([]) == {} && BlocksIn([]) == {} && Outstanding([]) == 0
  {
  }

  lemma LogOne(log: seq<Io>, io: Io)
    ensures var all := log + [io];
            && Sends(all) == Sends(log) + (if io.Sent? then [io.msg] else [])
            && Reads(all) == Reads(log) + (if io.Read? then [io.event] else [])
            && Outstanding(all) == Outstanding(log)
                 + (if io.Sent? && io.msg.Ask? then 1 else if io.Read? && IsBlock(io.event) then -1 else 0)
            && (Windowed(all) <==> Windowed(log) && 0 <= Outstanding(all) <= MAX_PIPELINE_REQUESTS)
  {
    assert (log + [io])[..|log|] == log;
  }

  lemma LogNothing(requests: seq<Request>, events: seq<Event>)
    ensures Sends([]) == [] && Reads([]) == [] && Outstanding([]) == 0 && Windowed([])
    ensures Asks(requests[..0]) == [] && BlocksOf(events[..0]) == []
  {
  }

  function CancelLog(reqs: seq<Request>): seq<Io> {
    seq(|reqs|, k requires 0 <= k < |reqs| => Sent(Cancel(reqs[k])))
  }

  lemma {:induction false} LogCancels(log: seq<Io>, reqs: seq<Request>)
    requires Windowed(log) && 0 <= Outstanding(log) <= MAX_PIPELINE_REQUESTS
    ensures var all := log + CancelLog(reqs);
            && Sends(all) == Sends(log) + Cancels(reqs) && Reads(all) == Reads(log)
            && Outstanding(all) == Outstanding(log) && Windowed(all)
  {
    hide Sends, Reads, Outstanding, Windowed, Cancels, CancelLog;
    CancelParts(log, reqs);
    if reqs != [] {
      var n := |reqs| - 1;
      LogCancels(log, reqs[..n]);
      LogOne(log + CancelLog(reqs[..n]), Sent(Cancel(reqs[n])));
      Regroup(Sends(log), Cancels(reqs[..n]), [Cancel(reqs[n])]);
    } else {
      assert Sends(log) + Cancels(reqs) == Sends(log);
    }
  }

  lemma CancelParts(log: seq<Io>, reqs: seq<Request>)
    ensures reqs == [] ==> log + CancelLog(reqs) == log && Cancels(reqs) == []
    ensures reqs != [] ==>
              var n := |reqs| - 1;
              && log + CancelLog(reqs) == log + CancelLog(reqs[..n]) + [Sent(Cancel(reqs[n]))]
              && Cancels(reqs) == Cancels(reqs[..n]) + [Cancel(reqs[n])]
  {
  }

  lemma Regroup(a: seq<Wire>, b: seq<Wire>, c: seq<Wire>)
    ensures a + b + c == a + (b + c)
  {
  }

  class Peer {
    var choked: bool
    var bitfield: array<bv8>
    /** Everything sent on the connection. */
    var sent: seq<Wire>

    constructor (bitfield: array<bv8>)
      ensures this.bitfield == bitfield && !choked && sent == []
    {
      this.bitfield := bitfield;
      choked := false;
      sent := [];
    }

    /**
     * `events` is what the peer sends, and then the connection fails; `closed(k)` is whether the cancel channel is
     * closed when message `k` is about to be read; `broken(k)` whether sending fails after `k` messages sent in all.
     * `log` is the conversation: its messages sent are the growth of `sent`, its messages read are the first `used`
     * events, and at no point of it are more than five requests unanswered.
     */
    method GetBlocks(requests: seq<Request>, events: seq<Event>, closed: nat -> bool, broken: nat -> bool)
      returns (r: Outcome, used: nat, ghost log: seq<Io>)
      modifies this, bitfield
      ensures bitfield == old(bitfield)
      ensures used <= |events| && HavesTaken(old(bitfield[..]), bitfield[..], events[..used])
      ensures choked == if r.Choked? then true else old(choked) && forall k :: 0 <= k < used ==> !events[k].Unchoke?
      ensures r.Got? <==> Succeeds(|requests|, events, closed, broken, old(|sent|))
      ensures !r.Got? ==> |BlocksOf(events[..used])| < |requests|
      ensures r.Failed? ==> FailedBecause(|requests|, events, used, broken, old(|sent|), |Sends(log)|)
      ensures used <= |events| && Reads(log) == events[..used] && sent == old(sent) + Sends(log) && Windowed(log)
      ensures r.Got? ==> AllArrived(requests, events[..used], r.blocks) && Sends(log) == Asks(requests)
      ensures r.Cancelled? ==> closed(used) && OutstandingCancelled(requests, events[..used], Sends(log), |sent|, broken)
      ensures r.Choked? || r.Failed? ==> AskedInOrder(requests, Sends(log))
      ensures !r.Cancelled? ==> OnlyAsks(requests, Sends(log))
      ensures r.Choked? ==> choked && used > 0 && events[used - 1].Choke?
    {
      hide HasPiece, Sends, Reads, Outstanding, Windowed, BlocksOf, Asks, AskedInOrder, OutstandingCancelled, CancelledFrom;
      hide HavesTaken, Smooth, CanSend, Succeeds, FailedBecause, Short, OnlyAsks;
      var numBlocks := |requests|;
      var blocks: seq<seq<byte>> := [];
      var requested := 0;
      used, log := 0, [];
      LogNothing(requests, events);
      NothingRead(old(bitfield[..]), events, closed, broken, |sent|);
      while |blocks| < numBlocks
        invariant bitfield == old(bitfield) && used <= |events|
        invariant HavesTaken(old(bitfield[..]), bitfield[..], events[..used])
        invariant choked == (old(choked) && forall k :: 0 <= k < used ==> !events[k].Unchoke?)
        invariant Smooth(events, used, closed) && CanSend(broken, old(|sent|), requested)
        invariant used <= |events| && blocks == BlocksOf(events[..used]) && Reads(log) == events[..used]
        invariant |blocks| <= requested <= numBlocks && Outstanding(log) == requested - |blocks| <= MAX_PIPELINE_REQUESTS
        invariant Sends(log) == Asks(requests[..requested]) && sent == old(sent) + Sends(log) && Windowed(log)
        decreases |events| - used
      {
        if closed(used) {
          log := Cancelling(requests, |blocks|, requested, broken, old(sent), log);
          CancelledSome(requests, events[..used], requested, Sends(log), |sent|, broken);
          EndedEarly(|requests|, events, used, closed, broken, old(|sent|), requested);
          return Cancelled, used, log;
        }
        var ok;
        ok, requested, log := Fill(requests, |blocks|, requested, broken, old(sent), log);
        AskedSome(requests, requested, Sends(log));
        if !ok {
          NotSent(|requests|, events, used, broken, old(|sent|), requested);
          EndedEarly(|requests|, events, used, closed, broken, old(|sent|), requested);
          return Failed, used, log;
        }
        if used == |events| {
          NothingMore(|requests|, events, broken, old(|sent|), requested);
          EndedEarly(|requests|, events, used, closed, broken, old(|sent|), requested);
          return Failed, used, log;
        }
        var msg := events[used];
        BlocksStep(events, used);
        LogOne(log, Read(msg));
        assert events[..used + 1] == events[..used] + [msg];
        log := log + [Read(msg)];
        used := used + 1;
        AskedSome(requests, requested, Sends(log));
        MessageRead(old(bitfield[..]), bitfield[..], events, used - 1, closed);
        match msg {
          case Piece(payload) =>
            if |payload| < 8 {
              TooShort(|requests|, events, used, broken, old(|sent|), requested);
              EndedEarly(|requests|, events, used, closed, broken, old(|sent|), requested);
              return Failed, used, log;
            }
            blocks := blocks + [payload[8..]];
          case Choke =>
            choked := true;
            EndedEarly(|requests|, events, used, closed, broken, old(|sent|), requested);
            return Choked, used, log;
          case Unchoke =>
            choked := false;
          case Have(index) =>
            TakeHave(index);
          case _ =>
        }
      }
      assert requests[..numBlocks] == requests;
      GotSucceeds(|requests|, events, used, closed, broken, old(|sent|));
      AskedSome(requests, requested, Sends(log));
      r := Got(blocks);
    }

    method TakeHave(index: Option<nat>)
      modifies bitfield
      ensures bitfield[..] == if index.Some? then WithPiece(old(bitfield[..]), index.value) else old(bitfield[..])
    {
      hide HasPiece;
      if index.Some? {
        SetPiece(bitfield, index.value);
      }
    }

    /** The inner loop of `getBlocks`: ask for more until five requests are unanswered. */
    method Fill(requests: seq<Request>, received: nat, start: nat, broken: nat -> bool,
                ghost before: seq<Wire>, ghost log: seq<Io>)
      returns (ok: bool, requested: nat, ghost log': seq<Io>)
      requires received <= start <= |requests| && Outstanding(log) == start - received <= MAX_PIPELINE_REQUESTS
      requires Sends(log) == Asks(requests[..start]) && sent == before + Sends(log) && Windowed(log)
      modifies `sent
      ensures start <= requested <= |requests| && Outstanding(log') == requested - received <= MAX_PIPELINE_REQUESTS
      ensures Sends(log') == Asks(requests[..requested]) && sent == before + Sends(log') && Windowed(log')
      ensures Reads(log') == Reads(log)
      ensures CanSend(broken, |before|, start) ==> CanSend(broken, |before|, requested)
      ensures !ok ==> broken(|before| + requested) && requested < |requests| && requested - received < 5
      ensures ok ==> requested == |requests| || requested - received == MAX_PIPELINE_REQUESTS
    {
      hide Sends, Reads, Outstanding, Windowed;
      requested, log' := start, log;
      while requested < |requests| && requested - received < MAX_PIPELINE_REQUESTS
        invariant start <= requested <= |requests|
        invariant Outstanding(log') == requested - received <= MAX_PIPELINE_REQUESTS && Reads(log') == Reads(log)
        invariant Sends(log') == Asks(requests[..requested]) && sent == before + Sends(log') && Windowed(log')
        invariant CanSend(broken, |before|, start) ==> CanSend(broken, |before|, requested)
      {
        if broken(|sent|) {
          return false, requested, log';
        }
        AskNext(before, requests, requested);
        LogOne(log', Sent(Ask(requests[requested])));
        log' := log' + [Sent(Ask(requests[requested]))];
        sent := sent + [Ask(requests[requested])];
        requested := requested + 1;
      }
      ok := true;
    }

    /** The cancel messages as part of the conversation. */
    method Cancelling(requests: seq<Request>, received: nat, requested: nat, broken: nat -> bool,
                      ghost before: seq<Wire>, ghost log: seq<Io>)
      returns (ghost log': seq<Io>)
      requires received < |requests| && received <= requested <= |requests|
      requires Windowed(log) && 0 <= Outstanding(log) <= MAX_PIPELINE_REQUESTS
      requires Sends(log) == Asks(requests[..requested]) && sent == before + Sends(log)
      modifies `sent
      ensures sent == before + Sends(log') && Reads(log') == Reads(log) && Windowed(log')
      ensures CancelledFrom(Asks(requests[..requested]), requests[received..requested], Sends(log'), |sent|, broken)
    {
      hide Sends, Reads, Outstanding, Windowed;
      CancelInFlight(requests, received, requested, broken);
      ghost var rest := requests[received..requested];
      ghost var k :| 0 <= k <= |rest| && sent == old(sent) + Cancels(rest[..k]) && (k == |rest| || broken(|sent|));
      log' := log + CancelLog(rest[..k]);
      LogCancels(log, rest[..k]);
      Regroup(before, Sends(log), Cancels(rest[..k]));
    }

    /** Cancels what was asked for and not yet received, giving up at the first message that cannot be sent. */
    method CancelInFlight(requests: seq<Request>, received: nat, requested: nat, broken: nat -> bool)
      requires received <= requested <= |requests|
      modifies `sent
      ensures CancelledFrom(old(sent), requests[received..requested], sent, |sent|, broken)
      ensures old(|sent|) <= |sent| <= old(|sent|) + requested - received && sent[..old(|sent|)] == old(sent)
      ensures forall j :: old(|sent|) <= j < |sent| ==> sent[j] == Cancel(requests[received + j - old(|sent|)])
      ensures |sent| < old(|sent|) + requested - received ==> broken(|sent|)
    {
      var i := received;
      assert requests[received..i] == [];
      while i < requested
        invariant received <= i <= requested
        invariant sent == old(sent) + Cancels(requests[received..i])
      {
        if broken(|sent|) {
          CancelPrefix(requests, received, i, requested);
          return;
        }
        CancelNext(old(sent), requests, received, i);
        sent := sent + [Cancel(requests[i])];
        i := i + 1;
      }
      CancelPrefix(requests, received, requested, requested);
      assert requests[received..requested][..requested - received] == requests[received..requested];
    }
  }

  /** Exactly the pieces of the Have messages are added, as far as the field has room. */
  ghost predicate HavesTaken(before: seq<bv8>, after: seq<bv8>, read: seq<Event>) {
    && |after| == |before|
    && forall j :: HasPiece(after, j) <==>
         HasPiece(before, j) || (0 <= j < 8 * |before| && exists k :: 0 <= k < |read| && read[k] == Have(Some(j)))
  }

  lemma NothingRead(field: seq<bv8>, events: seq<Event>, closed: nat -> bool, broken: nat -> bool, before: nat)
    ensures HavesTaken(field, field, events[..0]) && Smooth(events, 0, closed) && CanSend(broken, before, 0)
  {
  }

  /** One more message, and its effect on the field. */
  lemma MessageRead(before: seq<bv8>, field: seq<bv8>, events: seq<Event>, k: nat, closed: nat -> bool)
    requires k < |events| && HavesTaken(before, field, events[..k]) && Smooth(events, k, closed)
    ensures var e := events[k];
            && (!closed(k) && !e.Choke? && !(e.Piece? && |e.payload| < 8) ==> Smooth(events, k + 1, closed))
            && HavesTaken(before, if e.Have? && e.index.Some? then WithPiece(field, e.index.value) else field, events[..k + 1])
  {
    hide HasPiece;
    assert events[..k + 1] == events[..k] + [events[k]];
  }

  lemma NotSent(requests: nat, events: seq<Event>, used: nat, broken: nat -> bool, before: nat, asked: nat)
    requires used <= |events| && broken(before + asked) && asked < requests && asked - |BlocksOf(events[..used])| < 5
    ensures FailedBecause(requests, events, used, broken, before, asked)
  {
  }

  lemma NothingMore(requests: nat, events: seq<Event>, broken: nat -> bool, before: nat, asked: nat)
    ensures FailedBecause(requests, events, |events|, broken, before, asked)
  {
  }

  lemma TooShort(requests: nat, events: seq<Event>, used: nat, broken: nat -> bool, before: nat, asked: nat)
    requires 0 < used <= |events| && events[used - 1].Piece? && |events[used - 1].payload| < 8
    ensures FailedBecause(requests, events, used, broken, before, asked)
  {
  }

  ghost predicate AllArrived(requests: seq<Request>, read: seq<Event>, blocks: seq<seq<byte>>) {
    blocks == BlocksOf(read) && |blocks| == |requests|
  }

  /** The first so many requests were asked for, in order, and nothing else was sent. */
  ghost predicate AskedInOrder(requests: seq<Request>, sends: seq<Wire>) {
    exists q :: 0 <= q <= |requests| && sends == Asks(requests[..q])
  }

  /**
   * The first so many requests were asked for, and then exactly those that no block had come for were cancelled;
   * `total` is how many messages the connection carried in all.
   */
  ghost predicate OutstandingCancelled(requests: seq<Request>, read: seq<Event>, sends: seq<Wire>, total: nat,
                                       broken: nat -> bool) {
    var received := |BlocksOf(read)|;
    exists q :: received <= q <= |requests|
      && CancelledFrom(Asks(requests[..q]), requests[received..q], sends, total, broken)
  }

  /** Exactly the given requests were cancelled, in order, as far as messages could be sent. */
  ghost predicate CancelledFrom(before: seq<Wire>, outstanding: seq<Request>, sends: seq<Wire>, total: nat,
                                broken: nat -> bool) {
    exists k :: 0 <= k <= |outstanding| && sends == before + Cancels(outstanding[..k])
      && (k == |outstanding| || broken(total))
  }

  /** Each message is a request, the first so many in order. */
  ghost predicate OnlyAsks(requests: seq<Request>, sends: seq<Wire>) {
    |sends| <= |requests| && forall k :: 0 <= k < |sends| ==> sends[k] == Ask(requests[k])
  }

  lemma AskedSome(requests: seq<Request>, q: nat, sends: seq<Wire>)
    requires q <= |requests| && sends == Asks(requests[..q])
    ensures AskedInOrder(requests, sends)
    ensures OnlyAsks(requests, sends)
  {
  }

  lemma CancelledSome(requests: seq<Request>, read: seq<Event>, q: nat, sends: seq<Wire>, total: nat, broken: nat -> bool)
    requires |BlocksOf(read)| <= q <= |requests|
    requires CancelledFrom(Asks(requests[..q]), requests[|BlocksOf(read)|..q], sends, total, broken)
    ensures OutstandingCancelled(requests, read, sends, total, broken)
  {
    hide BlocksOf, CancelledFrom;
  }

  lemma AskNext(before: seq<Wire>, requests: seq<Request>, k: nat)
    requires k < |requests|
    ensures before + Asks(requests[..k]) + [Ask(requests[k])] == before + Asks(requests[..k + 1])
  {
    assert Asks(requests[..k + 1]) == Asks(requests[..k]) + [Ask(requests[k])];
  }

  lemma CancelNext(before: seq<Wire>, requests: seq<Request>, lo: nat, k: nat)
    requires lo <= k < |requests|
    ensures before + Cancels(requests[lo..k]) + [Cancel(requests[k])] == before + Cancels(requests[lo..k + 1])
  {
    assert Cancels(requests[lo..k + 1]) == Cancels(requests[lo..k]) + [Cancel(requests[k])];
  }

  lemma CancelPrefix(requests: seq<Request>, lo: nat, k: nat, hi: nat)
    requires lo <= k <= hi <= |requests|
    ensures requests[lo..hi][..k - lo] == requests[lo..k]
  {
  }

  // ----- Serving -----

  /** `Fault` stands for the run-time panic of a slice expression whose bounds are out of order. */
  datatype Served = Block(bytes: seq<byte>) | Unavailable | Fault

  /** `GetBlock` on the bytes of the piece, if it is there; the sum wraps around. */
  function GetBlock(data: Option<seq<byte>>, begin: uint32, length: uint32): Served {
    if data.None? then Unavailable
    else
      var end := (begin + length) % UINT32;
      if begin >= |data.value| || end > |data.value| then Unavailable
      else if end < begin then Fault
      else Block(data.value[begin..end])
  }

  /** Exactly when a block is served, and which; and exactly when the slice bounds come out of order. */
  lemma GetBlockMeaning(data: seq<byte>, begin: uint32, length: uint32)
    requires |data| <= UINT32
    ensures var r := GetBlock(Some(data), begin, length);
            && (r.Block? <==> begin < |data| && begin + length <= |data| && begin + length < 0x1_0000_0000)
            && (r.Block? ==> r.bytes == data[begin..begin + length])
            && (r.Fault? <==> begin < |data| && begin + length >= 0x1_0000_0000)
  {
    if begin + length >= UINT32 {
      assert (begin + length) % UINT32 == begin + length - UINT32;
    }
  }

  /** `HandleRequest` once unchoked, with the payload split into its three numbers: no answer, or a block. */
  function Answer(data: Option<seq<byte>>, begin: uint32, length: uint32): Served {
    if length > MAX_BLOCK then Unavailable else GetBlock(data, begin, length)
  }

  /** A request for more than 128 KiB is not answered; any other exactly as the block is there. */
  lemma AnswerMeans(data: seq<byte>, begin: uint32, length: uint32)
    requires |data| <= 0x1_0000_0000
    ensures Answer(None, begin, length) == Unavailable
    ensures var r := Answer(Some(data), begin, length);
            && (r.Block? <==> length <= 131072 && begin + length <= |data| && begin < |data| && begin + length < 0x1_0000_0000)
            && (r.Block? ==> r.bytes == data[begin..begin + length])
            && (r.Fault? <==> length <= 131072 && begin < |data| && begin + length >= 0x1_0000_0000)
  {
    GetBlockMeaning(data, begin, length);
  }

  /** With the length limit, pieces up to 4 GiB less 128 KiB never make the bounds come out of order. */
  lemma AnswerNeverFaults(data: seq<byte>, begin: uint32, length: uint32)
    requires |data| <= UINT32 - MAX_BLOCK
    ensures !Answer(Some(data), begin, length).Fault?
  {
    if length <= MAX_BLOCK {
      GetBlockMeaning(data, begin, length);
    }
  }

  /** So some request makes them come out of order exactly if the piece is longer than that. */
  lemma AnswerFaultsIff(data: seq<byte>)
    requires |data| <= UINT32
    ensures (exists begin: uint32, length: uint32 :: Answer(Some(data), begin, length).Fault?)
            <==> |data| > 0x1_0000_0000 - 131072
  {
    if |data| > UINT32 - MAX_BLOCK {
      var begin: uint32, length: uint32 := UINT32 - MAX_BLOCK, MAX_BLOCK;
      GetBlockMeaning(data, begin, length);
      assert Answer(Some(data), begin, length).Fault?;
    } else {
      forall begin: uint32, length: uint32 ensures !Answer(Some(data), begin, length).Fault? {
        AnswerNeverFaults(data, begin, length);
      }
    }
  }

  // ----- Reassembly -----

  function Concat(blocks: seq<seq<byte>>): seq<byte> {
    if blocks == [] then [] else Concat(blocks[..|blocks| - 1]) + blocks[|blocks| - 1]
  }

  /** Every tile of a piece is served, and the blocks in request order are the piece. */
  lemma {:induction false} ServedTiles(reqs: seq<Request>, index: uint32, data: seq<byte>, length: nat, blocks: seq<seq<byte>>)
    requires Tiles(reqs, index, length) && length <= |data| < UINT32 && |blocks| == |reqs|
    requires forall k :: 0 <= k < |reqs| ==>
               Answer(Some(data), reqs[k].begin, reqs[k].length) == Block(blocks[k])
               || !Answer(Some(data), reqs[k].begin, reqs[k].length).Block?
    ensures forall k :: 0 <= k < |reqs| ==> Answer(Some(data), reqs[k].begin, reqs[k].length) == Block(blocks[k])
    ensures Concat(blocks) == data[..length]
  {
    hide Answer;
    if reqs != [] {
      var n := |reqs| - 1;
      var last := reqs[n];
      TilesFront(reqs, index, length);
      forall k | 0 <= k < n
        ensures reqs[..n][k] == reqs[k] && blocks[..n][k] == blocks[k]
      {
      }
      ServedTiles(reqs[..n], index, data, last.begin, blocks[..n]);
      TileServed(data, last);
      assert blocks[n] == data[last.begin..length];
      assert data[..length] == data[..last.begin] + data[last.begin..length];
    }
  }

  lemma TileServed(data: seq<byte>, r: Request)
    requires |data| < UINT32 && 0 < r.length <= BLOCK_SIZE && r.begin + r.length <= |data|
    ensures Answer(Some(data), r.begin, r.length) == Block(data[r.begin..r.begin + r.length])
  {
    GetBlockMeaning(data, r.begin, r.length);
  }

  /** A peer that answers the requests of one piece in order sends the piece. */
  lemma InOrderReassembly(reqs: seq<Request>, index: uint32, data: seq<byte>, blocks: seq<seq<byte>>)
    requires Tiles(reqs, index, |data|) && |data| < UINT32 && |blocks| == |reqs|
    requires forall k :: 0 <= k < |reqs| && Answer(Some(data), reqs[k].begin, reqs[k].length).Block? ==>
               blocks[k] == Answer(Some(data), reqs[k].begin, reqs[k].length).bytes
    ensures forall k :: 0 <= k < |reqs| ==> Answer(Some(data), reqs[k].begin, reqs[k].length).Block?
    ensures Concat(blocks) == data
  {
    ServedTiles(reqs, index, data, |data|, blocks);
    assert data[..|data|] == data;
  }

  datatype PieceResult = Verified(piece: seq<byte>) | WrongHash | NotFetched(why: Outcome)

  /** `GetPiece`; `hashes` says whether bytes have the piece's hash. */
  method GetPiece(peer: Peer, hashes: seq<byte> -> bool, pieceLength: uint32, pieceIndex: uint32,
                  events: seq<Event>, closed: nat -> bool, broken: nat -> bool)
    returns (r: PieceResult, ghost requests: seq<Request>, ghost used: nat)
    modifies peer, peer.bitfield
    ensures Tiles(requests, pieceIndex, pieceLength) && used <= |events|
    ensures !r.NotFetched? ==>
              var piece := Concat(BlocksOf(events[..used]));
              |BlocksOf(events[..used])| == |requests| && r == if hashes(piece) then Verified(piece) else WrongHash
    ensures r.NotFetched? <==> !Succeeds(|requests|, events, closed, broken, old(|peer.sent|))
    ensures r.NotFetched? ==> !r.why.Got?
    ensures r.NotFetched? && r.why.Cancelled? ==> closed(used)
  {
    var reqs := BlockRequests(pieceLength, pieceIndex);
    requests := reqs;
    var outcome, u, _ := peer.GetBlocks(reqs, events, closed, broken);
    used := u;
    match outcome {
      case Got(blocks) =>
        var piece: seq<byte> := [];
        for i := 0 to |blocks|
          invariant piece == Concat(blocks[..i])
        {
          assert blocks[..i + 1][..i] == blocks[..i];
          piece := piece + blocks[i];
        }
        assert blocks[..|blocks|] == blocks;
        r := if hashes(piece) then Verified(piece) else WrongHash;
      case _ =>
        r := NotFetched(outcome);
    }
  }
}
