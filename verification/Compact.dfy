/** internal/dht/dht.go:1311-1364: 26 bytes a node, as BEP 5 lays them out in "Contact Encoding". */
module CompactNodes {
  import opened Bytes
  import opened Value
  import opened Buckets

  const RECORD := 26

  function ToByte(b: bv8): byte {
    b as byte
  }

  function FromByte(b: byte): bv8 {
    b as bv8
  }

  lemma ByteRound(x: bv8)
    ensures FromByte(ToByte(x)) == x
  {
  }

  lemma ByteIs(b: bv8)
    ensures ToByte(b) == b as byte
  {
  }

  function ToBytes(s: seq<bv8>): (r: seq<byte>)
    ensures |r| == |s| && forall k :: 0 <= k < |s| ==> r[k] == ToByte(s[k])
  {
    seq(|s|, k requires 0 <= k < |s| => ToByte(s[k]))
  }

  function FromBytes(s: seq<byte>): (r: seq<bv8>)
    ensures |r| == |s| && forall k :: 0 <= k < |s| ==> r[k] == FromByte(s[k])
  {
    seq(|s|, k requires 0 <= k < |s| => FromByte(s[k]))
  }

  lemma BytesRound(s: seq<bv8>)
    ensures FromBytes(ToBytes(s)) == s
  {
    hide ToByte, FromByte;
    forall k | 0 <= k < |s| ensures FromByte(ToByte(s[k])) == s[k] {
      ByteRound(s[k]);
    }
  }

  /** `binary.BigEndian.PutUint16`. */
  function High(p: Port): byte {
    (p / 256) as byte
  }

  function Low(p: Port): byte {
    (p % 256) as byte
  }

  /** `binary.BigEndian.Uint16`. */
  function Uint16(high: byte, low: byte): Port {
    256 * high as int + low as int
  }

  lemma PortRound(p: Port)
    ensures Uint16(High(p), Low(p)) == p
  {
  }

  function RecordOf(n: Node): (r: seq<byte>)
    ensures |r| == RECORD
  {
    ToBytes(n.id) + n.addr.ip + [High(n.addr.port), Low(n.addr.port)]
  }

  function Compact(nodes: seq<Node>): (r: seq<byte>)
    ensures |r| == RECORD * |nodes|
  {
    if nodes == [] then [] else Compact(nodes[..|nodes| - 1]) + RecordOf(nodes[|nodes| - 1])
  }

  /** A parsed node carries the time it was read at; its other fields are Go's zero values. */
  function ParseRecord(r: seq<byte>, now: int): Node
    requires |r| == RECORD
  {
    Node(FromBytes(r[..20]), Addr(r[20..24], Uint16(r[24], r[25])), now, false, 0)
  }

  /** The first `k` records; `clock(i)` is the time at which record `i` is read. */
  function ParseRecords(data: seq<byte>, clock: nat -> int, k: nat): (nodes: seq<Node>)
    requires RECORD * k <= |data|
    ensures |nodes| == k
  {
    if k == 0 then []
    else ParseRecords(data, clock, k - 1) + [ParseRecord(data[RECORD * (k - 1)..RECORD * k], clock(k - 1))]
  }

  /** The bytes of a string or byte slice; nothing else is parsed. */
  function Text(raw: Option<Value>): Option<seq<byte>> {
    match raw
    case Some(Str(s)) => Some(s)
    case Some(Raw(s)) => Some(s)
    case _ => None
  }

  function Parse(raw: Option<Value>, clock: nat -> int): seq<Node> {
    match Text(raw)
    case None => []
    case Some(data) => if |data| % RECORD != 0 then [] else ParseRecords(data, clock, |data| / RECORD)
  }

  // ----- The source's buffers -----

  method EncodeNodes(nodes: seq<Node>) returns (r: seq<byte>)
    ensures r == Compact(nodes)
  {
    hide RecordOf, ToByte, High, Low, Compact;
    CompactNone();
    var buf := new byte[RECORD * |nodes|](_ => 0);
    for i := 0 to |nodes|
      invariant buf[..RECORD * i] == Compact(nodes[..i])
    {
      label start:
      PutRecord(buf, i * RECORD, nodes[i]);
      CompactStep(nodes, i);
      assert buf[..RECORD * i] == old@start(buf[..RECORD * i]);
      assert buf[..RECORD * i + RECORD] == buf[..RECORD * i] + buf[RECORD * i..RECORD * i + RECORD];
    }
    assert nodes[..|nodes|] == nodes;
    r := buf[..];
    assert r == buf[..RECORD * |nodes|];
  }

  /** The copies of one record into its place. */
  method PutRecord(buf: array<byte>, off: nat, n: Node)
    requires off + RECORD <= buf.Length
    modifies buf
    ensures buf[off..off + RECORD] == RecordOf(n)
    ensures forall k :: 0 <= k < buf.Length && !(off <= k < off + RECORD) ==> buf[k] == old(buf[k])
  {
    hide RecordOf, ToByte, High, Low;
    var id, ip := n.id, n.addr.ip;
    forall k | 0 <= k < 20 {
      buf[off + k] := ToByte(id[k]);
    }
    forall k | 0 <= k < 4 {
      buf[off + 20 + k] := ip[k];
    }
    buf[off + 24], buf[off + 25] := High(n.addr.port), Low(n.addr.port);
    RecordAt(buf[..], off, n);
    assert buf[..][off..off + RECORD] == buf[off..off + RECORD];
  }

  lemma RecordAt(b: seq<byte>, off: nat, n: Node)
    requires off + RECORD <= |b|
    requires forall k :: 0 <= k < 20 ==> b[off + k] == ToByte(n.id[k])
    requires forall k :: 0 <= k < 4 ==> b[off + 20 + k] == n.addr.ip[k]
    requires b[off + 24] == High(n.addr.port) && b[off + 25] == Low(n.addr.port)
    ensures b[off..off + RECORD] == RecordOf(n)
  {
    hide ToByte, High, Low;
    var s := b[off..off + RECORD];
    assert forall k :: 0 <= k < 20 ==> s[k] == b[off + k];
    assert s[..20] == ToBytes(n.id);
    assert forall k :: 0 <= k < 4 ==> s[20..24][k] == b[off + 20 + k];
    assert s[20..24] == n.addr.ip;
    assert s[24] == b[off + 24] && s[25] == b[off + 25];
    assert s == s[..20] + s[20..24] + [s[24], s[25]];
  }

  lemma CompactNone()
    ensures Compact([]) == []
  {
  }

  lemma CompactStep(nodes: seq<Node>, i: nat)
    requires i < |nodes|
    ensures Compact(nodes[..i + 1]) == Compact(nodes[..i]) + RecordOf(nodes[i])
  {
    assert nodes[..i + 1][..i] == nodes[..i];
  }

  /** The node at offset `off`: identifier, address and port as they stand there, and fresh bookkeeping. */
  ghost predicate NodeAt(data: seq<byte>, off: nat, n: Node, now: int)
    requires off + 26 <= |data|
  {
    && (forall k :: 0 <= k < 20 ==> n.id[k] == data[off + k] as bv8)
    && (forall k :: 0 <= k < 4 ==> n.addr.ip[k] == data[off + 20 + k])
    && n.addr.port == 256 * data[off + 24] as int + data[off + 25] as int
    && n.lastSeen == now && !n.compliant && n.failCount == 0
  }

  /** A string or byte slice is read only if it is whole records of 26 bytes, and then every record, in order. */
  ghost predicate ReadFrom(raw: Option<Value>, clock: nat -> int, nodes: seq<Node>) {
    if raw.Some? && (raw.value.Str? || raw.value.Raw?) then
      var data := if raw.value.Str? then raw.value.s else raw.value.b;
      if |data| % 26 != 0 then nodes == []
      else |nodes| == |data| / 26 && forall i :: 0 <= i < |nodes| ==> NodeAt(data, 26 * i, nodes[i], clock(i))
    else nodes == []
  }

  lemma ParseMeans(raw: Option<Value>, clock: nat -> int)
    ensures ReadFrom(raw, clock, Parse(raw, clock))
  {
    hide ParseRecords, NodeAt;
    if Text(raw).Some? {
      var data := Text(raw).value;
      if |data| % 26 == 0 {
        forall i | 0 <= i < |data| / 26 ensures NodeAt(data, 26 * i, ParseRecords(data, clock, |data| / 26)[i], clock(i)) {
          ParsedAt(data, clock, |data| / 26, i);
        }
      }
    }
  }

  lemma {:induction false} ParsedAt(data: seq<byte>, clock: nat -> int, k: nat, i: nat)
    requires i < k && 26 * k <= |data|
    ensures NodeAt(data, 26 * i, ParseRecords(data, clock, k)[i], clock(i))
  {
    hide NodeAt, ParseRecord;
    if i < k - 1 {
      ParsedAt(data, clock, k - 1, i);
    } else {
      RecordMeans(data, 26 * i, clock(i));
    }
  }

  lemma RecordMeans(data: seq<byte>, off: nat, now: int)
    requires off + 26 <= |data|
    ensures NodeAt(data, off, ParseRecord(data[off..off + 26], now), now)
  {
    var r := data[off..off + 26];
    assert forall k :: 0 <= k < 26 ==> r[k] == data[off + k];
    assert forall k :: 0 <= k < 20 ==> r[..20][k] == r[k];
    assert forall k :: 0 <= k < 4 ==> r[20..24][k] == r[20 + k];
  }

  method ParseCompactNodes(raw: Option<Value>, clock: nat -> int) returns (nodes: seq<Node>)
    ensures nodes == Parse(raw, clock) && ReadFrom(raw, clock, nodes)
  {
    hide FromBytes, Uint16, ParseRecord, ParseRecords, ReadFrom;
    ParseMeans(raw, clock);
    var data: seq<byte>;
    match raw {
      case Some(Str(s)) => data := s;
      case Some(Raw(s)) => data := s;
      case _ => return [];
    }
    if |data| % RECORD != 0 {
      return [];
    }
    nodes := [];
    var i := 0;
    ghost var k := 0;
    ParseNone(data, clock);
    while i + RECORD <= |data|
      invariant i == RECORD * k <= |data|
      invariant nodes == ParseRecords(data, clock, k)
    {
      ParseStep(data, clock, k);
      var id := FromBytes(data[i..i + 20]);
      var ip := data[i + 20..i + 24];
      var port := Uint16(data[i + 24], data[i + 25]);
      nodes := nodes + [Node(id, Addr(ip, port), clock(|nodes|), false, 0)];
      k := k + 1;
      i := i + RECORD;
    }
    WholeRecords(data, k);
  }

  lemma ParseNone(data: seq<byte>, clock: nat -> int)
    ensures ParseRecords(data, clock, 0) == []
  {
  }

  lemma ParseStep(data: seq<byte>, clock: nat -> int, k: nat)
    requires RECORD * (k + 1) <= |data|
    ensures var i := RECORD * k;
            ParseRecords(data, clock, k + 1) == ParseRecords(data, clock, k)
              + [Node(FromBytes(data[i..i + 20]), Addr(data[i + 20..i + 24], Uint16(data[i + 24], data[i + 25])), clock(k), false, 0)]
  {
    hide FromBytes, Uint16;
    var i := RECORD * k;
    var record := data[i..i + RECORD];
    SliceOfSlice(data, i, RECORD, 0, 20);
    SliceOfSlice(data, i, RECORD, 20, 24);
  }

  lemma WholeRecords(data: seq<byte>, k: nat)
    requires RECORD * k <= |data| < RECORD * (k + 1)
    ensures |data| / RECORD == k
  {
  }

  /** Twenty identifier bytes, four address bytes, and the port in network order, one record after the other. */
  lemma {:induction false} Layout(nodes: seq<Node>, i: nat)
    requires i < |nodes|
    ensures var r, off, n := Compact(nodes), 26 * i, nodes[i];
            && |r| == 26 * |nodes|
            && (forall k :: 0 <= k < 20 ==> r[off + k] == n.id[k] as byte)
            && (forall k :: 0 <= k < 4 ==> r[off + 20 + k] == n.addr.ip[k])
            && 256 * r[off + 24] as int + r[off + 25] as int == n.addr.port
    decreases |nodes|
  {
    hide RecordOf;
    var last := |nodes| - 1;
    var front := Compact(nodes[..last]);
    if i < last {
      Layout(nodes[..last], i);
      assert forall k :: 0 <= k < |front| ==> Compact(nodes)[k] == front[k];
    } else {
      RecordParts(nodes[i]);
      assert forall k :: 0 <= k < 26 ==> Compact(nodes)[26 * i + k] == RecordOf(nodes[i])[k];
    }
  }

  lemma RecordParts(n: Node)
    ensures var r := RecordOf(n);
            && |r| == 26 && (forall k :: 0 <= k < 20 ==> r[k] == n.id[k] as byte)
            && (forall k :: 0 <= k < 4 ==> r[20 + k] == n.addr.ip[k])
            && 256 * r[24] as int + r[25] as int == n.addr.port
  {
    hide ToByte;
    forall k | 0 <= k < 20 ensures ToByte(n.id[k]) == n.id[k] as byte {
      ByteIs(n.id[k]);
    }
  }

  // ----- Parsing undoes formatting, and formatting undoes parsing -----

  /** What survives in a record: the contact, with fresh bookkeeping. */
  function Renewed(n: Node, now: int): Node {
    Node(n.id, n.addr, now, false, 0)
  }

  lemma RecordRound(n: Node, now: int)
    ensures ParseRecord(RecordOf(n), now) == Renewed(n, now)
  {
    hide ToByte, FromByte, High, Low, Uint16;
    BytesRound(n.id);
    PortRound(n.addr.port);
    var r := RecordOf(n);
    assert r[..20] == ToBytes(n.id) && r[20..24] == n.addr.ip;
  }

  lemma {:induction false} ParseCompactFrom(nodes: seq<Node>, clock: nat -> int, data: seq<byte>)
    requires RECORD * |nodes| <= |data| && data[..RECORD * |nodes|] == Compact(nodes)
    ensures var p := ParseRecords(data, clock, |nodes|);
            forall i :: 0 <= i < |nodes| ==> p[i] == Renewed(nodes[i], clock(i))
  {
    hide RecordOf, ParseRecord;
    if nodes != [] {
      var k := |nodes| - 1;
      var all := data[..RECORD * |nodes|];
      assert all[..RECORD * k] == Compact(nodes[..k]);
      assert all[..RECORD * k] == data[..RECORD * k];
      ParseCompactFrom(nodes[..k], clock, data);
      assert all[RECORD * k..] == data[RECORD * k..RECORD * (k + 1)];
      assert all[RECORD * k..] == RecordOf(nodes[k]);
      RecordRound(nodes[k], clock(k));
    }
  }

  /** Every node list comes back as the same contacts in the same order. */
  lemma ParseOfCompact(nodes: seq<Node>, clock: nat -> int, raw: Option<Value>)
    requires Text(raw) == Some(Compact(nodes))
    ensures var p := Parse(raw, clock);
            |p| == |nodes| && forall i :: 0 <= i < |nodes| ==> p[i] == Renewed(nodes[i], clock(i))
  {
    hide Compact, ParseRecords;
    var data := Compact(nodes);
    assert |data| == RECORD * |nodes|;
    WholeRecords(data, |nodes|);
    assert data[..RECORD * |nodes|] == data;
    ParseCompactFrom(nodes, clock, data);
  }
}
