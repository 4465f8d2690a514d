/** internal/dht/dht.go:652-729: the saved state, and that loading it gives back what was saved. */
module Persistence {
  import opened Bytes
  import opened Sets
  import opened Decimal
  import opened KeyOrder
  import opened Value
  import opened Decoder
  import opened RoundTrip
  import opened NodeIDs
  import opened Buckets
  import opened Tables
  import opened RoutingTables
  import opened Rebuild
  import opened CompactNodes
  import opened Grammar

  const KEY_ID: Key := [105, 100]
  const KEY_NODES: Key := [110, 111, 100, 101, 115]
  const KEY_EXTERNAL_IP: Key := [101, 120, 116, 101, 114, 110, 97, 108, 95, 105, 112]

  /** The dictionary `Save` encodes. */
  function StateDict(self: NodeID, nodes: seq<Node>, externalIP: Option<IPv4>): Value {
    var d := map[KEY_ID := Str(ToBytes(self)), KEY_NODES := Str(Compact(nodes))];
    Dict(if externalIP.Some? then d[KEY_EXTERNAL_IP := Str(externalIP.value)] else d)
  }

  datatype Loaded = NoState | State(id: NodeID, nodes: seq<Node>, externalIP: Option<IPv4>)

  function Entry(v: Value, k: Key): Option<Value>
    requires v.Dict?
  {
    if k in v.entries then Some(v.entries[k]) else None
  }

  /** What `loadRoutingTable` reads out of a decoded file. */
  function StateOf(v: Value, clock: nat -> int): Loaded {
    if !v.Dict? then NoState
    else
      match Text(Entry(v, KEY_ID))
      case None => NoState
      case Some(id) =>
        if |id| != 20 then NoState
        else
          var ip := match Text(Entry(v, KEY_EXTERNAL_IP))
                    case Some(b) => if |b| == 4 then Some(b) else None
                    case None => None;
          State(FromBytes(id), Parse(Entry(v, KEY_NODES), clock), ip)
  }

  method LoadRoutingTable(data: seq<byte>, clock: nat -> int) returns (r: Loaded)
    ensures var decoded := DecValue(data, 0, 0);
            r == if decoded.Ok? then StateOf(decoded.value, clock) else NoState
  {
    var decoded := Decode(data);
    if decoded.Err? {
      return NoState;
    }
    var v := decoded.value;
    if !v.Dict? {
      return NoState;
    }
    var id := Text(Entry(v, KEY_ID));
    if id.None? || |id.value| != 20 {
      return NoState;
    }
    var nodes := ParseCompactNodes(Entry(v, KEY_NODES), clock);
    var ip: Option<IPv4> := None;
    if KEY_EXTERNAL_IP in v.entries {
      var ipBytes: seq<byte> := [];
      match v.entries[KEY_EXTERNAL_IP] {
        case Str(s) => ipBytes := s;
        case Raw(s) => ipBytes := s;
        case _ =>
      }
      if |ipBytes| == 4 {
        ip := Some(ipBytes);
      }
    }
    r := State(FromBytes(id.value), nodes, ip);
  }

  // ----- The file is decoded as it was written -----

  lemma TextSurvives(s: seq<byte>)
    ensures Text(Some(Norm(Str(s)))) == Some(s)
  {
  }

  lemma StateOfSaved(self: NodeID, nodes: seq<Node>, externalIP: Option<IPv4>, clock: nat -> int)
    ensures var v := Norm(StateDict(self, nodes, externalIP));
            && v.Dict?
            && Text(Entry(v, KEY_NODES)) == Some(Compact(nodes))
            && StateOf(v, clock) == State(self, Parse(Entry(v, KEY_NODES), clock), externalIP)
  {
    hide Parse, Utf8Valid, ToBytes, FromBytes, Compact, Text, NodeIDs.Bit;
    var d := StateDict(self, nodes, externalIP);
    BytesRound(self);
    TextSurvives(ToBytes(self));
    TextSurvives(Compact(nodes));
    DistinctKeys();
    assert Norm(d).entries[KEY_ID] == Norm(Str(ToBytes(self)));
    assert Norm(d).entries[KEY_NODES] == Norm(Str(Compact(nodes)));
    if externalIP.Some? {
      TextSurvives(externalIP.value);
      assert Norm(d).entries[KEY_EXTERNAL_IP] == Norm(Str(externalIP.value));
    } else {
      assert KEY_EXTERNAL_IP !in Norm(d).entries;
      assert Text(None).None? by { NoText(); }
    }
  }

  lemma NoText()
    ensures Text(None) == None
  {
  }

  lemma DistinctKeys()
    ensures KEY_ID != KEY_NODES && KEY_ID != KEY_EXTERNAL_IP && KEY_NODES != KEY_EXTERNAL_IP
  {
    assert |KEY_ID| == 2 && |KEY_NODES| == 5 && |KEY_EXTERNAL_IP| == 11;
  }

  // ----- The file is small enough for Go's `int` -----

  lemma {:induction false} DigitsLength(n: nat)
    ensures |Digits(n)| <= n + 1
  {
    if n >= 10 { DigitsLength(n / 10); }
  }

  lemma EncStrLength(s: seq<byte>)
    ensures |EncStr(s)| <= 2 * |s| + 2
  {
    DigitsLength(|s|);
  }

  lemma {:induction false} EntriesLength(v: Value, ks: seq<Key>, c: nat)
    requires EntriesSupported(v, ks)
    requires forall i :: 0 <= i < |ks| ==> |EncStr(ks[i])| + |Enc(v.entries[ks[i]])| <= c
    ensures |EncEntries(v, ks)| <= c * |ks|
  {
    hide EncStr, Enc, Supported;
    if ks != [] {
      EntriesLength(v, ks[1..], c);
      assert EntriesSupported(v, [ks[0]]);
    }
  }

  lemma {:induction false} SortedKeysSize(s: set<Key>)
    ensures |SortedKeys(s)| == |s|
    decreases |s|
  {
    if s != {} {
      var ks := SortedKeys(s);
      var m := ks[0];
      assert m in s && ks[1..] == SortedKeys(s - {m}) by {
        LeastExists(s);
      }
      SortedKeysSize(s - {m});
    }
  }

  lemma StateSupported(self: NodeID, nodes: seq<Node>, externalIP: Option<IPv4>)
    ensures var d := StateDict(self, nodes, externalIP); Supported(d) && Height(d) <= 1
  {
    hide ToBytes, Compact;
    var d := StateDict(self, nodes, externalIP);
    FlatDict(d, SortedKeys(d.entries.Keys));
  }

  lemma {:induction false} FlatDict(v: Value, ks: seq<Key>)
    requires v.Dict? && forall i :: 0 <= i < |ks| ==> ks[i] in v.entries && v.entries[ks[i]].Str?
    ensures HeightEntries(v, ks) == 0
  {
    if ks != [] { FlatDict(v, ks[1..]); }
  }

  lemma StateKeys(self: NodeID, nodes: seq<Node>, externalIP: Option<IPv4>)
    ensures var d := StateDict(self, nodes, externalIP);
            |d.entries.Keys| <= 3 && forall k :: k in d.entries ==> k in {KEY_ID, KEY_NODES, KEY_EXTERNAL_IP}
  {
    hide ToBytes, Compact;
    var d := StateDict(self, nodes, externalIP);
    var all := {KEY_ID, KEY_NODES, KEY_EXTERNAL_IP};
    assert d.entries.Keys <= all;
    SubsetSize(d.entries.Keys, all);
  }

  /** Some 66 kilobytes at most for 1263 nodes; any bound below 2^63 will do. */
  lemma StateSize(self: NodeID, nodes: seq<Node>, externalIP: Option<IPv4>)
    requires |nodes| <= 1263
    ensures var d := StateDict(self, nodes, externalIP); Supported(d) && |Enc(d)| <= INT_MAX
  {
    hide ToBytes, Compact, EncStr, Height;
    var d := StateDict(self, nodes, externalIP);
    StateSupported(self, nodes, externalIP);
    StateKeys(self, nodes, externalIP);
    var ks := SortedKeys(d.entries.Keys);
    SortedKeysSize(d.entries.Keys);
    forall i | 0 <= i < |ks| ensures |EncStr(ks[i])| + |Enc(d.entries[ks[i]])| <= 100000 {
      EncStrLength(ks[i]);
      EncStrLength(d.entries[ks[i]].s);
    }
    EntriesLength(d, ks, 100000);
  }

  // ----- Main result -----

  /**
   * Loading what `Save` wrote gives the identifier and the external address back; inserting the loaded nodes one by
   * one into a fresh table refuses none and rebuilds every bucket, same contacts in the same order.
   */
  lemma SaveThenLoad(t: Table, externalIP: Option<IPv4>, clock: nat -> int)
    requires Inv(t)
    ensures var d := StateDict(t.self, Flat(t.buckets, ID_BITS), externalIP);
            && Supported(d)
            && DecValue(Enc(d), 0, 0) == Ok(Norm(d), |Enc(d)|)
            && var s := StateOf(Norm(d), clock);
               && s.State? && s.id == t.self && s.externalIP == externalIP
               && |s.nodes| == Count(t.buckets, ID_BITS)
               && (forall k :: 0 <= k < |s.nodes| ==> Accepts(InsertAll(Empty(s.id), s.nodes[..k]), s.nodes[k]))
               && (forall b :: 0 <= b < ID_BITS ==>
                    SameContacts(InsertAll(Empty(s.id), s.nodes).buckets[b], t.buckets[b]))
  {
    hide StateOf, Norm, Enc, Supported, Flat, StateDict, InsertAll, Accepts, SameContacts, BucketInv;
    LoadsBack(t, t.self, externalIP, clock);
    SnapshotRebuilds(t, StateOf(Norm(StateDict(t.self, Flat(t.buckets, ID_BITS), externalIP)), clock).nodes);
  }

  /** The snapshot of a table comes back from a file, whatever identifier and address are saved with it. */
  lemma LoadsBack(t: Table, id: NodeID, externalIP: Option<IPv4>, clock: nat -> int)
    requires Inv(t)
    ensures var d := StateDict(id, Flat(t.buckets, ID_BITS), externalIP);
            && Supported(d)
            && DecValue(Enc(d), 0, 0) == Ok(Norm(d), |Enc(d)|)
            && var s := StateOf(Norm(d), clock);
               && s.State? && s.id == id && s.externalIP == externalIP
               && |s.nodes| == Count(t.buckets, ID_BITS) && SameContacts(s.nodes, Flat(t.buckets, ID_BITS))
  {
    hide StateOf, Norm, Enc, Height, Parse, Compact, StateDict, SameContacts, Supported, BucketInv;
    var nodes := Flat(t.buckets, ID_BITS);
    var d := StateDict(id, nodes, externalIP);
    FlatSize(t.buckets, ID_BITS);
    CountBound(t);
    StateSize(id, nodes, externalIP);
    StateSupported(id, nodes, externalIP);
    assert [] + Enc(d) + [] == Enc(d);
    RoundTripInContext([], d, [], 0);
    StateOfSaved(id, nodes, externalIP, clock);
    var raw := Entry(Norm(d), KEY_NODES);
    ParseOfCompact(nodes, clock, raw);
    SameAfterRenewal(nodes, Parse(raw, clock), clock);
  }

  /**
   * A save that reads its identifier and address later than its snapshot: the file still loads, into a table in order
   * for whatever identifier it is, and a node falls out only where its new bucket is full.
   */
  lemma OvertakenSaveThenLoad(t: Table, id: NodeID, externalIP: Option<IPv4>, clock: nat -> int)
    requires Inv(t)
    ensures var d := StateDict(id, Flat(t.buckets, ID_BITS), externalIP);
            && DecValue(Enc(d), 0, 0) == Ok(Norm(d), |Enc(d)|)
            && var s := StateOf(Norm(d), clock);
               && s.State? && s.id == id && s.externalIP == externalIP && SameContacts(s.nodes, Flat(t.buckets, ID_BITS))
               && Inv(InsertAll(Empty(id), s.nodes))
               && forall b :: 0 <= b < ID_BITS ==> KeepsBest(id, b, s.nodes, InsertAll(Empty(id), s.nodes).buckets[b])
  {
    hide StateOf, Norm, Enc, Supported, Flat, StateDict, InsertAll, KeepsBest, BucketInv;
    LoadsBack(t, id, externalIP, clock);
    var nodes := StateOf(Norm(StateDict(id, Flat(t.buckets, ID_BITS), externalIP)), clock).nodes;
    SnapshotDistinct(t);
    assert DistinctIDs(nodes);
    EmptyInv(id);
    InsertAllInv(Empty(id), nodes);
    forall b | 0 <= b < ID_BITS ensures KeepsBest(id, b, nodes, InsertAll(Empty(id), nodes).buckets[b]) {
      FreshTableKeepsBest(id, nodes, b);
    }
  }

  lemma SameAfterRenewal(nodes: seq<Node>, loaded: seq<Node>, clock: nat -> int)
    requires |loaded| == |nodes| && forall i :: 0 <= i < |nodes| ==> loaded[i] == Renewed(nodes[i], clock(i))
    ensures SameContacts(loaded, nodes)
  {
  }

  // ----- The file -----

  // "2:id", "5:nodes" and "11:external_ip".
  const T_ID: seq<byte> := [50, 58, 105, 100]
  const T_NODES: seq<byte> := [53, 58, 110, 111, 100, 101, 115]
  const T_EXTERNAL_IP: seq<byte> := [49, 49, 58, 101, 120, 116, 101, 114, 110, 97, 108, 95, 105, 112]

  /** The text of a byte string. */
  function Printed(s: seq<byte>): seq<byte> {
    Itoa(|s|) + [58] + s
  }

  /** The bytes of a saved state: the external address only if there is one, and the keys in order. */
  lemma SavedText(self: NodeID, nodes: seq<Node>, externalIP: Option<IPv4>)
    ensures var d := StateDict(self, nodes, externalIP);
            Supported(d) &&
            Enc(d) == [100] + (if externalIP.Some? then T_EXTERNAL_IP + Printed(externalIP.value) else [])
                      + (T_ID + Printed(ToBytes(self))) + (T_NODES + Printed(Compact(nodes))) + [101]
  {
    hide Enc, ToBytes, Compact, Supported, Printed;
    var id, list := Str(ToBytes(self)), Str(Compact(nodes));
    var none: map<Key, Value> := map[];
    var first := if externalIP.Some? then none[KEY_EXTERNAL_IP := Str(externalIP.value)] else none;
    var head := if externalIP.Some? then T_EXTERNAL_IP + Printed(externalIP.value) else [];
    KeysInOrder();
    KeyTexts();
    StringsSupported(id, list, externalIP);
    if externalIP.Some? {
      OneEntryMore(none, [100], KEY_EXTERNAL_IP, externalIP.value, T_EXTERNAL_IP);
      assert [100] + (T_EXTERNAL_IP + Printed(externalIP.value)) == [100] + head;
    }
    OneEntryMore(first, [100] + head, KEY_ID, ToBytes(self), T_ID);
    OneEntryMore(first[KEY_ID := id], [100] + head + (T_ID + Printed(ToBytes(self))), KEY_NODES, Compact(nodes), T_NODES);
    assert StateDict(self, nodes, externalIP) == Dict(first[KEY_ID := id][KEY_NODES := list]);
  }

  lemma OneEntryMore(m: map<Key, Value>, text: seq<byte>, k: Key, s: seq<byte>, key: seq<byte>)
    requires Supported(Dict(m)) && Enc(Dict(m)) == text + [101]
    requires forall j :: j in m ==> KeyLess(j, k)
    requires key == Itoa(|k|) + [58] + k
    ensures Supported(Dict(m[k := Str(s)])) && Enc(Dict(m[k := Str(s)])) == text + (key + Printed(s)) + [101]
  {
    hide Enc, KeyLess, Itoa, Supported, Printed, Open;
    IsSupported(s);
    PrintedDict(m, k, Str(s));
    StringPrinted(s);
    Opened(text);
    Together(text, Itoa(|k|), [58], k, Printed(s));
  }

  lemma StringPrinted(s: seq<byte>)
    requires Supported(Str(s))
    ensures Enc(Str(s)) == Printed(s)
  {
  }

  lemma Opened(text: seq<byte>)
    ensures Open(text + [101]) == text
  {
  }

  lemma Together(a: seq<byte>, b: seq<byte>, c: seq<byte>, d: seq<byte>, e: seq<byte>)
    ensures a + b + c + d + e == a + (b + c + d + e)
  {
  }

  lemma IsSupported(s: seq<byte>)
    ensures Supported(Str(s))
  {
  }

  lemma StringsSupported(id: Value, list: Value, externalIP: Option<IPv4>)
    ensures var none: map<Key, Value> := map[]; Supported(Dict(none)) && Enc(Dict(none)) == [100] + [101]
  {
    EmptyDict();
  }

  lemma KeysInOrder()
    ensures KeyLess(KEY_EXTERNAL_IP, KEY_ID) && KeyLess(KEY_ID, KEY_NODES) && KeyLess(KEY_EXTERNAL_IP, KEY_NODES)
  {
  }

  lemma KeyTexts()
    ensures T_ID == Itoa(|KEY_ID|) + [58] + KEY_ID
    ensures T_NODES == Itoa(|KEY_NODES|) + [58] + KEY_NODES
    ensures T_EXTERNAL_IP == Itoa(|KEY_EXTERNAL_IP|) + [58] + KEY_EXTERNAL_IP
  {
    assert Itoa(2) == [50] && Itoa(5) == [53] && Itoa(11) == [49, 49];
  }

  /** The bytes under a key, if they are a string or a byte slice. */
  function BytesAt(v: Value, k: Key): Option<seq<byte>> {
    if !v.Dict? || k !in v.entries then None
    else match v.entries[k] case Str(s) => Some(s) case Raw(b) => Some(b) case _ => None
  }

  /** What is read from a decoded file: an identifier of 20 bytes is required, an address of 4 is optional. */
  lemma LoadedMeans(v: Value, clock: nat -> int)
    ensures var s, id, ip := StateOf(v, clock), BytesAt(v, [105, 100]), BytesAt(v, KEY_EXTERNAL_IP);
            && (s.State? <==> id.Some? && |id.value| == 20)
            && (s.State? ==>
                  && (forall k :: 0 <= k < 20 ==> s.id[k] == id.value[k] as bv8)
                  && s.externalIP == (if ip.Some? && |ip.value| == 4 then ip else None)
                  && ReadFrom(if KEY_NODES in v.entries then Some(v.entries[KEY_NODES]) else None, clock, s.nodes))
  {
    hide ReadFrom, Parse;
    if v.Dict? {
      ParseMeans(Entry(v, KEY_NODES), clock);
    }
  }
}
