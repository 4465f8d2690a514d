/** internal/bencode/encode.go: the printer, in the source's loops. */
module Encoder {
  import opened Bytes
  import opened Decimal
  import opened KeyOrder
  import opened Value

  datatype EncodeResult = Encoded(text: seq<byte>) | UnsupportedType

  /** What the printer must return for `v`: its text, or an error if some part is unsupported. */
  ghost predicate IsEncodingOf(r: EncodeResult, v: Value) {
    if Supported(v) then r == Encoded(Enc(v)) else r == UnsupportedType
  }

  method Encode(v: Value) returns (r: EncodeResult)
    ensures IsEncodingOf(r, v)
    decreases v, 1
  {
    match v {
      case Str(s) =>
        var text := EncodeString(s);
        r := Encoded(text);
      case Raw(s) =>
        var text := EncodeString(s);
        r := Encoded(text);
      case Int(n) =>
        r := Encoded([CHAR_I] + Itoa(n) + [CHAR_E]);
      case List(items) =>
        r := EncodeList(v);
      case Dict(m) =>
        r := EncodeDict(v);
      case Unsupported =>
        r := UnsupportedType;
    }
  }

  /** A buffer of the final size, filled by two copies. */
  method EncodeString(data: seq<byte>) returns (r: seq<byte>)
    ensures r == EncStr(data)
  {
    var prefix := Itoa(|data|) + [COLON];
    var result := new byte[|prefix| + |data|];
    forall k | 0 <= k < |prefix| {
      result[k] := prefix[k];
    }
    assert result[..|prefix|] == prefix;
    forall k | 0 <= k < |data| {
      result[|prefix| + k] := data[k];
    }
    r := result[..];
    assert r[..|prefix|] == prefix && r[|prefix|..] == data;
    assert r == prefix + data;
  }

  /** `append` to a buffer that starts with the opening letter. */
  function Grown(c: byte, ghost done: seq<byte>, more: seq<byte>, result: seq<byte>): (r: seq<byte>)
    requires result == [c] + done
    ensures r == [c] + (done + more)
  {
    result + more
  }

  lemma ItemsStep(items: seq<Value>, i: nat)
    requires i < |items| && ItemsSupported(items[..i]) && Supported(items[i])
    ensures ItemsSupported(items[..i + 1])
    ensures EncItems(items[..i + 1]) == EncItems(items[..i]) + Enc(items[i])
  {
    EncItemsSnoc(items[..i], items[i]);
    assert items[..i + 1] == items[..i] + [items[i]];
  }

  lemma EntriesStep(v: Value, ks: seq<Key>, i: nat)
    requires i < |ks| && EntriesSupported(v, ks[..i]) && EntriesSupported(v, [ks[i]])
    ensures EntriesSupported(v, ks[..i + 1])
    ensures EncEntries(v, ks[..i + 1]) == EncEntries(v, ks[..i]) + EncEntry(v, ks[i])
  {
    EncEntriesSnoc(v, ks[..i], ks[i]);
    assert ks[..i + 1] == ks[..i] + [ks[i]];
  }

  lemma SupportedByEntries(v: Value)
    requires v.Dict? && EntriesSupported(v, SortedKeys(v.entries.Keys))
    ensures Supported(v)
  {
    var ks := SortedKeys(v.entries.Keys);
    SortedKeysLists(v.entries.Keys);
    forall k | k in v.entries ensures Supported(v.entries[k]) {
      assert k in ks;
    }
  }

  method EncodeList(v: Value) returns (r: EncodeResult)
    requires v.List?
    ensures IsEncodingOf(r, v)
    decreases v, 0
  {
    var result := [CHAR_L];
    var i := 0;
    while i < |v.items|
      invariant 0 <= i <= |v.items|
      invariant ItemsSupported(v.items[..i])
      invariant result == [CHAR_L] + EncItems(v.items[..i])
    {
      var encoded := Encode(v.items[i]);
      if encoded.UnsupportedType? {
        assert v.items[i] in v.items;
        return UnsupportedType;
      }
      ItemsStep(v.items, i);
      result := Grown(CHAR_L, EncItems(v.items[..i]), encoded.text, result);
      i := i + 1;
    }
    assert v.items[..i] == v.items;
    r := Encoded(result + [CHAR_E]);
  }

  method EncodeDict(v: Value) returns (r: EncodeResult)
    requires v.Dict?
    ensures IsEncodingOf(r, v)
    decreases v, 0
  {
    var keys := SortKeys(v.entries.Keys);
    var result := [CHAR_D];
    var i := 0;
    while i < |keys|
      invariant 0 <= i <= |keys|
      invariant EntriesSupported(v, keys[..i])
      invariant result == [CHAR_D] + EncEntries(v, keys[..i])
    {
      var k := keys[i];
      var key := EncodeString(k);
      var encoded := Encode(v.entries[k]);
      if encoded.UnsupportedType? {
        assert !Supported(v.entries[k]);
        return UnsupportedType;
      }
      assert EntriesSupported(v, [k]);
      EntriesStep(v, keys, i);
      result := Grown(CHAR_D, EncEntries(v, keys[..i]), key + encoded.text, result);
      i := i + 1;
    }
    assert keys[..i] == keys;
    SupportedByEntries(v);
    r := Encoded(result + [CHAR_E]);
  }
}
