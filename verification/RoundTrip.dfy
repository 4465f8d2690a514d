/** Decoding undoes encoding, in any context; the encoder's output is a prefix code. */
module RoundTrip {
  import opened Bytes
  import opened Decimal
  import opened KeyOrder
  import opened Value
  import opened Decoder

  lemma {:induction false} IndexFromIs(b: seq<byte>, i: nat, c: byte, k: nat)
    requires i <= k < |b| && b[k] == c
    requires forall j :: i <= j < k ==> b[j] != c
    ensures IndexFrom(b, i, c) == k
    decreases k - i
  {
    if i < k { IndexFromIs(b, i + 1, c, k); }
  }

  lemma DigitsThen(b: seq<byte>, i: nat, num: seq<byte>, c: byte)
    requires At(b, i, num + [c]) && c !in num
    ensures IndexFrom(b, i, c) == i + |num| < |b| && b[i..i + |num|] == num
  {
    AtSplit(b, i, num, [c]);
    var k := i + |num|;
    assert b[k] == b[k..k + 1][0];
    forall j | i <= j < k ensures b[j] != c {
      assert b[j] == b[i..k][j - i];
    }
    IndexFromIs(b, i, c, k);
  }

  lemma StringParts(b: seq<byte>, i: nat, s: seq<byte>)
    requires At(b, i, EncStr(s))
    ensures var colon := i + |Itoa(|s|)|;
            && colon + 1 + |s| == i + |EncStr(s)| <= |b|
            && IndexFrom(b, i, COLON) == colon
            && b[i..colon] == Itoa(|s|)
            && b[colon + 1..colon + 1 + |s|] == s
  {
    var len := Itoa(|s|);
    AtSplit(b, i, len + [COLON], s);
    assert COLON !in len;
    DigitsThen(b, i, len, COLON);
  }

  lemma StringAt(b: seq<byte>, i: nat, s: seq<byte>)
    requires |b| <= INT_MAX && At(b, i, EncStr(s))
    ensures DecString(b, i) == Ok(s, i + |EncStr(s)|)
  {
    hide Atoi;
    StringParts(b, i, s);
    AtoiItoa(|s|);
    var colon := IndexFrom(b, i, COLON);
    assert Atoi(b[i..colon]) == Some(|s|);
  }

  lemma IntAt(b: seq<byte>, i: nat, n: int)
    requires INT_MIN <= n <= INT_MAX && At(b, i, EncInt(n))
    ensures i < |b| && b[i] == CHAR_I
    ensures DecInt(b, i) == Ok(Int(n), i + |EncInt(n)|)
  {
    hide Atoi;
    var num := Itoa(n);
    ItoaCanonical(n);
    AtSplit(b, i, [CHAR_I] + num, [CHAR_E]);
    assert b[i] == b[i..i + 1 + |num|][0];
    assert [CHAR_I] + num + [CHAR_E] == ([CHAR_I] + num) + [CHAR_E];
    DigitsThen(b, i, [CHAR_I] + num, CHAR_E);
    assert b[i + 1..i + 1 + |num|] == ([CHAR_I] + num)[1..];
    AtoiItoa(n);
  }

  lemma ItoaCanonical(n: int)
    ensures var num := Itoa(n); num != [] && !(|num| > 1 && num[0] == 48) && num != [MINUS, 48] && CHAR_E !in num
  {
    if n < 0 {
      assert Itoa(n) == [Itoa(n)[0]] + Itoa(n)[1..];
    }
  }

  ghost function NormEntries(v: Value, ks: seq<Key>): map<Key, Value>
    requires v.Dict? && forall i :: 0 <= i < |ks| ==> ks[i] in v.entries
  {
    map k | k in ks :: Norm(v.entries[k])
  }

  ghost predicate DepthFits(depth: int, height: nat) {
    depth + height <= MAX_DECODE_DEPTH
  }

  /**
   * Wherever `Enc(v)` stands in the input, decoding there gives `v` back, retyped, and stops right behind it,
   * exactly when the nesting limit allows.
   */
  lemma {:induction false} ValueAt(b: seq<byte>, i: nat, v: Value, depth: int)
    requires Supported(v) && |b| <= INT_MAX && At(b, i, Enc(v))
    ensures DepthFits(depth, Height(v)) ==> DecValue(b, i, depth) == Ok(Norm(v), i + |Enc(v)|)
    ensures !DepthFits(depth, Height(v)) ==> DecValue(b, i, depth).Err?
    decreases v, 2, 0
  {
    AtHead(b, i, Enc(v));
    match v {
      case Str(s) => StringAt(b, i, s);
      case Raw(s) => StringAt(b, i, s);
      case Int(n) => IntAt(b, i, n);
      case List(items) => ListAt(b, i, v, depth);
      case Dict(m) => DictAt(b, i, v, depth);
    }
  }

  lemma {:induction false} ListAt(b: seq<byte>, i: nat, v: Value, depth: int)
    requires v.List? && Supported(v) && |b| <= INT_MAX && At(b, i, Enc(v))
    ensures DepthFits(depth, Height(v)) ==> DecValue(b, i, depth) == Ok(Norm(v), i + |Enc(v)|)
    ensures !DepthFits(depth, Height(v)) ==> DecValue(b, i, depth).Err?
    decreases v, 1, 0
  {
    hide At, EncItems, DecItems, DecEntries, Supported, Atoi, Utf8Valid, HeightItems, NormItems;
    PartsSupported(v);
    var body := EncItems(v.items);
    AtHead(b, i, Enc(v));
    Assoc([CHAR_L], body, [CHAR_E]);
    AtSplit(b, i, [CHAR_L], body + [CHAR_E]);
    ItemsAt(b, i, i + 1, v.items, depth, []);
    assert [] + NormItems(v.items) == NormItems(v.items);
  }

  lemma {:induction false} DictAt(b: seq<byte>, i: nat, v: Value, depth: int)
    requires v.Dict? && Supported(v) && |b| <= INT_MAX && At(b, i, Enc(v))
    ensures DepthFits(depth, Height(v)) ==> DecValue(b, i, depth) == Ok(Norm(v), i + |Enc(v)|)
    ensures !DepthFits(depth, Height(v)) ==> DecValue(b, i, depth).Err?
    decreases v, 1, 0
  {
    hide At, EncEntries, DecItems, DecEntries, Supported, Atoi, Utf8Valid, HeightEntries, NormEntries;
    PartsSupported(v);
    var ks := SortedKeys(v.entries.Keys);
    var body := EncEntries(v, ks);
    AtHead(b, i, Enc(v));
    Assoc([CHAR_D], body, [CHAR_E]);
    AtSplit(b, i, [CHAR_D], body + [CHAR_E]);
    EntriesAt(b, i, i + 1, v, ks, depth, map[]);
    NormBySortedKeys(v);
    assert map[] + NormEntries(v, ks) == NormEntries(v, ks);
  }

  lemma PartsSupported(v: Value)
    requires Supported(v)
    ensures v.List? ==> ItemsSupported(v.items)
    ensures v.Dict? ==> EntriesSupported(v, SortedKeys(v.entries.Keys))
  {
  }

  lemma NormBySortedKeys(v: Value)
    requires v.Dict?
    ensures var ks := SortedKeys(v.entries.Keys);
            NormEntries(v, ks) == Norm(v).entries && (ks == [] <==> v.entries == map[])
  {
    var m := v.entries;
    var ks := SortedKeys(m.Keys);
    SortedKeysLists(m.Keys);
    assert ks == [] <==> m == map[] by {
      if ks != [] { assert ks[0] in m; }
      assert forall k :: k in m <==> k in ks;
    }
  }

  lemma ItemAt(b: seq<byte>, i: nat, items: seq<Value>)
    requires items != [] && ItemsSupported(items) && At(b, i, EncItems(items) + [CHAR_E])
    ensures Supported(items[0]) && ItemsSupported(items[1..])
    ensures At(b, i, Enc(items[0])) && At(b, i + |Enc(items[0])|, EncItems(items[1..]) + [CHAR_E])
    ensures i < |b| && b[i] != CHAR_E
    ensures |EncItems(items)| == |Enc(items[0])| + |EncItems(items[1..])|
  {
    hide At, Enc;
    var head, rest := Enc(items[0]), EncItems(items[1..]);
    Assoc(head, rest, [CHAR_E]);
    AtSplit(b, i, head, rest + [CHAR_E]);
    AtHead(b, i, head);
  }

  lemma ItemsEnd(b: seq<byte>, start: nat, i: nat, depth: int, acc: seq<Value>)
    requires start < i && At(b, i, EncItems([]) + [CHAR_E])
    ensures EncItems([]) == [] && i < |b|
    ensures DecItems(b, start, i, depth, acc) == Ok(List(acc + NormItems([])), i + 1)
  {
    AtSplit(b, i, [], [CHAR_E]);
    assert b[i] == b[i..i + 1][0];
    assert acc + NormItems([]) == acc;
  }

  lemma HeightItemsStep(items: seq<Value>, depth: int)
    requires items != []
    ensures DepthFits(depth, HeightItems(items)) <==>
              DepthFits(depth, Height(items[0])) && (items[1..] == [] || DepthFits(depth, HeightItems(items[1..])))
  {
  }

  lemma NormItemsStep(items: seq<Value>, acc: seq<Value>)
    requires items != []
    ensures acc + [Norm(items[0])] + NormItems(items[1..]) == acc + NormItems(items)
  {
  }

  lemma {:induction false} ItemsAt(b: seq<byte>, start: nat, i: nat, items: seq<Value>, depth: int, acc: seq<Value>)
    requires ItemsSupported(items) && |b| <= INT_MAX && start < i && At(b, i, EncItems(items) + [CHAR_E])
    ensures items == [] || DepthFits(depth + 1, HeightItems(items)) ==>
              DecItems(b, start, i, depth, acc) == Ok(List(acc + NormItems(items)), i + |EncItems(items)| + 1)
    ensures items != [] && !DepthFits(depth + 1, HeightItems(items)) ==> DecItems(b, start, i, depth, acc).Err?
    decreases items, 0, 0
  {
    hide *;
    if items == [] {
      ItemsEnd(b, start, i, depth, acc);
    } else {
      ItemAt(b, i, items);
      ValueAt(b, i, items[0], depth + 1);
      ItemsRound(b, start, i, depth, acc);
      HeightItemsStep(items, depth + 1);
      if DepthFits(depth + 1, Height(items[0])) {
        ItemsAt(b, start, i + |Enc(items[0])|, items[1..], depth, acc + [Norm(items[0])]);
        NormItemsStep(items, acc);
      }
    }
  }

  lemma EntryAt(b: seq<byte>, i: nat, v: Value, ks: seq<Key>)
    requires ks != [] && EntriesSupported(v, ks) && At(b, i, EncEntries(v, ks) + [CHAR_E])
    ensures var key, val := EncStr(ks[0]), Enc(v.entries[ks[0]]);
            At(b, i, key) && At(b, i + |key|, val) && At(b, i + |key| + |val|, EncEntries(v, ks[1..]) + [CHAR_E])
    ensures i < |b| && b[i] != CHAR_E && EntriesSupported(v, ks[1..])
    ensures |EncEntries(v, ks)| == |EncStr(ks[0])| + |Enc(v.entries[ks[0]])| + |EncEntries(v, ks[1..])|
  {
    hide At, Enc, EncStr, Supported;
    assert EntriesSupported(v, [ks[0]]);
    var entry := EncEntry(v, ks[0]);
    var key, val, rest := EncStr(ks[0]), Enc(v.entries[ks[0]]), EncEntries(v, ks[1..]);
    Assoc(entry, rest, [CHAR_E]);
    AtSplit(b, i, entry, rest + [CHAR_E]);
    AtSplit(b, i, key, val);
    AtHead(b, i, key);
  }

  lemma NormEntriesStep(v: Value, ks: seq<Key>, acc: map<Key, Value>)
    requires ks != [] && EntriesSupported(v, ks)
    ensures acc[ks[0] := Norm(v.entries[ks[0]])] + NormEntries(v, ks[1..]) == acc + NormEntries(v, ks)
  {
    hide Norm, EntriesSupported, Supported;
    assert forall k :: k in ks <==> k == ks[0] || k in ks[1..];
  }

  lemma HeightEntriesStep(v: Value, ks: seq<Key>, depth: int)
    requires ks != [] && EntriesSupported(v, ks)
    ensures DepthFits(depth, HeightEntries(v, ks)) <==>
              DepthFits(depth, Height(v.entries[ks[0]])) && (ks[1..] == [] || DepthFits(depth, HeightEntries(v, ks[1..])))
  {
  }

  lemma EntriesEnd(b: seq<byte>, start: nat, i: nat, v: Value, depth: int, acc: map<Key, Value>)
    requires EntriesSupported(v, []) && start < i && At(b, i, EncEntries(v, []) + [CHAR_E])
    ensures EncEntries(v, []) == [] && i < |b|
    ensures DecEntries(b, start, i, depth, acc) == Ok(Dict(acc + NormEntries(v, [])), i + 1)
  {
    AtSplit(b, i, [], [CHAR_E]);
    assert b[i] == b[i..i + 1][0];
    assert acc + NormEntries(v, []) == acc;
  }

  lemma FirstEntry(v: Value, ks: seq<Key>)
    requires ks != [] && EntriesSupported(v, ks)
    ensures v.Dict? && ks[0] in v.entries && Supported(v.entries[ks[0]]) && v.entries[ks[0]] < v
  {
  }

  lemma {:induction false} EntriesAt(b: seq<byte>, start: nat, i: nat, v: Value, ks: seq<Key>, depth: int, acc: map<Key, Value>)
    requires EntriesSupported(v, ks) && |b| <= INT_MAX && start < i && At(b, i, EncEntries(v, ks) + [CHAR_E])
    ensures ks == [] || DepthFits(depth + 1, HeightEntries(v, ks)) ==>
              DecEntries(b, start, i, depth, acc) == Ok(Dict(acc + NormEntries(v, ks)), i + |EncEntries(v, ks)| + 1)
    ensures ks != [] && !DepthFits(depth + 1, HeightEntries(v, ks)) ==> DecEntries(b, start, i, depth, acc).Err?
    decreases v, 0, |ks|
  {
    hide *;
    if ks == [] {
      EntriesEnd(b, start, i, v, depth, acc);
    } else {
      FirstEntry(v, ks);
      var k := ks[0];
      var n := i + |EncStr(k)|;
      var m := n + |Enc(v.entries[k])|;
      EntryAt(b, i, v, ks);
      StringAt(b, i, k);
      ValueAt(b, n, v.entries[k], depth + 1);
      EntriesRound(b, start, i, depth, acc);
      HeightEntriesStep(v, ks, depth + 1);
      if DepthFits(depth + 1, Height(v.entries[k])) {
        EntriesAt(b, start, m, v, ks[1..], depth, acc[k := Norm(v.entries[k])]);
        NormEntriesStep(v, ks, acc);
      }
    }
  }

  // ----- Main results -----

  /** Round trip in context: between any prefix and any suffix, from any start depth. */
  lemma RoundTripInContext(prefix: seq<byte>, v: Value, suffix: seq<byte>, depth: int)
    requires Supported(v) && |prefix + Enc(v) + suffix| <= INT_MAX
    ensures var r := DecValue(prefix + Enc(v) + suffix, |prefix|, depth);
            if depth + Height(v) <= MAX_DECODE_DEPTH
            then r == Ok(Norm(v), |prefix + Enc(v)|)
            else r.Err?
  {
    var b := prefix + Enc(v) + suffix;
    assert b[|prefix|..|prefix| + |Enc(v)|] == Enc(v);
    ValueAt(b, |prefix|, v, depth);
  }

  /** No encoding is a proper prefix of another, and equal encodings come from equal values up to retyping. */
  lemma PrefixCode(v: Value, s: seq<byte>, w: Value, t: seq<byte>)
    requires Supported(v) && Supported(w)
    requires Enc(v) + s == Enc(w) + t && |Enc(v) + s| <= INT_MAX
    ensures Norm(v) == Norm(w) && Enc(v) == Enc(w) && s == t
  {
    var depth := MAX_DECODE_DEPTH - Max(Height(v), Height(w));
    var b := Enc(v) + s;
    assert b[0..|Enc(v)|] == Enc(v) && b[0..|Enc(w)|] == Enc(w);
    ValueAt(b, 0, v, depth);
    ValueAt(b, 0, w, depth);
    assert b[|Enc(v)|..] == s && b[|Enc(w)|..] == t;
  }

  /** The other direction: retyping byte strings does not change the encoding. */
  lemma {:induction false} NormEncodesAlike(v: Value)
    requires Supported(v)
    ensures Supported(Norm(v)) && Enc(Norm(v)) == Enc(v) && Height(Norm(v)) == Height(v) && Norm(Norm(v)) == Norm(v)
    decreases v, 1, 0
  {
    match v {
      case List(items) => NormItemsAlike(items);
      case Dict(m) =>
        var w := Norm(v);
        assert w.entries.Keys == m.Keys;
        var ks := SortedKeys(m.Keys);
        forall k | k in m ensures Supported(w.entries[k]) && Norm(w.entries[k]) == w.entries[k] {
          NormEncodesAlike(m[k]);
        }
        NormEntriesAlike(v, ks);
        assert Norm(w).entries == w.entries;
        assert w.entries == map[] <==> m == map[] by {
          assert w.entries.Keys == {} <==> m.Keys == {};
        }
      case _ =>
    }
  }

  lemma {:induction false} NormItemsAlike(items: seq<Value>)
    requires ItemsSupported(items)
    ensures ItemsSupported(NormItems(items))
    ensures EncItems(NormItems(items)) == EncItems(items) && HeightItems(NormItems(items)) == HeightItems(items)
    ensures NormItems(NormItems(items)) == NormItems(items)
    decreases items, 0, 0
  {
    if items != [] {
      NormEncodesAlike(items[0]);
      NormItemsAlike(items[1..]);
      assert NormItems(items)[1..] == NormItems(items[1..]);
    }
  }

  lemma {:induction false} NormEntriesAlike(v: Value, ks: seq<Key>)
    requires EntriesSupported(v, ks) && EntriesSupported(Norm(v), ks)
    ensures EncEntries(Norm(v), ks) == EncEntries(v, ks) && HeightEntries(Norm(v), ks) == HeightEntries(v, ks)
    decreases v, 0, |ks|
  {
    if ks != [] {
      NormEncodesAlike(v.entries[ks[0]]);
      NormEntriesAlike(v, ks[1..]);
    }
  }
}
