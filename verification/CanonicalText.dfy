/** Exactly which texts the decoder accepts are what the encoder prints: no other text of a value survives re-encoding. */
module CanonicalText {
  import opened Bytes
  import opened Decimal
  import opened KeyOrder
  import opened Value
  import opened Decoder
  import opened RoundTrip
  import opened Canonical

  /** A byte string whose length is written as the printer writes it. */
  predicate PlainString(b: seq<byte>, i: nat)
    requires i <= |b|
  {
    var r := DecString(b, i);
    r.Ok? && b[i..IndexFrom(b, i, COLON)] == Itoa(|r.value|)
  }

  /** An integer written as the printer writes it. */
  predicate PlainInt(b: seq<byte>, i: nat)
    requires i < |b| && b[i] == CHAR_I
  {
    var r := DecInt(b, i);
    var end := IndexFrom(b, i, CHAR_E);
    r.Ok? && r.value.Int? && i < end && b[i + 1..end] == Itoa(r.value.n)
  }

  /** Every number is written as printed, and the keys of every dictionary are strictly increasing. */
  predicate PlainText(b: seq<byte>, i: nat, depth: int)
    decreases Left(b, i), 0
  {
    && depth <= MAX_DECODE_DEPTH && i < |b|
    && if IsDigit(b[i]) then PlainString(b, i)
       else if b[i] == CHAR_I then PlainInt(b, i)
       else if b[i] == CHAR_L then PlainItems(b, i + 1, depth)
       else b[i] == CHAR_D && PlainEntries(b, i + 1, depth, None)
  }

  predicate PlainItems(b: seq<byte>, i: nat, depth: int)
    decreases Left(b, i), 1
  {
    i < |b| &&
    (b[i] == CHAR_E ||
     var r := DecValue(b, i, depth + 1);
     r.Ok? && PlainText(b, i, depth + 1) && PlainItems(b, r.next, depth))
  }

  /** `prev` is the key before, if any. */
  predicate PlainEntries(b: seq<byte>, i: nat, depth: int, prev: Option<Key>)
    decreases Left(b, i), 1
  {
    i < |b| &&
    (b[i] == CHAR_E ||
     var k := DecString(b, i);
     && k.Ok? && PlainString(b, i) && (prev.Some? ==> KeyLess(prev.value, k.value))
     && var r := DecValue(b, k.next, depth + 1);
        r.Ok? && PlainText(b, k.next, depth + 1) && PlainEntries(b, r.next, depth, Some(k.value)))
  }

  // ----- A plain text is the encoding of what it decodes to -----

  lemma Joined(b: seq<byte>, i: nat, j: nat, k: nat)
    requires i <= j <= k <= |b|
    ensures b[i..k] == b[i..j] + b[j..k]
  {
  }

  lemma One(b: seq<byte>, i: nat)
    requires i < |b|
    ensures b[i..i + 1] == [b[i]]
  {
  }

  lemma PlainStringText(b: seq<byte>, i: nat)
    requires i <= |b| && PlainString(b, i)
    ensures var r := DecString(b, i); r.Ok? && r.next <= |b| && EncStr(r.value) == b[i..r.next]
  {
    hide Atoi, Itoa;
    var colon := IndexFrom(b, i, COLON);
    var r := DecString(b, i);
    Joined(b, i, colon, r.next);
    Joined(b, colon, colon + 1, r.next);
    One(b, colon);
    Assoc(b[i..colon], [COLON], r.value);
  }

  lemma PlainIntText(b: seq<byte>, i: nat)
    requires i < |b| && b[i] == CHAR_I && PlainInt(b, i)
    ensures var r := DecInt(b, i); r.Ok? && r.value.Int? && r.next <= |b| && EncInt(r.value.n) == b[i..r.next]
  {
    hide Atoi, Itoa;
    var end := IndexFrom(b, i, CHAR_E);
    var r := DecInt(b, i);
    assert r.next == end + 1;
    Joined(b, i, i + 1, end + 1);
    Joined(b, i + 1, end, end + 1);
    One(b, i);
    One(b, end);
    Assoc([CHAR_I], b[i + 1..end], [CHAR_E]);
  }

  lemma {:induction false} PlainIsEncoding(b: seq<byte>, i: nat, depth: int)
    requires DecValue(b, i, depth).Ok? && PlainText(b, i, depth)
    ensures var r := DecValue(b, i, depth); Supported(r.value) && r.next <= |b| && Enc(r.value) == b[i..r.next]
    decreases Left(b, i), 0
  {
    hide Utf8Valid, DecString, DecInt, DecItems, DecEntries, PlainString, PlainInt, PlainItems, PlainEntries;
    if IsDigit(b[i]) {
      PlainStringText(b, i);
    } else if b[i] == CHAR_I {
      PlainIntText(b, i);
    } else if b[i] == CHAR_L {
      assert b[i..i + 1] == [CHAR_L] + EncItems([]);
      PlainItemsText(b, i, i + 1, depth, []);
    } else {
      assert b[i..i + 1] == [CHAR_D] + EncEntries(Dict(map[]), []);
      PlainEntriesText(b, i, i + 1, depth, map[], []);
    }
  }

  lemma {:induction false} PlainItemsText(b: seq<byte>, start: nat, i: nat, depth: int, acc: seq<Value>)
    requires start < i <= |b| && DecItems(b, start, i, depth, acc).Ok? && PlainItems(b, i, depth)
    requires ItemsSupported(acc) && b[start..i] == [CHAR_L] + EncItems(acc)
    ensures var r := DecItems(b, start, i, depth, acc);
            Supported(r.value) && r.next <= |b| && Enc(r.value) == b[start..r.next]
    decreases Left(b, i), 1
  {
    hide DecValue, DecItems, EncItems, PlainText, ItemsSupported;
    ItemsRound(b, start, i, depth, acc);
    if b[i] == CHAR_E {
      ListText(b, start, i, acc);
    } else {
      var r := DecValue(b, i, depth + 1);
      PlainIsEncoding(b, i, depth + 1);
      EncItemsSnoc(acc, r.value);
      Joined(b, start, i, r.next);
      Assoc([CHAR_L], EncItems(acc), Enc(r.value));
      ItemsRound(b, start, r.next, depth, acc + [r.value]);
      PlainItemsText(b, start, r.next, depth, acc + [r.value]);
    }
  }

  lemma ListText(b: seq<byte>, start: nat, i: nat, acc: seq<Value>)
    requires start < i < |b| && b[i] == CHAR_E && ItemsSupported(acc) && b[start..i] == [CHAR_L] + EncItems(acc)
    ensures Supported(List(acc)) && Enc(List(acc)) == b[start..i + 1]
  {
    hide EncItems;
    assert forall x :: x in acc ==> Supported(x);
    assert b[start..i + 1] == b[start..i] + [b[i]];
  }

  /** The keys so far in the order they were read, the last of them given to the predicate. */
  ghost predicate ReadInOrder(acc: map<Key, Value>, ks: seq<Key>) {
    Lists(ks, acc.Keys) && EntriesSupported(Dict(acc), ks)
  }

  lemma InOrderSupported(acc: map<Key, Value>, ks: seq<Key>)
    requires ReadInOrder(acc, ks)
    ensures EntriesSupported(Dict(acc), ks)
  {
  }

  function LastKey(ks: seq<Key>): Option<Key> {
    if ks == [] then None else Some(ks[|ks| - 1])
  }

  lemma {:induction false} PlainEntriesText(b: seq<byte>, start: nat, i: nat, depth: int, acc: map<Key, Value>, ks: seq<Key>)
    requires start < i <= |b| && DecEntries(b, start, i, depth, acc).Ok? && PlainEntries(b, i, depth, LastKey(ks))
    requires ReadInOrder(acc, ks) && b[start..i] == [CHAR_D] + EncEntries(Dict(acc), ks)
    ensures var r := DecEntries(b, start, i, depth, acc);
            Supported(r.value) && r.next <= |b| && Enc(r.value) == b[start..r.next]
    decreases Left(b, i), 1
  {
    hide DecString, DecValue, DecEntries, EncEntries, Enc, EncStr, PlainText, PlainString, ReadInOrder, LastKey;
    EntriesRound(b, start, i, depth, acc);
    if b[i] == CHAR_E {
      DictText(b, start, i, acc, ks);
    } else {
      var key := DecString(b, i);
      var r := DecValue(b, key.next, depth + 1);
      PlainStringText(b, i);
      PlainIsEncoding(b, key.next, depth + 1);
      OneMoreEntry(acc, ks, key.value, r.value);
      InOrderSupported(acc, ks);
      Joined(b, start, i, r.next);
      Joined(b, i, key.next, r.next);
      Assoc([CHAR_D], EncEntries(Dict(acc), ks), EncStr(key.value) + Enc(r.value));
      EntriesRound(b, start, r.next, depth, acc[key.value := r.value]);
      PlainEntriesText(b, start, r.next, depth, acc[key.value := r.value], ks + [key.value]);
    }
  }

  lemma {:induction false} EntriesUnchanged(v: Value, w: Value, ks: seq<Key>)
    requires EntriesSupported(v, ks) && w.Dict?
    requires forall i :: 0 <= i < |ks| ==> ks[i] in w.entries && w.entries[ks[i]] == v.entries[ks[i]]
    ensures EntriesSupported(w, ks) && EncEntries(w, ks) == EncEntries(v, ks)
  {
    hide Enc, EncStr, Supported;
    if ks != [] {
      EntriesUnchanged(v, w, ks[1..]);
    }
  }

  /** A key greater than all before goes to the end. */
  lemma OneMoreEntry(acc: map<Key, Value>, ks: seq<Key>, k: Key, x: Value)
    requires ReadInOrder(acc, ks) && Supported(x)
    requires LastKey(ks).Some? ==> KeyLess(LastKey(ks).value, k)
    ensures var acc', ks' := acc[k := x], ks + [k];
            && ReadInOrder(acc', ks') && LastKey(ks') == Some(k)
            && EncEntries(Dict(acc'), ks') == EncEntries(Dict(acc), ks) + (EncStr(k) + Enc(x))
  {
    hide Enc, EncStr, Supported, EncEntries;
    var v, w := Dict(acc), Dict(acc[k := x]);
    forall i | 0 <= i < |ks| ensures KeyLess(ks[i], k) && ks[i] in w.entries && w.entries[ks[i]] == v.entries[ks[i]] {
      if i < |ks| - 1 { KeyLessTransitive(ks[i], ks[|ks| - 1], k); }
      KeyLessTotal(ks[i], k);
    }
    EntriesUnchanged(v, w, ks);
    EncEntriesSnoc(w, ks, k);
    assert Sorted(ks + [k]);
    assert forall y :: y in ks + [k] <==> y in ks || y == k;
  }

  lemma DictText(b: seq<byte>, start: nat, i: nat, acc: map<Key, Value>, ks: seq<Key>)
    requires start < i < |b| && b[i] == CHAR_E
    requires ReadInOrder(acc, ks) && b[start..i] == [CHAR_D] + EncEntries(Dict(acc), ks)
    ensures Supported(Dict(acc)) && Enc(Dict(acc)) == b[start..i + 1]
  {
    hide EncEntries;
    SortedKeysLists(acc.Keys);
    ListingUnique(ks, SortedKeys(acc.Keys), acc.Keys);
    forall k | k in acc ensures Supported(acc[k]) {
      assert k in ks;
    }
    assert b[start..i + 1] == b[start..i] + [b[i]];
  }

  // ----- An encoding is a plain text -----

  lemma EncodedString(b: seq<byte>, i: nat, s: seq<byte>)
    requires |b| <= INT_MAX && At(b, i, EncStr(s))
    ensures i < |b| && PlainString(b, i)
  {
    StringAt(b, i, s);
    StringParts(b, i, s);
  }

  lemma EncodedInt(b: seq<byte>, i: nat, n: int)
    requires INT_MIN <= n <= INT_MAX && At(b, i, EncInt(n))
    ensures i < |b| && b[i] == CHAR_I && PlainInt(b, i)
  {
    hide DecInt;
    IntAt(b, i, n);
    var num := Itoa(n);
    ItoaCanonical(n);
    AtSplit(b, i, [CHAR_I] + num, [CHAR_E]);
    assert [CHAR_I] + num + [CHAR_E] == ([CHAR_I] + num) + [CHAR_E];
    DigitsThen(b, i, [CHAR_I] + num, CHAR_E);
    assert b[i + 1..i + 1 + |num|] == ([CHAR_I] + num)[1..];
  }

  lemma {:induction false} EncodingIsPlain(b: seq<byte>, i: nat, v: Value, depth: int)
    requires Supported(v) && |b| <= INT_MAX && At(b, i, Enc(v)) && DepthFits(depth, Height(v))
    ensures PlainText(b, i, depth)
    decreases v, 2, 0
  {
    hide PlainString, PlainInt, PlainItems, PlainEntries, EncItems, EncEntries, HeightItems, HeightEntries;
    AtHead(b, i, Enc(v));
    match v {
      case Str(s) => EncodedString(b, i, s);
      case Raw(s) => EncodedString(b, i, s);
      case Int(n) => EncodedInt(b, i, n);
      case List(_) => EncodedList(b, i, v, depth);
      case Dict(_) => EncodedDict(b, i, v, depth);
    }
  }

  lemma {:induction false} EncodedList(b: seq<byte>, i: nat, v: Value, depth: int)
    requires v.List? && Supported(v) && |b| <= INT_MAX && At(b, i, Enc(v)) && DepthFits(depth, Height(v))
    ensures PlainText(b, i, depth)
    decreases v, 1, 0
  {
    hide PlainItems, EncItems, At, Supported;
    PartsSupported(v);
    AtHead(b, i, Enc(v));
    Assoc([CHAR_L], EncItems(v.items), [CHAR_E]);
    AtSplit(b, i, [CHAR_L], EncItems(v.items) + [CHAR_E]);
    EncodedItems(b, i + 1, v.items, depth);
  }

  lemma {:induction false} EncodedDict(b: seq<byte>, i: nat, v: Value, depth: int)
    requires v.Dict? && Supported(v) && |b| <= INT_MAX && At(b, i, Enc(v)) && DepthFits(depth, Height(v))
    ensures PlainText(b, i, depth)
    decreases v, 1, 0
  {
    hide PlainEntries, EncEntries, At, Supported, NormEntries, Norm, HeightEntries;
    PartsSupported(v);
    var ks := SortedKeys(v.entries.Keys);
    SortedKeysLists(v.entries.Keys);
    NormBySortedKeys(v);
    AtHead(b, i, Enc(v));
    Assoc([CHAR_D], EncEntries(v, ks), [CHAR_E]);
    AtSplit(b, i, [CHAR_D], EncEntries(v, ks) + [CHAR_E]);
    EncodedEntries(b, i + 1, v, ks, depth, None);
  }

  lemma {:induction false} EncodedItems(b: seq<byte>, i: nat, items: seq<Value>, depth: int)
    requires ItemsSupported(items) && |b| <= INT_MAX && At(b, i, EncItems(items) + [CHAR_E])
    requires items == [] || DepthFits(depth + 1, HeightItems(items))
    ensures PlainItems(b, i, depth)
    decreases items, 0, 0
  {
    hide DecValue, PlainText, Enc, Height, HeightItems, Supported;
    if items == [] {
      AtHead(b, i, EncItems(items) + [CHAR_E]);
    } else {
      ItemAt(b, i, items);
      HeightItemsStep(items, depth + 1);
      ValueAt(b, i, items[0], depth + 1);
      EncodingIsPlain(b, i, items[0], depth + 1);
      EncodedItems(b, i + |Enc(items[0])|, items[1..], depth);
    }
  }

  lemma {:induction false} EncodedEntries(b: seq<byte>, i: nat, v: Value, ks: seq<Key>, depth: int, prev: Option<Key>)
    requires EntriesSupported(v, ks) && |b| <= INT_MAX && At(b, i, EncEntries(v, ks) + [CHAR_E]) && Sorted(ks)
    requires ks == [] || DepthFits(depth + 1, HeightEntries(v, ks))
    requires prev.Some? && ks != [] ==> KeyLess(prev.value, ks[0])
    ensures PlainEntries(b, i, depth, prev)
    decreases v, 0, |ks|
  {
    hide DecValue, DecString, PlainText, PlainString, Enc, EncStr, Height, HeightEntries, Supported, At, EntriesSupported;
    if ks == [] {
      AtHead(b, i, EncEntries(v, ks) + [CHAR_E]);
    } else {
      FirstEntry(v, ks);
      var k := ks[0];
      var n := i + |EncStr(k)|;
      EntryAt(b, i, v, ks);
      HeightEntriesStep(v, ks, depth + 1);
      StringAt(b, i, k);
      EncodedString(b, i, k);
      ValueAt(b, n, v.entries[k], depth + 1);
      EncodingIsPlain(b, n, v.entries[k], depth + 1);
      EncodedEntries(b, n + |Enc(v.entries[k])|, v, ks[1..], depth, Some(k));
    }
  }

  // ----- Main result -----

  /** Re-encoding a decoded value gives back the very bytes that were read exactly if they were a plain text. */
  lemma SurvivesExactly(b: seq<byte>, i: nat, depth: int)
    requires |b| <= INT_MAX && DecValue(b, i, depth).Ok?
    ensures var r := DecValue(b, i, depth);
            Supported(r.value) && i <= r.next <= |b| && (Enc(r.value) == b[i..r.next] <==> PlainText(b, i, depth))
  {
    hide PlainText, DecValue, Enc, Supported, Height, Norm;
    var r := DecValue(b, i, depth);
    ValueCanon(b, i, depth);
    Bounds(b, i, depth);
    if PlainText(b, i, depth) {
      PlainIsEncoding(b, i, depth);
    }
    if Enc(r.value) == b[i..r.next] {
      EncodingIsPlain(b, i, r.value, depth);
    }
  }

  lemma Bounds(b: seq<byte>, i: nat, depth: int)
    requires DecValue(b, i, depth).Ok?
    ensures i < DecValue(b, i, depth).next <= |b|
  {
  }

  // ----- Texts that are accepted and not printed -----

  // "05:abcde", "i+5e", "i-05e", "d1:bi1e1:ai2ee" and "d1:ai1e1:ai2ee".
  const PADDED_LENGTH: seq<byte> := [48, 53, 58, 97, 98, 99, 100, 101]
  const SIGNED_INT: seq<byte> := [105, 43, 53, 101]
  const PADDED_INT: seq<byte> := [105, 45, 48, 53, 101]
  const UNSORTED_KEYS: seq<byte> := [100, 49, 58, 98, 105, 49, 101, 49, 58, 97, 105, 50, 101, 101]
  const REPEATED_KEY: seq<byte> := [100, 49, 58, 97, 105, 49, 101, 49, 58, 97, 105, 50, 101, 101]

  lemma PaddedLengthAccepted()
    ensures DecValue(PADDED_LENGTH, 0, 0) == Ok(Str([97, 98, 99, 100, 101]), 8) && !PlainText(PADDED_LENGTH, 0, 0)
  {
    var b := PADDED_LENGTH;
    IndexFromIs(b, 0, COLON, 2);
    assert b[0..2] == [48, 53] && [48 as byte, 53][..1] == [48];
    assert DigitsVal([48, 53]) == 5;
    assert Itoa(5) == [53];
    assert b[3..8] == [97, 98, 99, 100, 101];
    AsciiIsUtf8(b[3..8]);
  }

  lemma SignedIntAccepted()
    ensures DecValue(SIGNED_INT, 0, 0) == Ok(Int(5), 4) && !PlainText(SIGNED_INT, 0, 0)
  {
    var b := SIGNED_INT;
    IndexFromIs(b, 0, CHAR_E, 3);
    assert b[1..3] == [43, 53] && b[1..3][1..] == [53];
    assert DigitsVal([53]) == 5;
    assert Itoa(5) == [53];
  }

  lemma PaddedIntAccepted()
    ensures DecValue(PADDED_INT, 0, 0) == Ok(Int(-5), 5) && !PlainText(PADDED_INT, 0, 0)
  {
    var b := PADDED_INT;
    IndexFromIs(b, 0, CHAR_E, 4);
    assert b[1..4] == [45, 48, 53] && b[1..4][1..] == [48, 53] && [48 as byte, 53][..1] == [48];
    assert DigitsVal([48, 53]) == 5;
    assert |Itoa(-5)| == 2;
  }

  /** The decoding of an entry with a one-letter key and a one-digit integer. */
  lemma ShortEntry(b: seq<byte>, i: nat, k: byte, n: nat)
    requires i + 6 <= |b| <= INT_MAX && 1 <= n < 10
    requires b[i..i + 6] == [49, 58, k, 105, DigitChar(n), 101]
    ensures DecString(b, i) == Ok([k], i + 3) && DecValue(b, i + 3, 1) == Ok(Int(n), i + 6)
  {
    assert Itoa(1) == [49] && Itoa(n) == [DigitChar(n)];
    var e := [49, 58, k, 105, DigitChar(n), 101];
    assert EncStr([k]) == [49, 58, k] && EncInt(n) == [105, DigitChar(n), 101];
    assert e == EncStr([k]) + EncInt(n);
    AtSplit(b, i, EncStr([k]), EncInt(n));
    StringAt(b, i, [k]);
    IntAt(b, i + 3, n);
    AtHead(b, i + 3, EncInt(n));
  }

  /** Two such entries in a dictionary: the second key decides, and the text is plain only if it is the greater one. */
  lemma TwoEntries(b: seq<byte>, k1: byte, k2: byte)
    requires b == [100, 49, 58, k1, 105, 49, 101, 49, 58, k2, 105, 50, 101, 101]
    ensures DecValue(b, 0, 0) == Ok(Dict(map[[k1] := Int(1)][[k2] := Int(2)]), 14)
    ensures PlainText(b, 0, 0) ==> k1 < k2
  {
    hide DecString, DecInt, DecItems, DecEntries, PlainString, PlainItems, PlainInt;
    assert DigitChar(1) == 49 && DigitChar(2) == 50;
    ShortEntry(b, 1, k1, 1);
    ShortEntry(b, 7, k2, 2);
    EntriesRound(b, 0, 1, 0, map[]);
    EntriesRound(b, 0, 7, 0, map[[k1] := Int(1)]);
    EntriesRound(b, 0, 13, 0, map[[k1] := Int(1)][[k2] := Int(2)]);
    if PlainText(b, 0, 0) {
      assert PlainEntries(b, 1, 0, None);
      assert PlainEntries(b, 7, 0, Some([k1]));
      OneLetter(k1, k2);
    }
  }

  lemma OneLetter(j: byte, k: byte)
    ensures KeyLess([j], [k]) <==> j < k
  {
    assert [j][1..] == [] && [k][1..] == [];
  }

  lemma UnsortedKeysAccepted()
    ensures DecValue(UNSORTED_KEYS, 0, 0) == Ok(Dict(map[[98] := Int(1), [97] := Int(2)]), 14)
    ensures !PlainText(UNSORTED_KEYS, 0, 0)
  {
    hide PlainText, DecValue;
    TwoEntries(UNSORTED_KEYS, 98, 97);
    assert map[[98 as byte] := Int(1)][[97 as byte] := Int(2)] == map[[98 as byte] := Int(1), [97 as byte] := Int(2)];
  }

  lemma RepeatedKeyAccepted()
    ensures DecValue(REPEATED_KEY, 0, 0) == Ok(Dict(map[[97] := Int(2)]), 14)
    ensures !PlainText(REPEATED_KEY, 0, 0)
  {
    hide PlainText, DecValue;
    TwoEntries(REPEATED_KEY, 97, 97);
    assert map[[97 as byte] := Int(1)][[97 as byte] := Int(2)] == map[[97 as byte] := Int(2)];
  }
}
