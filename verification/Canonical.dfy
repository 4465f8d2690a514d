/** What a successful decode tells about its input and its result. */
module Canonical {
  import opened Bytes
  import opened Decimal
  import opened KeyOrder
  import opened Value
  import opened Decoder
  import opened RoundTrip

  // ----- Success depends on the consumed bytes only -----

  /** The `len` bytes at `i` in `b` are those at `j` in `c`. */
  ghost predicate Same(b: seq<byte>, i: nat, c: seq<byte>, j: nat, len: nat) {
    i + len <= |b| && j + len <= |c| && b[i..i + len] == c[j..j + len]
  }

  lemma SameByte(b: seq<byte>, i: nat, c: seq<byte>, j: nat, len: nat, k: nat)
    requires Same(b, i, c, j, len) && k < len
    ensures i + k < |b| && j + k < |c| && c[j + k] == b[i + k]
  {
    assert c[j + k] == c[j..j + len][k] && b[i + k] == b[i..i + len][k];
  }

  lemma SameSlice(b: seq<byte>, i: nat, c: seq<byte>, j: nat, len: nat, from: nat, to: nat)
    requires Same(b, i, c, j, len) && from <= to <= len
    ensures i + to <= |b| && j + to <= |c| && b[i + from..i + to] == c[j + from..j + to]
    ensures Same(b, i + from, c, j + from, to - from)
  {
    SliceOfSlice(b, i, len, from, to);
    SliceOfSlice(c, j, len, from, to);
  }

  lemma SameIndex(b: seq<byte>, i: nat, c: seq<byte>, j: nat, len: nat, x: byte)
    requires Same(b, i, c, j, len) && IndexFrom(b, i, x) < i + len
    ensures IndexFrom(c, j, x) == j + (IndexFrom(b, i, x) - i)
  {
    var k := IndexFrom(b, i, x) - i;
    SameByte(b, i, c, j, len, k);
    forall m | j <= m < j + k ensures c[m] != x {
      SameByte(b, i, c, j, len, m - j);
    }
    IndexFromIs(c, j, x, j + k);
  }

  lemma StringLocal(b: seq<byte>, i: nat, c: seq<byte>, j: nat)
    requires i <= |b| && j <= |c| && DecString(b, i).Ok?
    requires Same(b, i, c, j, DecString(b, i).next - i)
    ensures DecString(c, j) == Ok(DecString(b, i).value, j + (DecString(b, i).next - i))
  {
    hide Atoi, IndexFrom, Same;
    var n := DecString(b, i).next;
    var colon := IndexFrom(b, i, COLON);
    SameIndex(b, i, c, j, n - i, COLON);
    SameSlice(b, i, c, j, n - i, 0, colon - i);
    SameSlice(b, i, c, j, n - i, colon + 1 - i, n - i);
  }

  lemma IntLocal(b: seq<byte>, i: nat, c: seq<byte>, j: nat)
    requires i < |b| && b[i] == CHAR_I && j < |c| && c[j] == CHAR_I && DecInt(b, i).Ok?
    requires Same(b, i, c, j, DecInt(b, i).next - i)
    ensures DecInt(c, j) == Ok(DecInt(b, i).value, j + (DecInt(b, i).next - i))
  {
    hide Atoi, IndexFrom, Same;
    var end := IndexFrom(b, i, CHAR_E);
    SameIndex(b, i, c, j, end + 1 - i, CHAR_E);
    SameSlice(b, i, c, j, end + 1 - i, 1, end - i);
    SameByte(b, i, c, j, end + 1 - i, end - i);
  }

  lemma {:induction false} ValueLocal(b: seq<byte>, i: nat, c: seq<byte>, j: nat, depth: int)
    requires DecValue(b, i, depth).Ok? && Same(b, i, c, j, DecValue(b, i, depth).next - i)
    ensures DecValue(c, j, depth) == Ok(DecValue(b, i, depth).value, j + (DecValue(b, i, depth).next - i))
    decreases Left(b, i), 0
  {
    hide DecString, DecInt, DecItems, DecEntries, Same, TextOf;
    var r := DecValue(b, i, depth);
    SameByte(b, i, c, j, r.next - i, 0);
    if IsDigit(b[i]) {
      StringLocal(b, i, c, j);
    } else if b[i] == CHAR_I {
      IntLocal(b, i, c, j);
    } else {
      SameSlice(b, i, c, j, r.next - i, 1, r.next - i);
      if b[i] == CHAR_L {
        ItemsLocal(b, i, i + 1, c, j, j + 1, depth, []);
      } else {
        EntriesLocal(b, i, i + 1, c, j, j + 1, depth, map[]);
      }
    }
  }

  lemma {:induction false} ItemsLocal(b: seq<byte>, start: nat, i: nat, c: seq<byte>, start': nat, j: nat, depth: int, acc: seq<Value>)
    requires start < i <= |b| && start' < j <= |c|
    requires DecItems(b, start, i, depth, acc).Ok? && Same(b, i, c, j, DecItems(b, start, i, depth, acc).next - i)
    ensures DecItems(c, start', j, depth, acc)
         == Ok(DecItems(b, start, i, depth, acc).value, j + (DecItems(b, start, i, depth, acc).next - i))
    decreases Left(b, i), 1
  {
    hide DecString, DecValue, DecItems, DecEntries, Same;
    var end := DecItems(b, start, i, depth, acc).next;
    ItemsRound(b, start, i, depth, acc);
    ItemsRound(c, start', j, depth, acc);
    SameByte(b, i, c, j, end - i, 0);
    if b[i] != CHAR_E {
      ItemsRound(b, start, DecValue(b, i, depth + 1).next, depth, acc + [DecValue(b, i, depth + 1).value]);
      var r := DecValue(b, i, depth + 1);
      var n := r.next;
      SameSlice(b, i, c, j, end - i, 0, n - i);
      ValueLocal(b, i, c, j, depth + 1);
      SameSlice(b, i, c, j, end - i, n - i, end - i);
      ItemsLocal(b, start, n, c, start', j + (n - i), depth, acc + [r.value]);
    }
  }

  lemma {:induction false} EntriesLocal(b: seq<byte>, start: nat, i: nat, c: seq<byte>, start': nat, j: nat, depth: int, acc: map<Key, Value>)
    requires start < i <= |b| && start' < j <= |c|
    requires DecEntries(b, start, i, depth, acc).Ok? && Same(b, i, c, j, DecEntries(b, start, i, depth, acc).next - i)
    ensures DecEntries(c, start', j, depth, acc)
         == Ok(DecEntries(b, start, i, depth, acc).value, j + (DecEntries(b, start, i, depth, acc).next - i))
    decreases Left(b, i), 1
  {
    hide DecString, DecValue, DecItems, DecEntries, Same;
    var end := DecEntries(b, start, i, depth, acc).next;
    EntriesRound(b, start, i, depth, acc);
    EntriesRound(c, start', j, depth, acc);
    SameByte(b, i, c, j, end - i, 0);
    if b[i] != CHAR_E {
      var key := DecString(b, i);
      var r := DecValue(b, key.next, depth + 1);
      EntriesRound(b, start, r.next, depth, acc[key.value := r.value]);
      var j1 := j + (key.next - i);
      var j2 := j + (r.next - i);
      SameSlice(b, i, c, j, end - i, 0, key.next - i);
      StringLocal(b, i, c, j);
      SameSlice(b, i, c, j, end - i, key.next - i, r.next - i);
      ValueLocal(b, key.next, c, j1, depth + 1);
      SameSlice(b, i, c, j, end - i, r.next - i, end - i);
      EntriesLocal(b, start, r.next, c, start', j2, depth, acc[key.value := r.value]);
    }
  }

  /** A successful decode reads nothing beyond where it stops, and does not care where it starts. */
  lemma DecodeIsLocal(b: seq<byte>, i: nat, depth: int, prefix: seq<byte>, suffix: seq<byte>)
    requires DecValue(b, i, depth).Ok?
    ensures var r := DecValue(b, i, depth);
            var consumed := b[i..r.next];
            DecValue(prefix + consumed + suffix, |prefix|, depth) == Ok(r.value, |prefix| + |consumed|)
  {
    var r := DecValue(b, i, depth);
    var consumed := b[i..r.next];
    var c := prefix + consumed + suffix;
    assert c[|prefix|..|prefix| + |consumed|] == consumed;
    ValueLocal(b, i, c, |prefix|, depth);
  }

  // ----- Decoded values are in canonical form and never encode longer -----

  /** The encoded length of the entries of dictionary `v` with keys in `s`. */
  ghost function Weight(v: Value, s: set<Key>): nat
    requires v.Dict? && Supported(v) && s <= v.entries.Keys
    decreases |s|
  {
    if s == {} then 0
    else
      LeastExists(s);
      var m :| IsLeast(m, s);
      |EncStr(m)| + |Enc(v.entries[m])| + Weight(v, s - {m})
  }

  lemma {:induction false} WeightIsLength(v: Value, s: set<Key>)
    requires v.Dict? && Supported(v) && s <= v.entries.Keys
    ensures EntriesSupported(v, SortedKeys(s)) && |EncEntries(v, SortedKeys(s))| == Weight(v, s)
    decreases |s|
  {
    if s != {} {
      var ks := SortedKeys(s);
      var m := ks[0];
      assert IsLeast(m, s) && ks[1..] == SortedKeys(s - {m}) by { LeastExists(s); }
      LeastUnique(s);
      WeightIsLength(v, s - {m});
      assert EntriesSupported(v, [m]);
      assert |EncEntry(v, m)| == |EncStr(m)| + |Enc(v.entries[m])|;
    }
  }

  lemma LeastUnique(s: set<Key>)
    ensures forall m, n :: IsLeast(m, s) && IsLeast(n, s) ==> m == n
  {
    forall m, n | IsLeast(m, s) && IsLeast(n, s) ensures m == n {
      KeyLessTotal(m, n);
    }
  }

  /** Any key may be counted first. */
  lemma {:induction false} WeightWithout(v: Value, s: set<Key>, k: Key)
    requires v.Dict? && Supported(v) && s <= v.entries.Keys && k in s
    ensures Weight(v, s) == |EncStr(k)| + |Enc(v.entries[k])| + Weight(v, s - {k})
    decreases |s|
  {
    hide Enc, EncStr, Supported;
    LeastExists(s);
    var m :| IsLeast(m, s);
    LeastUnique(s);
    if k != m {
      WeightWithout(v, s - {m}, k);
      assert IsLeast(m, s - {k});
      LeastUnique(s - {k});
      assert s - {m} - {k} == s - {k} - {m};
    }
  }

  lemma {:induction false} WeightSame(v: Value, w: Value, s: set<Key>)
    requires v.Dict? && Supported(v) && s <= v.entries.Keys
    requires w.Dict? && Supported(w) && s <= w.entries.Keys
    requires forall k :: k in s ==> v.entries[k] == w.entries[k]
    ensures Weight(v, s) == Weight(w, s)
    decreases |s|
  {
    hide Enc, EncStr, Supported;
    if s != {} {
      LeastExists(s);
      var m :| IsLeast(m, s);
      LeastUnique(s);
      WeightSame(v, w, s - {m});
    }
  }

  ghost function Total(m: map<Key, Value>): nat
    requires Supported(Dict(m))
  {
    Weight(Dict(m), m.Keys)
  }

  /** Storing an entry grows the dictionary by at most that entry, even when it replaces one. */
  lemma TotalAfterStore(m: map<Key, Value>, k: Key, x: Value)
    requires Supported(Dict(m)) && Supported(x)
    ensures Supported(Dict(m[k := x]))
    ensures Total(m[k := x]) <= Total(m) + |EncStr(k)| + |Enc(x)|
  {
    hide Enc, EncStr, Weight;
    var v, w := Dict(m), Dict(m[k := x]);
    var rest := m.Keys - {k};
    assert w.entries.Keys - {k} == rest;
    WeightWithout(w, w.entries.Keys, k);
    WeightSame(v, w, rest);
    if k in m {
      WeightWithout(v, m.Keys, k);
    } else {
      assert rest == m.Keys;
    }
  }

  /** A value the decoder could have produced at this depth. */
  ghost predicate Canon(v: Value, depth: int) {
    Supported(v) && Norm(v) == v && DepthFits(depth, Height(v))
  }

  ghost predicate CanonItems(items: seq<Value>, depth: int) {
    forall i :: 0 <= i < |items| ==> Canon(items[i], depth)
  }

  ghost predicate CanonEntries(m: map<Key, Value>, depth: int) {
    forall k :: k in m ==> Canon(m[k], depth)
  }

  lemma {:induction false} ListCanon(items: seq<Value>, depth: int)
    requires CanonItems(items, depth)
    ensures ItemsSupported(items) && NormItems(items) == items
    ensures items == [] || DepthFits(depth, HeightItems(items))
  {
    hide Supported, Norm, Height;
    if items != [] {
      assert Canon(items[0], depth);
      ListCanon(items[1..], depth);
      assert [items[0]] + items[1..] == items;
    }
  }

  lemma {:induction false} EntriesCanon(v: Value, ks: seq<Key>, depth: int)
    requires v.Dict? && CanonEntries(v.entries, depth)
    requires forall i :: 0 <= i < |ks| ==> ks[i] in v.entries
    ensures EntriesSupported(v, ks)
    ensures ks == [] || DepthFits(depth, HeightEntries(v, ks))
  {
    hide Supported, Norm, Height;
    if ks != [] {
      EntriesCanon(v, ks[1..], depth);
    }
  }

  lemma DictCanon(m: map<Key, Value>, depth: int)
    requires CanonEntries(m, depth + 1) && depth <= MAX_DECODE_DEPTH
    ensures Canon(Dict(m), depth)
    ensures |Enc(Dict(m))| == 2 + Total(m)
  {
    var v := Dict(m);
    assert Supported(v);
    NormBySortedKeys(v);
    EntriesCanon(v, SortedKeys(m.Keys), depth + 1);
    assert Norm(v).entries == m;
    WeightIsLength(v, m.Keys);
  }

  lemma StringNotLonger(b: seq<byte>, i: nat)
    requires i <= |b| && DecString(b, i).Ok?
    ensures |EncStr(DecString(b, i).value)| <= DecString(b, i).next - i
  {
    var colon := IndexFrom(b, i, COLON);
    ItoaShortest(b[i..colon]);
  }

  lemma IntNotLonger(b: seq<byte>, i: nat)
    requires i < |b| && b[i] == CHAR_I && DecInt(b, i).Ok?
    ensures DecInt(b, i).value.Int? && |Enc(DecInt(b, i).value)| <= DecInt(b, i).next - i
  {
    var end := IndexFrom(b, i, CHAR_E);
    ItoaShortest(b[i + 1..end]);
  }

  lemma {:induction false} ValueCanon(b: seq<byte>, i: nat, depth: int)
    requires DecValue(b, i, depth).Ok?
    ensures var r := DecValue(b, i, depth); Canon(r.value, depth) && |Enc(r.value)| <= r.next - i
    decreases Left(b, i), 0
  {
    hide Utf8Valid, DecString, DecInt, DecItems, DecEntries;
    var r := DecValue(b, i, depth);
    if IsDigit(b[i]) {
      StringNotLonger(b, i);
    } else if b[i] == CHAR_I {
      IntNotLonger(b, i);
    } else if b[i] == CHAR_L {
      ItemsCanon(b, i, i + 1, depth, []);
    } else {
      assert Total(map[]) == 0;
      EntriesDecodeCanon(b, i, i + 1, depth, map[]);
    }
  }

  lemma {:induction false} ItemsCanon(b: seq<byte>, start: nat, i: nat, depth: int, acc: seq<Value>)
    requires start < i <= |b| && depth <= MAX_DECODE_DEPTH && DecItems(b, start, i, depth, acc).Ok?
    requires CanonItems(acc, depth + 1)
    ensures ItemsSupported(acc)
    ensures var r := DecItems(b, start, i, depth, acc);
            Canon(r.value, depth) && |Enc(r.value)| <= |EncItems(acc)| + (r.next - i) + 1
    decreases Left(b, i), 1
  {
    hide DecValue, DecItems, Canon, Enc, EncItems;
    ItemsRound(b, start, i, depth, acc);
    ListCanon(acc, depth + 1);
    if b[i] == CHAR_E {
      ListValueCanon(acc, depth);
    } else {
      var r := DecValue(b, i, depth + 1);
      ValueCanon(b, i, depth + 1);
      CanonSupported(r.value, depth + 1);
      EncItemsSnoc(acc, r.value);
      ItemsRound(b, start, r.next, depth, acc + [r.value]);
      ItemsCanon(b, start, r.next, depth, acc + [r.value]);
    }
  }

  lemma CanonSupported(v: Value, depth: int)
    requires Canon(v, depth)
    ensures Supported(v)
  {
  }

  lemma ListValueCanon(items: seq<Value>, depth: int)
    requires CanonItems(items, depth + 1) && depth <= MAX_DECODE_DEPTH
    ensures Canon(List(items), depth) && ItemsSupported(items) && |Enc(List(items))| == |EncItems(items)| + 2
  {
    ListCanon(items, depth + 1);
  }

  lemma {:induction false} EntriesDecodeCanon(b: seq<byte>, start: nat, i: nat, depth: int, acc: map<Key, Value>)
    requires start < i <= |b| && depth <= MAX_DECODE_DEPTH && DecEntries(b, start, i, depth, acc).Ok?
    requires CanonEntries(acc, depth + 1)
    ensures Supported(Dict(acc))
    ensures var r := DecEntries(b, start, i, depth, acc);
            Canon(r.value, depth) && |Enc(r.value)| <= Total(acc) + (r.next - i) + 1
    decreases Left(b, i), 1
  {
    hide DecString, DecValue, DecEntries, Canon, Enc, EncStr, Total;
    EntriesRound(b, start, i, depth, acc);
    DictCanon(acc, depth);
    CanonSupported(Dict(acc), depth);
    if b[i] != CHAR_E {
      var key := DecString(b, i);
      var r := DecValue(b, key.next, depth + 1);
      StringNotLonger(b, i);
      ValueCanon(b, key.next, depth + 1);
      CanonSupported(r.value, depth + 1);
      TotalAfterStore(acc, key.value, r.value);
      EntriesRound(b, start, r.next, depth, acc[key.value := r.value]);
      EntriesDecodeCanon(b, start, r.next, depth, acc[key.value := r.value]);
    }
  }

  /**
   * Whatever the decoder accepts, re-encoding what it returned gives a text that is no longer than what was read,
   * and that decodes to the very same value.
   */
  lemma Canonicalisation(b: seq<byte>, i: nat, depth: int)
    requires |b| <= INT_MAX && DecValue(b, i, depth).Ok?
    ensures var r := DecValue(b, i, depth);
            && Supported(r.value)
            && |Enc(r.value)| <= r.next - i
            && DecValue(Enc(r.value), 0, depth) == Ok(r.value, |Enc(r.value)|)
  {
    var v := DecValue(b, i, depth).value;
    ValueCanon(b, i, depth);
    assert [] + Enc(v) + [] == Enc(v);
    RoundTripInContext([], v, [], depth);
  }
}
