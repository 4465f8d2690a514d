/**
 * The texts of the bencoding format (BEP 3), byte by byte: what each kind of value is printed as, what each kind of text
 * is read as, and the numbers and orders both rest on (internal/bencode/encode.go:11-78,
 * internal/bencode/decode.go:28-268). The bytes are literals here.
 */
module Grammar {
  import opened Bytes
  import opened Decimal
  import opened KeyOrder
  import opened Value
  import opened Decoder
  import opened RoundTrip
  import opened CanonicalText

  // ----- Numbers -----

  function Pow10(k: nat): (p: nat)
    ensures p > 0
  {
    if k == 0 then 1 else 10 * Pow10(k - 1)
  }

  /** The digit at position `k` stands for that many powers of ten. */
  lemma {:induction false} DigitsMean(n: nat, k: nat)
    requires k < |Digits(n)|
    ensures Digits(n)[k] as int == 48 + n / Pow10(|Digits(n)| - 1 - k) % 10
  {
    var s := Digits(n);
    if n < 10 {
      DigitIs(n);
    } else {
      var front := Digits(n / 10);
      if k < |front| {
        DigitsMean(n / 10, k);
        DivDiv(n, |front| - 1 - k);
        assert s[k] == front[k];
      } else {
        DigitIs(n % 10);
      }
    }
  }

  lemma DigitIs(n: nat)
    requires n < 10
    ensures DigitChar(n) as int == 48 + n
  {
  }

  lemma DivDiv(n: nat, k: nat)
    ensures n / 10 / Pow10(k) == n / Pow10(k + 1)
  {
    var p := Pow10(k);
    var q, r := n / 10 / p, n / 10 % p;
    assert n / 10 == q * p + r;
    assert n == 10 * (q * p + r) + n % 10;
    assert n == q * (10 * p) + (10 * r + n % 10);
    Quotient(n, 10 * p, q, 10 * r + n % 10);
  }

  lemma Quotient(n: nat, d: nat, q: nat, r: nat)
    requires d > 0 && n == q * d + r && r < d
    ensures n / d == q
  {
    var x := n / d;
    assert n == x * d + n % d;
    assert x * d + n % d == q * d + r;
    assert (x - q) * d == r - n % d;
    SmallMultiple(x - q, d);
  }

  lemma SmallMultiple(k: int, d: nat)
    requires d > 0 && 0 - d < k * d < d
    ensures k == 0
  {
    assert k > 0 ==> k * d >= d;
    assert k < 0 ==> k * d <= 0 - d;
  }

  /** A printed number: no leading zero, a minus sign (45) if it is negative, and the digits of its size. */
  lemma ItoaMeans(n: int)
    ensures n >= 0 ==> Itoa(n) == Digits(n)
    ensures n < 0 ==> Itoa(n) == [45] + Digits(-n)
    ensures |Digits(if n < 0 then -n else n)| > 1 ==> Digits(if n < 0 then -n else n)[0] != 48
  {
  }

  /** Reading digits, one more at a time. */
  lemma DigitsValMeans(s: seq<byte>, c: byte)
    requires AllDigits(s) && 48 <= c <= 57
    ensures DigitsVal([]) == 0
    ensures AllDigits(s + [c]) && DigitsVal(s + [c]) == 10 * DigitsVal(s) + (c as int - 48)
  {
    assert (s + [c])[..|s|] == s;
  }

  /** A number is read from digits alone, or after one plus (43) or minus (45) sign, if it fits 64 bits. */
  lemma AtoiMeans(s: seq<byte>)
    ensures var signed := s != [] && (s[0] == 43 || s[0] == 45);
            var digits := if signed then s[1..] else s;
            && (Atoi(s).Some? ==> digits != [] && forall k :: 0 <= k < |digits| ==> 48 <= digits[k] <= 57)
            && (digits != [] && (forall k :: 0 <= k < |digits| ==> 48 <= digits[k] <= 57) ==>
                  var n := if signed && s[0] == 45 then -DigitsVal(digits) else DigitsVal(digits);
                  Atoi(s) == if -0x8000_0000_0000_0000 <= n <= 0x7FFF_FFFF_FFFF_FFFF then Some(n) else None)
  {
  }

  // ----- Orders -----

  /** The first `k` bytes agree, and then the first key ends or has the smaller byte. */
  ghost predicate LessAt(a: Key, b: Key, k: nat) {
    k <= |a| && k < |b| && (k < |a| ==> a[k] < b[k]) && forall j :: 0 <= j < k ==> a[j] == b[j]
  }

  /** A key comes before another if it is a proper prefix of it, or smaller at the first byte that differs. */
  lemma {:induction false} KeyLessMeans(a: Key, b: Key)
    ensures KeyLess(a, b) <==> exists k: nat :: LessAt(a, b, k)
  {
    if b == [] {
    } else if a == [] || a[0] != b[0] {
      assert a == [] || a[0] < b[0] ==> LessAt(a, b, 0);
    } else {
      KeyLessMeans(a[1..], b[1..]);
      forall k: nat ensures LessAt(a, b, k + 1) <==> LessAt(a[1..], b[1..], k) {
        LessLater(a, b, k);
      }
      if k: nat :| LessAt(a[1..], b[1..], k) { assert LessAt(a, b, k + 1); }
      if k: nat :| LessAt(a, b, k) {
        assert k > 0;
        assert LessAt(a[1..], b[1..], k - 1) by { LessLater(a, b, k - 1); }
      }
    }
  }

  lemma LessLater(a: Key, b: Key, k: nat)
    requires a != [] && b != [] && a[0] == b[0]
    ensures LessAt(a, b, k + 1) <==> LessAt(a[1..], b[1..], k)
  {
    assert forall j :: 0 <= j < k && k < |a| && k < |b| ==> a[1..][j] == a[j + 1] && b[1..][j] == b[j + 1];
    if LessAt(a[1..], b[1..], k) {
      forall j | 0 <= j < k + 1 ensures a[j] == b[j] {
        if j > 0 { assert a[1..][j - 1] == b[1..][j - 1]; }
      }
    }
  }

  // ----- What is printed -----

  /** Everything but the last byte. */
  function Open(s: seq<byte>): seq<byte>
    requires s != []
  {
    s[..|s| - 1]
  }

  /** Strings and numbers. */
  lemma PrintedScalar(v: Value)
    requires Supported(v) && !v.List? && !v.Dict?
    ensures v.Str? ==> Enc(v) == Itoa(|v.s|) + [58] + v.s
    ensures v.Raw? ==> Enc(v) == Itoa(|v.b|) + [58] + v.b
    ensures v.Int? ==> Enc(v) == [105] + Itoa(v.n) + [101]
  {
  }

  /** The empty list is "le", and one more item goes before the closing byte. */
  lemma PrintedList(items: seq<Value>, x: Value)
    requires Supported(List(items)) && Supported(x)
    ensures Enc(List([])) == [108, 101]
    ensures Supported(List(items + [x]))
    ensures Enc(List(items + [x])) == Open(Enc(List(items))) + Enc(x) + [101]
  {
    hide Enc, EncItems;
    ListIs([]);
    ListIs(items);
    EncItemsSnoc(items, x);
    ListIs(items + [x]);
    assert Open(Enc(List(items))) == [108] + EncItems(items);
  }

  lemma ListIs(items: seq<Value>)
    requires Supported(List(items))
    ensures ItemsSupported(items) && Enc(List(items)) == [108] + EncItems(items) + [101]
    ensures items == [] ==> EncItems(items) == []
  {
  }

  /** The empty dictionary is "de", and an entry with a greater key goes before the closing byte. */
  lemma PrintedDict(m: map<Key, Value>, k: Key, x: Value)
    requires Supported(Dict(m)) && Supported(x) && forall j :: j in m ==> KeyLess(j, k)
    ensures Enc(Dict(map[])) == [100, 101]
    ensures Supported(Dict(m[k := x]))
    ensures Enc(Dict(m[k := x])) == Open(Enc(Dict(m))) + Itoa(|k|) + [58] + k + Enc(x) + [101]
  {
    hide Enc, EncEntries, EncEntry, SortedKeys, Supported, Open, Itoa;
    EmptyDict();
    KeyLessTotal(k, k);
    var v, w := Dict(m), Dict(m[k := x]);
    var ks := SortedKeys(m.Keys);
    StillSupported(m, k, x);
    GreatestLast(m, k, x);
    DictIs(v);
    DictIs(w);
    OneMore(v, w, ks, k, x);
    Reopen(EncEntries(v, ks), Itoa(|k|) + [58] + k + Enc(x));
    Regroup(Open(Enc(v)), Itoa(|k|) + [58] + k, Enc(x));
    Regroup(Open(Enc(v)), Itoa(|k|) + [58], k);
    Regroup(Open(Enc(v)), Itoa(|k|), [58]);
  }

  lemma Reopen(entries: seq<byte>, more: seq<byte>)
    ensures Open([100] + entries + [101]) == [100] + entries
    ensures [100] + (entries + more) + [101] == Open([100] + entries + [101]) + more + [101]
  {
  }

  lemma Regroup(a: seq<byte>, b: seq<byte>, c: seq<byte>)
    ensures a + (b + c) == a + b + c
  {
  }

  lemma StillSupported(m: map<Key, Value>, k: Key, x: Value)
    requires Supported(Dict(m)) && Supported(x)
    ensures Supported(Dict(m[k := x]))
  {
  }

  lemma GreatestLast(m: map<Key, Value>, k: Key, x: Value)
    requires forall j :: j in m ==> KeyLess(j, k)
    ensures SortedKeys(m[k := x].Keys) == SortedKeys(m.Keys) + [k]
    ensures forall j :: 0 <= j < |SortedKeys(m.Keys)| ==> SortedKeys(m.Keys)[j] in m && SortedKeys(m.Keys)[j] != k
  {
    hide SortedKeys, KeyLess;
    KeyLessTotal(k, k);
    var ks, all := SortedKeys(m.Keys), m[k := x].Keys;
    SortedKeysLists(m.Keys);
    SortedKeysLists(all);
    assert forall j :: 0 <= j < |ks| ==> ks[j] in ks;
    assert forall y :: y in ks + [k] <==> y in ks || y == k;
    assert Lists(ks + [k], all);
    ListingUnique(SortedKeys(all), ks + [k], all);
  }

  lemma OneMore(v: Value, w: Value, ks: seq<Key>, k: Key, x: Value)
    requires v.Dict? && EntriesSupported(v, ks) && Supported(x) && w == Dict(v.entries[k := x])
    requires forall j :: 0 <= j < |ks| ==> ks[j] in v.entries && ks[j] != k
    ensures EntriesSupported(w, ks + [k])
    ensures EncEntries(w, ks + [k]) == EncEntries(v, ks) + (Itoa(|k|) + [58] + k + Enc(x))
  {
    hide Enc, EncEntries, Supported;
    EntriesUnchanged(v, w, ks);
    EncEntriesSnoc(w, ks, k);
  }

  lemma EmptyDict()
    ensures Enc(Dict(map[])) == [100, 101]
  {
    var none: map<Key, Value> := map[];
    assert SortedKeys(none.Keys) == [];
  }

  lemma DictIs(v: Value)
    requires v.Dict? && Supported(v)
    ensures EntriesSupported(v, SortedKeys(v.entries.Keys))
    ensures Enc(v) == [100] + EncEntries(v, SortedKeys(v.entries.Keys)) + [101]
  {
  }

  // ----- What is read -----

  /** The first byte tells the kind: a digit a string, 105 a number, 108 a list, 100 a dictionary. */
  lemma ReadAs(b: seq<byte>, i: nat, depth: int)
    requires DecValue(b, i, depth).Ok?
    ensures var r := DecValue(b, i, depth);
            && depth <= 512 && i < r.next <= |b|
            && (48 <= b[i] <= 57 <==> r.value.Str? || r.value.Raw?)
            && (b[i] == 105 <==> r.value.Int?) && (b[i] == 108 <==> r.value.List?) && (b[i] == 100 <==> r.value.Dict?)
            && (r.value.Int? || r.value.List? || r.value.Dict? ==> b[r.next - 1] == 101)
  {
    hide DecString, DecInt, DecItems, DecEntries, TextOf;
    if IsDigit(b[i]) { TextKind(b, i); }
    if b[i] == CHAR_I { IntEnd(b, i); }
    if b[i] == CHAR_L { ItemsEnd(b, i, i + 1, depth, []); }
    if b[i] == CHAR_D { EntriesEnd(b, i, i + 1, depth, map[]); }
  }

  lemma TextKind(b: seq<byte>, i: nat)
    requires i <= |b| && DecString(b, i).Ok?
    ensures var s := DecString(b, i).value; TextOf(s).Str? || TextOf(s).Raw?
  {
    hide DecString, Utf8Valid;
  }

  lemma IntEnd(b: seq<byte>, i: nat)
    requires i < |b| && b[i] == CHAR_I && DecInt(b, i).Ok?
    ensures DecInt(b, i).value.Int? && i < DecInt(b, i).next <= |b| && b[DecInt(b, i).next - 1] == 101
  {
    hide Atoi;
  }

  lemma {:induction false} ItemsEnd(b: seq<byte>, start: nat, i: nat, depth: int, acc: seq<Value>)
    requires start < i <= |b|
    ensures var r := DecItems(b, start, i, depth, acc); r.Ok? ==> r.value.List? && i < r.next <= |b| && b[r.next - 1] == 101
    decreases Left(b, i)
  {
    hide DecValue, DecItems;
    ItemsRound(b, start, i, depth, acc);
    if i < |b| && b[i] != CHAR_E {
      var r := DecValue(b, i, depth + 1);
      if r.Ok? { ItemsEnd(b, start, r.next, depth, acc + [r.value]); }
    }
  }

  lemma {:induction false} EntriesEnd(b: seq<byte>, start: nat, i: nat, depth: int, acc: map<Key, Value>)
    requires start < i <= |b|
    ensures var r := DecEntries(b, start, i, depth, acc); r.Ok? ==> r.value.Dict? && i < r.next <= |b| && b[r.next - 1] == 101
    decreases Left(b, i)
  {
    hide DecValue, DecEntries, DecString;
    EntriesRound(b, start, i, depth, acc);
    if i < |b| && b[i] != CHAR_E {
      var k := DecString(b, i);
      if k.Ok? {
        var r := DecValue(b, k.next, depth + 1);
        if r.Ok? { EntriesEnd(b, start, r.next, depth, acc[k.value := r.value]); }
      }
    }
  }

  /** Deeper than 512 levels nothing is read; down to there a zero is. */
  lemma DepthLimit(b: seq<byte>, i: nat, depth: int)
    ensures depth > 512 ==> DecValue(b, i, depth) == Err(i, DecodeError(i, DepthExceeded, []))
    ensures DecValue([105, 48, 101], 0, depth).Ok? <==> depth <= 512
  {
    var zero: seq<byte> := [105, 48, 101];
    IntRead(zero, 0, 2);
    assert zero[1..2] == [48];
    assert Atoi([48]) == Some(0) by { assert DigitsVal([48]) == 0; }
  }

  /**
   * A string: from `i` to the first colon (58) a number that is not negative, and behind it that many bytes. It is text
   * if it is valid UTF-8.
   */
  lemma StringRead(b: seq<byte>, i: nat, colon: nat)
    requires i <= colon < |b| && b[colon] == 58 && forall j :: i <= j < colon ==> b[j] != 58
    ensures var r, n := DecString(b, i), Atoi(b[i..colon]);
            && (r.Ok? <==> n.Some? && 0 <= n.value <= |b| - colon - 1)
            && (r.Ok? ==> r.value == b[colon + 1..colon + 1 + n.value] && r.next == colon + 1 + n.value)
            && (r.Err? ==> FailsWith(b, r, i, if n.None? then BadNumber else if n.value < 0 then NegativeLength(n.value) else TooLong(n.value)))
  {
    IndexFromIs(b, i, 58, colon);
  }

  lemma NoColon(b: seq<byte>, i: nat)
    requires i <= |b| && forall j :: i <= j < |b| ==> b[j] != 58
    ensures FailsWith(b, DecString(b, i), i, MissingColon)
  {
  }

  /** An error at position `i`, with up to 20 bytes of the input from there. */
  predicate FailsWith<T(==)>(b: seq<byte>, r: Decoded<T>, i: nat, reason: Reason) {
    && r.Err? && r.next == i == r.error.position && r.error.reason == reason && i <= |b|
    && r.error.context == b[i..if i + 20 < |b| then i + 20 else |b|]
  }

  /** A number: up to the first "e" (101), not with a zero before other digits, and not "-0". */
  lemma IntRead(b: seq<byte>, i: nat, end: nat)
    requires i < end < |b| && b[i] == 105 && b[end] == 101 && forall j :: i <= j < end ==> b[j] != 101
    ensures var r, text := DecInt(b, i), b[i + 1..end];
            && (r.Ok? <==> Atoi(text).Some? && !(|text| > 1 && text[0] == 48) && text != [45, 48])
            && (r.Ok? ==> r.value == Int(Atoi(text).value) && r.next == end + 1)
            && (r.Err? ==> FailsWith(b, r, i, if text == [] then EmptyInteger
                                              else if |text| > 1 && text[0] == 48 then LeadingZero
                                              else if text == [45, 48] then NegativeZero else BadNumber))
  {
    IndexFromIs(b, i, 101, end);
  }

  lemma NoEnd(b: seq<byte>, i: nat)
    requires i < |b| && b[i] == 105 && forall j :: i <= j < |b| ==> b[j] != 101
    ensures FailsWith(b, DecInt(b, i), i, MissingTerminator)
  {
  }

  /**
   * What goes wrong down to the depth limit: nothing is left, or the first byte belongs to no kind. In a list the error
   * of an item is reported where the list begins, in a dictionary where it occurred, and a missing end where it began.
   */
  lemma ErrorsMean(b: seq<byte>, i: nat, depth: int)
    requires DecValue(b, i, depth).Err? && depth <= 512
    ensures var r := DecValue(b, i, depth);
            if i >= |b| then r == Err(i, DecodeError(i, UnexpectedEnd, []))
            else if b[i] == 108 then
              FailsWith(b, r, i, MissingTerminator) || (r.error.reason.Nested? && FailsWith(b, r, i, r.error.reason))
            else if b[i] == 100 then
              FailsWith(b, r, i, MissingTerminator)
              || (r.error.reason.Nested? && FailsWith(b, r, r.error.reason.inner.position, r.error.reason))
            else if 48 <= b[i] <= 57 then r == Err(DecString(b, i).next, DecString(b, i).error)
            else if b[i] == 105 then r == DecInt(b, i)
            else FailsWith(b, r, i, InvalidIdentifier(b[i]))
  {
    hide DecString, DecInt, DecItems, DecEntries;
    if i < |b| && b[i] == CHAR_L { ItemsFail(b, i, i + 1, depth, []); }
    if i < |b| && b[i] == CHAR_D { EntriesFail(b, i, i + 1, depth, map[]); }
  }

  lemma {:induction false} ItemsFail(b: seq<byte>, start: nat, i: nat, depth: int, acc: seq<Value>)
    requires start < i <= |b|
    ensures var r := DecItems(b, start, i, depth, acc);
            r.Err? ==> FailsWith(b, r, start, r.error.reason) && (r.error.reason.MissingTerminator? || r.error.reason.Nested?)
    decreases Left(b, i)
  {
    hide DecValue, DecItems;
    ItemsRound(b, start, i, depth, acc);
    if i < |b| && b[i] != CHAR_E {
      var r := DecValue(b, i, depth + 1);
      if r.Ok? { ItemsFail(b, start, r.next, depth, acc + [r.value]); }
    }
  }

  lemma {:induction false} EntriesFail(b: seq<byte>, start: nat, i: nat, depth: int, acc: map<Key, Value>)
    requires start < i <= |b|
    ensures var r := DecEntries(b, start, i, depth, acc);
            r.Err? ==> FailsWith(b, r, start, MissingTerminator)
                       || (r.error.reason.Nested? && FailsWith(b, r, r.error.reason.inner.position, r.error.reason))
    decreases Left(b, i)
  {
    hide DecValue, DecEntries, DecString;
    EntriesRound(b, start, i, depth, acc);
    if i < |b| && b[i] != CHAR_E {
      var k := DecString(b, i);
      if k.Ok? {
        var r := DecValue(b, k.next, depth + 1);
        if r.Ok? { EntriesFail(b, start, r.next, depth, acc[k.value := r.value]); }
      }
    }
  }

  // ----- A nested text -----

  // "lli-5ee2:abde", a list of a list of one number, a string, and an empty dictionary.
  const NESTED: seq<byte> := [108, 108, 105, 45, 53, 101, 101, 50, 58, 97, 98, 100, 101, 101]

  function NestedValue(): Value {
    List([List([Int(-5)]), Str([97, 98]), Dict(map[])])
  }

  lemma InnerPrinted()
    ensures Supported(List([Int(-5)])) && Enc(List([Int(-5)])) == [108, 105, 45, 53, 101, 101]
  {
    hide Enc;
    PrintedScalar(Int(-5));
    assert Itoa(-5) == [45, 53];
    PrintedList([], Int(-5));
    assert [] + [Int(-5)] == [Int(-5)];
  }

  lemma NestedPrinted()
    ensures Supported(NestedValue()) && Enc(NestedValue()) == NESTED
  {
    hide Enc;
    var inner := List([Int(-5)]);
    InnerPrinted();
    PrintedScalar(Str([97, 98]));
    EmptyDict();
    assert Itoa(2) == [50];
    PrintedList([], inner);
    assert [] + [inner] == [inner];
    PrintedList([inner], Str([97, 98]));
    assert [inner] + [Str([97, 98])] == [inner, Str([97, 98])];
    PrintedList([inner, Str([97, 98])], Dict(map[]));
    assert [inner, Str([97, 98])] + [Dict(map[])] == [inner, Str([97, 98]), Dict(map[])];
  }

  lemma NestedRead()
    ensures DecValue(NESTED, 0, 0) == Ok(NestedValue(), |NESTED|)
  {
    hide Enc, DecValue;
    NestedPrinted();
    assert [] + NESTED + [] == NESTED;
    NestedShape();
    RoundTripInContext([], NestedValue(), [], 0);
  }

  lemma NestedShape()
    ensures Norm(NestedValue()) == NestedValue() && Height(NestedValue()) <= 512
  {
    AsciiIsUtf8([97, 98]);
    var v := NestedValue();
    var rest := v.items[1..];
    assert NormItems(v.items) == [Norm(v.items[0])] + NormItems(rest);
    assert NormItems(rest) == [Norm(rest[0])] + NormItems(rest[1..]);
    assert NormItems(rest[1..]) == [Norm(rest[1])] + NormItems(rest[1..][1..]);
    assert NormItems([Int(-5)]) == [Int(-5)];
  }
}
