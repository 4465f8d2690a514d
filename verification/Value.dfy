/** The Go values the bencode package handles, and the text the encoder gives each of them. */
module Value {
  import opened Bytes
  import opened Decimal
  import opened KeyOrder

  /**
   * `Str` is a Go string and `Raw` a byte slice: the encoder treats them alike, the decoder chooses
   * between them by UTF-8 validity. `Unsupported` is any other dynamic type.
   */
  datatype Value =
    | Str(s: seq<byte>)
    | Raw(b: seq<byte>)
    | Int(n: int64)
    | List(items: seq<Value>)
    | Dict(entries: map<Key, Value>)
    | Unsupported

  predicate Cont(b: byte) {
    0x80 <= b <= 0xBF
  }

  /** `utf8.Valid`: no overlong forms, no surrogates, nothing above U+10FFFF. */
  predicate Utf8Valid(s: seq<byte>) {
    if s == [] then true
    else if s[0] < 0x80 then Utf8Valid(s[1..])
    else if 0xC2 <= s[0] <= 0xDF then |s| >= 2 && Cont(s[1]) && Utf8Valid(s[2..])
    else if 0xE0 <= s[0] <= 0xEF then
      && |s| >= 3 && Cont(s[1]) && Cont(s[2])
      && (s[0] == 0xE0 ==> s[1] >= 0xA0)
      && (s[0] == 0xED ==> s[1] <= 0x9F)
      && Utf8Valid(s[3..])
    else if 0xF0 <= s[0] <= 0xF4 then
      && |s| >= 4 && Cont(s[1]) && Cont(s[2]) && Cont(s[3])
      && (s[0] == 0xF0 ==> s[1] >= 0x90)
      && (s[0] == 0xF4 ==> s[1] <= 0x8F)
      && Utf8Valid(s[4..])
    else false
  }

  lemma {:induction false} AsciiIsUtf8(s: seq<byte>)
    requires forall i :: 0 <= i < |s| ==> s[i] < 0x80
    ensures Utf8Valid(s)
  {
    if s != [] { AsciiIsUtf8(s[1..]); }
  }

  /** The type the decoder gives to a byte string. */
  function TextOf(s: seq<byte>): Value {
    if Utf8Valid(s) then Str(s) else Raw(s)
  }

  /** No unsupported value anywhere inside. */
  ghost predicate Supported(v: Value) {
    match v
    case Unsupported => false
    case List(items) => forall x :: x in items ==> Supported(x)
    case Dict(m) => forall k :: k in m ==> Supported(m[k])
    case _ => true
  }

  /** `v` with every byte string retyped as the decoder would type it. */
  ghost function Norm(v: Value): Value {
    match v
    case Str(s) => TextOf(s)
    case Raw(s) => TextOf(s)
    case Int(_) => v
    case List(items) => List(NormItems(items))
    case Dict(m) => Dict(map k | k in m :: Norm(m[k]))
    case Unsupported => v
  }

  ghost function NormItems(items: seq<Value>): (r: seq<Value>)
    ensures |r| == |items|
  {
    if items == [] then [] else [Norm(items[0])] + NormItems(items[1..])
  }

  lemma {:induction false} NormItemAt(items: seq<Value>, i: nat)
    requires i < |items|
    ensures NormItems(items)[i] == Norm(items[i])
  {
    if i > 0 { NormItemAt(items[1..], i - 1); }
  }

  // ----- Nesting depth -----

  function Max(a: nat, b: nat): nat {
    if a < b then b else a
  }

  /** How many levels of nested calls decoding `v` needs below the first one. */
  ghost function Height(v: Value): nat
    decreases v, 1, 0
  {
    match v
    case List(items) => if items == [] then 0 else 1 + HeightItems(items)
    case Dict(m) => if m == map[] then 0 else 1 + HeightEntries(v, SortedKeys(m.Keys))
    case _ => 0
  }

  ghost function HeightItems(items: seq<Value>): nat
    decreases items, 0, 0
  {
    if items == [] then 0 else Max(Height(items[0]), HeightItems(items[1..]))
  }

  ghost function HeightEntries(v: Value, ks: seq<Key>): nat
    requires v.Dict? && forall k :: k in ks ==> k in v.entries
    decreases v, 0, |ks|
  {
    if ks == [] then 0 else Max(Height(v.entries[ks[0]]), HeightEntries(v, ks[1..]))
  }

  // ----- Encoded text -----

  function EncStr(s: seq<byte>): (r: seq<byte>)
    ensures |r| > 0 && IsDigit(r[0])
  {
    Itoa(|s|) + [COLON] + s
  }

  function EncInt(n: int): seq<byte> {
    [CHAR_I] + Itoa(n) + [CHAR_E]
  }

  ghost predicate ItemsSupported(items: seq<Value>) {
    forall i :: 0 <= i < |items| ==> Supported(items[i])
  }

  ghost predicate EntriesSupported(v: Value, ks: seq<Key>) {
    v.Dict? && forall i :: 0 <= i < |ks| ==> ks[i] in v.entries && Supported(v.entries[ks[i]])
  }

  /** What `Encode` produces. */
  ghost function Enc(v: Value): (r: seq<byte>)
    requires Supported(v)
    ensures |r| > 0 && r[0] != CHAR_E
    decreases v, 1, 0
  {
    match v
    case Str(s) => EncStr(s)
    case Raw(s) => EncStr(s)
    case Int(n) => EncInt(n)
    case List(items) => [CHAR_L] + EncItems(items) + [CHAR_E]
    case Dict(m) => [CHAR_D] + EncEntries(v, SortedKeys(m.Keys)) + [CHAR_E]
  }

  ghost function EncItems(items: seq<Value>): seq<byte>
    requires ItemsSupported(items)
    decreases items, 0, 0
  {
    if items == [] then [] else Enc(items[0]) + EncItems(items[1..])
  }

  ghost function EncEntries(v: Value, ks: seq<Key>): seq<byte>
    requires EntriesSupported(v, ks)
    decreases v, 0, |ks|
  {
    if ks == [] then []
    else EncEntry(v, ks[0]) + EncEntries(v, ks[1..])
  }

  ghost function EncEntry(v: Value, k: Key): seq<byte>
    requires EntriesSupported(v, [k])
    decreases v, 0, 0
  {
    assert [k][0] == k;
    EncStr(k) + Enc(v.entries[k])
  }

  lemma {:induction false} EncItemsSnoc(items: seq<Value>, x: Value)
    requires Supported(x) && ItemsSupported(items)
    ensures ItemsSupported(items + [x])
    ensures EncItems(items + [x]) == EncItems(items) + Enc(x)
  {
    var all := items + [x];
    if items == [] {
      assert all == [x] && all[1..] == [];
    } else {
      EncItemsSnoc(items[1..], x);
      assert all[0] == items[0] && all[1..] == items[1..] + [x];
      Assoc(Enc(items[0]), EncItems(items[1..]), Enc(x));
    }
  }

  lemma {:induction false} EncEntriesSnoc(v: Value, ks: seq<Key>, k: Key)
    requires EntriesSupported(v, ks) && EntriesSupported(v, [k])
    ensures EntriesSupported(v, ks + [k])
    ensures EncEntries(v, ks + [k]) == EncEntries(v, ks) + EncEntry(v, k)
  {
    var all := ks + [k];
    if ks == [] {
      assert all == [k] && all[1..] == [];
    } else {
      assert EntriesSupported(v, [ks[0]]);
      EncEntriesSnoc(v, ks[1..], k);
      assert all[0] == ks[0] && all[1..] == ks[1..] + [k];
      Assoc(EncEntry(v, ks[0]), EncEntries(v, ks[1..]), EncEntry(v, k));
    }
  }
}
