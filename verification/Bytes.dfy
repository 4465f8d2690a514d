/** Bytes, Go's 64-bit `int`, and the few slice operations the other modules share. */
module Bytes {
  newtype byte = b: int | 0 <= b < 256

  const INT_MAX: int := 0x7FFF_FFFF_FFFF_FFFF
  const INT_MIN: int := -0x8000_0000_0000_0000

  /** Go's `int` on a 64-bit platform. */
  type int64 = n: int | INT_MIN <= n <= INT_MAX

  datatype Option<+T> = None | Some(value: T)

  const PLUS: byte := 43
  const MINUS: byte := 45
  const COLON: byte := 58
  const CHAR_D: byte := 100
  const CHAR_E: byte := 101
  const CHAR_I: byte := 105
  const CHAR_L: byte := 108

  /** `e` occurs in `b` at offset `i`. */
  ghost predicate At(b: seq<byte>, i: nat, e: seq<byte>) {
    i + |e| <= |b| && b[i..i + |e|] == e
  }

  lemma Assoc(a: seq<byte>, b: seq<byte>, c: seq<byte>)
    ensures a + b + c == a + (b + c)
  {
  }

  lemma AtSplit(b: seq<byte>, i: nat, x: seq<byte>, y: seq<byte>)
    requires At(b, i, x + y)
    ensures At(b, i, x) && At(b, i + |x|, y)
  {
    assert b[i..i + |x|] == b[i..i + |x + y|][..|x|];
    assert b[i + |x|..i + |x| + |y|] == b[i..i + |x + y|][|x|..];
  }

  lemma AtHead(b: seq<byte>, i: nat, x: seq<byte>)
    requires At(b, i, x) && x != []
    ensures i < i + |x| <= |b| && b[i] == x[0]
  {
    assert b[i..i + |x|][0] == b[i];
  }

  lemma SliceOfSlice(b: seq<byte>, i: nat, len: nat, from: nat, to: nat)
    requires i + len <= |b| && from <= to <= len
    ensures b[i + from..i + to] == b[i..i + len][from..to]
  {
    var x, y := b[i + from..i + to], b[i..i + len][from..to];
    forall k | 0 <= k < |x| ensures x[k] == y[k] {
      assert x[k] == b[i + from + k];
    }
  }

  /** The first offset from `i` on that holds `c`, or the length of `b`. */
  function IndexFrom(b: seq<byte>, i: nat, c: byte): (k: nat)
    requires i <= |b|
    ensures i <= k <= |b|
    ensures k < |b| ==> b[k] == c
    ensures forall j :: i <= j < k ==> b[j] != c
    decreases |b| - i
  {
    if i == |b| || b[i] == c then i else IndexFrom(b, i + 1, c)
  }
}
