/** internal/peer/bitfield.go: which pieces a peer has, most significant bit first. */
module BitFields {
  import opened NodeIDs

  /** Go's division truncates toward zero and its remainder takes the sign of the dividend. */
  function Quo8(n: int): int {
    if n >= 0 then n / 8 else -((-n) / 8)
  }

  function Rem8(n: int): int {
    n - 8 * Quo8(n)
  }

  /** `1 << (7 - offset)` as a byte: nothing is left of it for a negative offset. */
  function Flag(offset: int): bv8
    requires offset < 8
  {
    if offset < 0 then 0 else Mask(offset)
  }

  predicate Test(x: bv8, offset: int)
    requires offset < 8
  {
    x & Flag(offset) != 0
  }

  function Raise(x: bv8, offset: int): bv8
    requires offset < 8
  {
    x | Flag(offset)
  }

  predicate HasPiece(bf: seq<bv8>, index: int) {
    var byteIndex := Quo8(index);
    0 <= byteIndex < |bf| && Test(bf[byteIndex], Rem8(index))
  }

  /** Piece `i` is bit `7 - i % 8` of byte `i / 8`; there are no pieces with negative numbers. */
  lemma HasPieceMeans(bf: seq<bv8>, i: int)
    ensures HasPiece(bf, i) <==> 0 <= i < 8 * |bf| && (bf[i / 8] >> (7 - i % 8)) & 1 == 1
  {
    hide Test;
    if i >= 0 {
      assert Quo8(i) == i / 8 && Rem8(i) == i % 8;
      if i < 8 * |bf| { TestMeans(bf[i / 8], i % 8); }
    } else if Quo8(i) == 0 {
      assert Rem8(i) == i;
      if bf != [] { NoNegative(bf[0], i); }
    }
  }

  lemma TestMeans(x: bv8, k: nat)
    requires k < 8
    ensures Test(x, k) <==> (x >> (7 - k)) & 1 == 1
  {
    hide ByteBit;
    assert Test(x, k) == ByteBit(x, k) by { TestIsBit(x, k); }
    ByteBitShifted(x, k);
  }

  lemma TestIsBit(x: bv8, k: nat)
    requires k < 8
    ensures Test(x, k) == ByteBit(x, k)
  {
  }

  lemma NoNegative(x: bv8, k: int)
    requires k < 0
    ensures !Test(x, k)
  {
  }

  /** The field with one more bit, if it has room for it. */
  function WithPiece(bf: seq<bv8>, index: int): (r: seq<bv8>)
    ensures |r| == |bf|
    ensures forall j :: HasPiece(r, j) <==> HasPiece(bf, j) || (j == index && 0 <= index < 8 * |bf|)
  {
    hide Test, Raise, Quo8, HasPiece;
    var byteIndex := Quo8(index);
    OutOfField(index, |bf|);
    if 0 <= byteIndex < |bf| then
      var r := bf[byteIndex := Raise(bf[byteIndex], Rem8(index))];
      assert forall j :: HasPiece(r, j) <==> HasPiece(bf, j) || (j == index && 0 <= index < 8 * |bf|) by {
        forall j ensures HasPiece(r, j) <==> HasPiece(bf, j) || (j == index && 0 <= index < 8 * |bf|) {
          RaisedAt(bf, index, j);
        }
      }
      r
    else bf
  }

  method NewBitField(numPieces: nat) returns (bf: array<bv8>)
    ensures fresh(bf) && bf.Length == (numPieces + 7) / 8
    ensures forall i :: !HasPiece(bf[..], i)
  {
    bf := new bv8[(numPieces + 7) / 8](_ => 0);
  }

  /** Sets the one bit it is asked to set, if the field has it, and no other. */
  method SetPiece(bf: array<bv8>, index: int)
    modifies bf
    ensures bf[..] == WithPiece(old(bf[..]), index)
    ensures forall j :: HasPiece(bf[..], j) <==> HasPiece(old(bf[..]), j) || (j == index && 0 <= index < 8 * bf.Length)
  {
    hide Test, Raise, Quo8, HasPiece;
    var byteIndex := Quo8(index);
    var offset := Rem8(index);
    OutOfField(index, bf.Length);
    if byteIndex >= 0 && byteIndex < bf.Length {
      bf[byteIndex] := Raise(bf[byteIndex], offset);
      assert bf[..] == old(bf[..])[byteIndex := Raise(old(bf[..])[byteIndex], offset)];
    }
  }

  lemma OutOfField(index: int, n: nat)
    ensures 0 <= index < 8 * n ==> 0 <= Quo8(index) < n
    ensures Rem8(index) < 8
  {
  }

  lemma RaisedAt(bf: seq<bv8>, index: int, j: int)
    requires 0 <= Quo8(index) < |bf|
    ensures var b := Quo8(index);
            HasPiece(bf[b := Raise(bf[b], Rem8(index))], j) <==> HasPiece(bf, j) || (j == index && 0 <= index < 8 * |bf|)
  {
    hide Test, Raise;
    SetFlag(bf[Quo8(index)], Rem8(index), Rem8(j));
  }

  lemma SetFlag(x: bv8, a: int, b: int)
    requires a < 8 && b < 8
    ensures Test(Raise(x, a), b) <==> Test(x, b) || (a == b && a >= 0)
  {
  }
}
