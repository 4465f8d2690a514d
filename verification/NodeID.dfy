/** internal/dht/nodeid/nodeid.go: 160-bit identifiers under the XOR metric. */
module NodeIDs {

  const ID_BITS := 160

  type NodeID = s: seq<bv8> | |s| == 20 witness seq(20, _ => 0 as bv8)

  function Mask(k: nat): bv8
    requires k < 8
  {
    if k == 0 then 0x80 else if k == 1 then 0x40 else if k == 2 then 0x20 else if k == 3 then 0x10
    else if k == 4 then 8 else if k == 5 then 4 else if k == 6 then 2 else 1
  }

  /** Bit `k` of a byte, the most significant one first. */
  predicate ByteBit(b: bv8, k: nat)
    requires k < 8
  {
    b & Mask(k) != 0
  }

  predicate Bit(n: NodeID, k: nat)
    requires k < ID_BITS
  {
    ByteBit(n[k / 8], k % 8)
  }

  lemma ByteBitShifted(b: bv8, k: nat)
    requires k < 8
    ensures ByteBit(b, k) <==> (b >> (7 - k)) & 1 == 1
  {
    if k == 0 { assert b & 0x80 != 0 <==> (b >> 7) & 1 == 1; }
    else if k == 1 { assert b & 0x40 != 0 <==> (b >> 6) & 1 == 1; }
    else if k == 2 { assert b & 0x20 != 0 <==> (b >> 5) & 1 == 1; }
    else if k == 3 { assert b & 0x10 != 0 <==> (b >> 4) & 1 == 1; }
    else if k == 4 { assert b & 8 != 0 <==> (b >> 3) & 1 == 1; }
    else if k == 5 { assert b & 4 != 0 <==> (b >> 2) & 1 == 1; }
    else if k == 6 { assert b & 2 != 0 <==> (b >> 1) & 1 == 1; }
    else { assert b & 1 != 0 <==> (b >> 0) & 1 == 1; }
  }

  /** Bits are numbered from the most significant one of the first byte. */
  lemma BitMeans(n: NodeID, k: nat)
    requires k < 160
    ensures Bit(n, k) <==> (n[k / 8] >> (7 - k % 8)) & 1 == 1
  {
    hide ByteBit;
    ByteBitShifted(n[k / 8], k % 8);
  }

  /** The first position from `k` on where the two identifiers differ, or their length. */
  function FirstDiff(a: NodeID, b: NodeID, k: nat): (d: nat)
    requires k <= ID_BITS
    ensures k <= d <= ID_BITS
    ensures forall j :: k <= j < d ==> Bit(a, j) == Bit(b, j)
    ensures d < ID_BITS ==> Bit(a, d) != Bit(b, d)
    decreases ID_BITS - k
  {
    if k == ID_BITS || Bit(a, k) != Bit(b, k) then k else FirstDiff(a, b, k + 1)
  }

  /** The number of leading bits two identifiers share. */
  function CommonBits(a: NodeID, b: NodeID): (d: nat)
    ensures d <= ID_BITS
  {
    FirstDiff(a, b, 0)
  }

  lemma CommonBitsAre(a: NodeID, b: NodeID)
    ensures var d := CommonBits(a, b);
            && (forall j :: 0 <= j < d ==> Bit(a, j) == Bit(b, j))
            && (d < ID_BITS ==> Bit(a, d) != Bit(b, d))
  {
  }

  function Xor8(x: bv8, y: bv8): bv8 {
    x ^ y
  }

  function Xor(a: NodeID, b: NodeID): (d: NodeID)
    ensures forall i :: 0 <= i < 20 ==> d[i] == Xor8(a[i], b[i])
  {
    seq(20, i requires 0 <= i < 20 => Xor8(a[i], b[i]))
  }

  /** Big-endian comparison of the bytes from `i` on. */
  predicate LessFrom(a: NodeID, b: NodeID, i: nat)
    requires i <= 20
    decreases 20 - i
  {
    i < 20 && if a[i] != b[i] then a[i] < b[i] else LessFrom(a, b, i + 1)
  }

  /** `a` is strictly nearer to `t` than `b` is. */
  predicate Closer(t: NodeID, a: NodeID, b: NodeID) {
    LessFrom(Xor(t, a), Xor(t, b), 0)
  }

  lemma {:induction false} LessFromMeans(a: NodeID, b: NodeID, i: nat)
    requires i <= 20
    ensures LessFrom(a, b, i) <==> exists k :: i <= k < 20 && a[k] < b[k] && forall m :: i <= m < k ==> a[m] == b[m]
    decreases 20 - i
  {
    if i < 20 {
      LessFromMeans(a, b, i + 1);
      if a[i] == b[i] && LessFrom(a, b, i + 1) {
        var k :| i + 1 <= k < 20 && a[k] < b[k] && forall m :: i + 1 <= m < k ==> a[m] == b[m];
        assert forall m :: i <= m < k ==> a[m] == b[m];
      }
    }
  }

  /** Nearer is: smaller in the exclusive or with the target, read as a big-endian number. */
  lemma CloserMeans(t: NodeID, a: NodeID, b: NodeID)
    ensures Closer(t, a, b) <==>
              exists k :: 0 <= k < 20 && t[k] ^ a[k] < t[k] ^ b[k] && forall m :: 0 <= m < k ==> t[m] ^ a[m] == t[m] ^ b[m]
  {
    var x, y := Xor(t, a), Xor(t, b);
    LessFromMeans(x, y, 0);
    assert forall i :: 0 <= i < 20 ==> x[i] == t[i] ^ a[i] && y[i] == t[i] ^ b[i];
    if Closer(t, a, b) {
      var k :| 0 <= k < 20 && x[k] < y[k] && forall m :: 0 <= m < k ==> x[m] == y[m];
      assert t[k] ^ a[k] < t[k] ^ b[k];
    }
    if k :| 0 <= k < 20 && t[k] ^ a[k] < t[k] ^ b[k] && forall m :: 0 <= m < k ==> t[m] ^ a[m] == t[m] ^ b[m] {
      assert x[k] < y[k] && forall m :: 0 <= m < k ==> x[m] == y[m];
    }
  }

  function LeadingZeros8(b: bv8): (z: nat)
    ensures z <= 8
  {
    if b >= 0x80 then 0 else if b >= 0x40 then 1 else if b >= 0x20 then 2 else if b >= 0x10 then 3
    else if b >= 8 then 4 else if b >= 4 then 5 else if b >= 2 then 6 else if b >= 1 then 7 else 8
  }

  // ----- Bits and bytes -----

  lemma ByteBitSame(x: bv8, y: bv8, j: nat)
    requires j < LeadingZeros8(Xor8(x, y))
    ensures ByteBit(x, j) == ByteBit(y, j)
  {
  }

  lemma ByteBitDiffers(x: bv8, y: bv8)
    requires x != y
    ensures var z := LeadingZeros8(Xor8(x, y)); z < 8 && ByteBit(x, z) != ByteBit(y, z)
  {
  }

  lemma ByteDiff(x: bv8, y: bv8)
    requires x != y
    ensures var z := LeadingZeros8(Xor8(x, y));
            z < 8 && ByteBit(x, z) != ByteBit(y, z) && forall j :: 0 <= j < z ==> ByteBit(x, j) == ByteBit(y, j)
  {
    hide LeadingZeros8, ByteBit, Xor8;
    ByteBitDiffers(x, y);
    forall j | 0 <= j < LeadingZeros8(Xor8(x, y)) ensures ByteBit(x, j) == ByteBit(y, j) {
      ByteBitSame(x, y, j);
    }
  }

  lemma ByteCloser(t: bv8, x: bv8, y: bv8)
    requires x != y
    ensures var z := LeadingZeros8(Xor8(x, y));
            Xor8(t, x) < Xor8(t, y) <==> ByteBit(x, z) == ByteBit(t, z)
  {
  }

  lemma XorInjective(t: bv8, x: bv8, y: bv8)
    ensures Xor8(t, x) == Xor8(t, y) <==> x == y
  {
  }

  lemma BitOf(n: NodeID, i: nat, j: nat)
    requires i < 20 && j < 8
    ensures 8 * i + j < ID_BITS && Bit(n, 8 * i + j) == ByteBit(n[i], j)
  {
    assert (8 * i + j) / 8 == i && (8 * i + j) % 8 == j;
  }

  lemma {:induction false} FirstDiffIs(a: NodeID, b: NodeID, k: nat, d: nat)
    requires k <= d <= ID_BITS
    requires forall j :: k <= j < d ==> Bit(a, j) == Bit(b, j)
    requires d < ID_BITS ==> Bit(a, d) != Bit(b, d)
    ensures FirstDiff(a, b, k) == d
    decreases d - k
  {
    hide Bit;
    if k < d { FirstDiffIs(a, b, k + 1, d); }
  }

  lemma CommonBitsIs(a: NodeID, b: NodeID, d: nat)
    requires d <= ID_BITS
    requires forall j :: 0 <= j < d ==> Bit(a, j) == Bit(b, j)
    requires d < ID_BITS ==> Bit(a, d) != Bit(b, d)
    ensures CommonBits(a, b) == d
  {
    FirstDiffIs(a, b, 0, d);
  }

  /** Equal leading bytes are equal leading bits. */
  lemma SameBytesSameBits(a: NodeID, b: NodeID, i: nat)
    requires i <= 20 && forall m :: 0 <= m < i ==> a[m] == b[m]
    ensures forall k :: 0 <= k < 8 * i ==> Bit(a, k) == Bit(b, k)
  {
  }

  /** The first differing bit lies in the first differing byte. */
  lemma DiffByte(a: NodeID, b: NodeID, i: nat)
    requires i < 20 && a[i] != b[i] && forall m :: 0 <= m < i ==> a[m] == b[m]
    ensures CommonBits(a, b) == 8 * i + LeadingZeros8(Xor8(a[i], b[i]))
  {
    hide Bit, ByteBit, LeadingZeros8, Xor8;
    var z := LeadingZeros8(Xor8(a[i], b[i]));
    ByteDiff(a[i], b[i]);
    SameBytesSameBits(a, b, i);
    BitOf(a, i, z);
    BitOf(b, i, z);
    forall k | 0 <= k < 8 * i + z ensures Bit(a, k) == Bit(b, k) {
      if k >= 8 * i {
        BitOf(a, i, k - 8 * i);
        BitOf(b, i, k - 8 * i);
      }
    }
    CommonBitsIs(a, b, 8 * i + z);
  }

  lemma SameBitsEqual(a: NodeID, b: NodeID)
    ensures CommonBits(a, b) == ID_BITS <==> a == b
  {
    if a == b {
      CommonBitsIs(a, b, ID_BITS);
    } else {
      var i := FirstByteDiff(a, b, 0);
      DiffByte(a, b, i);
      ByteDiff(a[i], b[i]);
    }
  }

  /** The first byte from `i` on where the two identifiers differ, or their number of bytes. */
  function FirstByteDiff(a: NodeID, b: NodeID, i: nat): (k: nat)
    requires i <= 20
    ensures i <= k <= 20 && (k < 20 ==> a[k] != b[k])
    ensures forall m :: i <= m < k ==> a[m] == b[m]
    ensures i == 0 && k == 20 ==> a == b
    decreases 20 - i
  {
    if i == 20 || a[i] != b[i] then i else FirstByteDiff(a, b, i + 1)
  }

  lemma {:induction false} LessFromSkip(a: NodeID, b: NodeID, i: nat, k: nat)
    requires k <= i <= 20 && forall m :: k <= m < i ==> a[m] == b[m]
    ensures LessFrom(a, b, k) == LessFrom(a, b, i)
    decreases i - k
  {
    if k < i { LessFromSkip(a, b, i, k + 1); }
  }

  lemma LessFromAt(a: NodeID, b: NodeID, i: nat)
    requires i <= 20 && (i < 20 ==> a[i] != b[i])
    ensures LessFrom(a, b, i) == (i < 20 && a[i] < b[i])
  {
  }

  lemma CloserByByte(t: NodeID, a: NodeID, b: NodeID, i: nat)
    requires i < 20 && a[i] != b[i] && forall m :: 0 <= m < i ==> a[m] == b[m]
    ensures Closer(t, a, b) <==> Xor8(t[i], a[i]) < Xor8(t[i], b[i])
  {
    hide LessFrom, Xor, Xor8;
    var da, db := Xor(t, a), Xor(t, b);
    XorInjective(t[i], a[i], b[i]);
    LessFromSkip(da, db, i, 0);
    LessFromAt(da, db, i);
  }

  lemma NotCloserToSame(t: NodeID, a: NodeID)
    ensures !Closer(t, a, a)
  {
    hide LessFrom, Xor, Xor8;
    LessFromSkip(Xor(t, a), Xor(t, a), 20, 0);
    LessFromAt(Xor(t, a), Xor(t, a), 20);
  }

  /** Which of two identifiers is nearer is decided by the first bit where they differ. */
  lemma CloserByBit(t: NodeID, a: NodeID, b: NodeID)
    ensures Closer(t, a, b) <==> CommonBits(a, b) < ID_BITS && Bit(a, CommonBits(a, b)) == Bit(t, CommonBits(a, b))
  {
    hide Xor8, Bit, ByteBit, LeadingZeros8, Closer, CommonBits, FirstByteDiff;
    SameBitsEqual(a, b);
    if a == b {
      NotCloserToSame(t, a);
    } else {
      var i := FirstByteDiff(a, b, 0);
      var z := LeadingZeros8(Xor8(a[i], b[i]));
      CloserByByte(t, a, b, i);
      DiffByte(a, b, i);
      ByteDiff(a[i], b[i]);
      ByteCloser(t[i], a[i], b[i]);
      BitOf(a, i, z);
      BitOf(t, i, z);
    }
  }

  // ----- The metric -----

  lemma CommonBitsSymmetric(a: NodeID, b: NodeID)
    ensures CommonBits(a, b) == CommonBits(b, a)
  {
    CommonBitsAre(a, b);
    CommonBitsIs(b, a, CommonBits(a, b));
  }

  /** For a fixed target, nearness is a strict total order on identifiers. */
  lemma CloserTotalOrder(t: NodeID, a: NodeID, b: NodeID, c: NodeID)
    ensures !Closer(t, a, a)
    ensures a != b ==> (Closer(t, a, b) <==> !Closer(t, b, a))
    ensures Closer(t, a, b) && Closer(t, b, c) ==> Closer(t, a, c)
  {
    hide Bit, Closer, CommonBits;
    CloserByBit(t, a, a);
    CloserByBit(t, a, b);
    CloserByBit(t, b, a);
    CommonBitsSymmetric(a, b);
    CommonBitsAre(a, b);
    SameBitsEqual(a, a);
    SameBitsEqual(a, b);
    if Closer(t, a, b) && Closer(t, b, c) {
      CloserByBit(t, b, c);
      CloserByBit(t, a, c);
      SameBitsEqual(b, c);
      CommonBitsAre(b, c);
      var j, k := CommonBits(a, b), CommonBits(b, c);
      var d := if j < k then j else k;
      assert forall m :: 0 <= m < d ==> Bit(a, m) == Bit(b, m) && Bit(b, m) == Bit(c, m);
      CommonBitsIs(a, c, d);
      SameBitsEqual(a, c);
    }
  }

  /** Two identifiers that leave `self` at different bits are ordered by the target's bit there. */
  lemma OrderAcrossBuckets(self: NodeID, t: NodeID, x: NodeID, y: NodeID)
    requires CommonBits(self, x) < CommonBits(self, y)
    ensures CommonBits(x, y) == CommonBits(self, x)
    ensures Closer(t, x, y) <==> Bit(t, CommonBits(self, x)) != Bit(self, CommonBits(self, x))
    ensures Closer(t, y, x) <==> Bit(t, CommonBits(self, x)) == Bit(self, CommonBits(self, x))
  {
    hide Bit, Closer, CommonBits;
    CommonBitsAre(self, x);
    CommonBitsAre(self, y);
    var j := CommonBits(self, x);
    assert forall m :: 0 <= m < j ==> Bit(x, m) == Bit(self, m) && Bit(self, m) == Bit(y, m);
    assert Bit(y, j) == Bit(self, j) && Bit(x, j) != Bit(self, j);
    CommonBitsIs(x, y, j);
    CommonBitsSymmetric(x, y);
    CloserByBit(t, x, y);
    CloserByBit(t, y, x);
  }

  // ----- The source's loops -----

  method Distance(n: NodeID, other: NodeID) returns (dist: NodeID)
    ensures dist == Xor(n, other)
    ensures forall k :: 0 <= k < 20 ==> dist[k] == n[k] ^ other[k]
  {
    var d := new bv8[20](_ => 0);
    for i := 0 to 20
      invariant forall k :: 0 <= k < i ==> d[k] == Xor8(n[k], other[k])
    {
      d[i] := Xor8(n[i], other[i]);
    }
    dist := d[..];
    assert forall k :: 0 <= k < 20 ==> dist[k] == Xor(n, other)[k];
  }

  /** The first `c` bits agree, and the next one, if there is one, does not. */
  ghost predicate ShareExactly(n: NodeID, other: NodeID, c: nat) {
    && c <= 160 && (c == 160 <==> n == other)
    && (forall k :: 0 <= k < c ==> (n[k / 8] >> (7 - k % 8)) & 1 == (other[k / 8] >> (7 - k % 8)) & 1)
    && (c < 160 ==> (n[c / 8] >> (7 - c % 8)) & 1 != (other[c / 8] >> (7 - c % 8)) & 1)
  }

  lemma SharedBits(n: NodeID, other: NodeID)
    ensures ShareExactly(n, other, CommonBits(n, other))
  {
    hide Bit, CommonBits;
    var c := CommonBits(n, other);
    SameBitsEqual(n, other);
    CommonBitsAre(n, other);
    forall k | 0 <= k < 160
      ensures Bit(n, k) == Bit(other, k) <==> (n[k / 8] >> (7 - k % 8)) & 1 == (other[k / 8] >> (7 - k % 8)) & 1
    {
      BitMeans(n, k);
      BitMeans(other, k);
      OneOrNone(n[k / 8] >> (7 - k % 8));
      OneOrNone(other[k / 8] >> (7 - k % 8));
    }
  }

  lemma OneOrNone(x: bv8)
    ensures x & 1 == 0 || x & 1 == 1
  {
  }

  method PrefixLen(n: NodeID, other: NodeID) returns (count: nat)
    ensures count == CommonBits(n, other)
    ensures ShareExactly(n, other, count)
  {
    hide Xor8, LeadingZeros8, ShareExactly;
    SharedBits(n, other);
    var dist := Distance(n, other);
    count := 0;
    var i := 0;
    while i < 20
      invariant 0 <= i <= 20 && count == 8 * i
      invariant forall m :: 0 <= m < i ==> n[m] == other[m]
    {
      XorZero(n[i], other[i]);
      if dist[i] == 0 {
        count := count + 8;
      } else {
        DiffByte(n, other, i);
        count := count + LeadingZeros8(dist[i]);
        return;
      }
      i := i + 1;
    }
    assert n == other;
    SameBitsEqual(n, other);
  }

  lemma XorZero(x: bv8, y: bv8)
    ensures Xor8(x, y) == 0 <==> x == y
  {
  }

  method Less(n: NodeID, other: NodeID) returns (r: bool)
    ensures r == LessFrom(n, other, 0)
    ensures r <==> exists k :: 0 <= k < 20 && n[k] < other[k] && forall m :: 0 <= m < k ==> n[m] == other[m]
  {
    LessFromMeans(n, other, 0);
    var i := 0;
    while i < 20
      invariant 0 <= i <= 20
      invariant LessFrom(n, other, 0) == LessFrom(n, other, i)
    {
      if n[i] != other[i] {
        return n[i] < other[i];
      }
      i := i + 1;
    }
    r := false;
  }
}
