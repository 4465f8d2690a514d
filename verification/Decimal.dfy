/** Decimal text: `strconv.Itoa` and `strconv.Atoi` as the codec uses them. */
module Decimal {
  import opened Bytes

  predicate IsDigit(b: byte) {
    48 <= b <= 57
  }

  function DigitChar(n: nat): (b: byte)
    requires n < 10
    ensures IsDigit(b) && DigitVal(b) == n
  {
    [48, 49, 50, 51, 52, 53, 54, 55, 56, 57][n]
  }

  function DigitVal(b: byte): (n: nat)
    requires IsDigit(b)
    ensures n < 10
  {
    if b == 48 then 0 else if b == 49 then 1 else if b == 50 then 2 else if b == 51 then 3
    else if b == 52 then 4 else if b == 53 then 5 else if b == 54 then 6
    else if b == 55 then 7 else if b == 56 then 8 else 9
  }

  predicate AllDigits(s: seq<byte>) {
    forall k :: 0 <= k < |s| ==> IsDigit(s[k])
  }

  function Digits(n: nat): (s: seq<byte>)
    ensures |s| > 0 && AllDigits(s)
    ensures s[0] == 48 ==> n == 0 && |s| == 1
  {
    if n < 10 then [DigitChar(n)] else Digits(n / 10) + [DigitChar(n % 10)]
  }

  function DigitsVal(s: seq<byte>): (n: int)
    requires AllDigits(s)
    ensures n >= 0
  {
    if s == [] then 0 else 10 * DigitsVal(s[..|s| - 1]) + DigitVal(s[|s| - 1])
  }

  function Itoa(n: int): (s: seq<byte>)
    ensures |s| > 0
    ensures n >= 0 ==> AllDigits(s)
    ensures n < 0 ==> s[0] == MINUS && |s| > 1 && AllDigits(s[1..]) && s[1] != 48
  {
    if n < 0 then [MINUS] + Digits(-n) else Digits(n)
  }

  /** An optional sign, at least one digit, and a value that fits an `int`. */
  function Atoi(s: seq<byte>): (r: Option<int64>) {
    var signed := |s| > 0 && (s[0] == PLUS || s[0] == MINUS);
    var digits := if signed then s[1..] else s;
    if digits == [] || !AllDigits(digits) then None
    else
      var n := if signed && s[0] == MINUS then -DigitsVal(digits) else DigitsVal(digits);
      if INT_MIN <= n <= INT_MAX then Some(n) else None
  }

  lemma {:induction false} DigitsRoundTrip(n: nat)
    ensures DigitsVal(Digits(n)) == n
  {
    if n >= 10 {
      DigitsRoundTrip(n / 10);
      assert Digits(n)[..|Digits(n)| - 1] == Digits(n / 10);
    }
  }

  lemma AtoiUnsigned(s: seq<byte>)
    requires s != [] && AllDigits(s) && DigitsVal(s) <= INT_MAX
    ensures Atoi(s) == Some(DigitsVal(s))
  {
    assert IsDigit(s[0]);
  }

  lemma AtoiNegative(s: seq<byte>)
    requires s != [] && AllDigits(s) && -DigitsVal(s) >= INT_MIN
    ensures Atoi([MINUS] + s) == Some(-DigitsVal(s))
  {
    assert ([MINUS] + s)[1..] == s;
  }

  /** `Atoi` reads back what `Itoa` wrote. */
  lemma AtoiItoa(n: int)
    requires INT_MIN <= n <= INT_MAX
    ensures Atoi(Itoa(n)) == Some(n)
  {
    if n < 0 {
      var s := Digits(-n);
      DigitsRoundTrip(-n);
      AtoiNegative(s);
    } else {
      var s := Digits(n);
      DigitsRoundTrip(n);
      AtoiUnsigned(s);
    }
  }

  lemma {:induction false} DigitsShortest(s: seq<byte>)
    requires s != [] && AllDigits(s)
    ensures |Digits(DigitsVal(s))| <= |s|
  {
    var front := s[..|s| - 1];
    if front == [] {
      assert DigitsVal(front) == 0;
    } else {
      DigitsShortest(front);
      var n := DigitsVal(s);
      assert n / 10 == DigitsVal(front);
    }
  }

  /** No text that `Atoi` accepts for n is shorter than `Itoa(n)`. */
  lemma ItoaShortest(s: seq<byte>)
    requires Atoi(s).Some?
    ensures |Itoa(Atoi(s).value)| <= |s|
  {
    var signed := s[0] == PLUS || s[0] == MINUS;
    DigitsShortest(if signed then s[1..] else s);
  }
}
