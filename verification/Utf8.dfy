/**
 * UTF-8 as RFC 3629, section 3, defines it, and that `Value.Utf8Valid` is it: the decoder makes a byte string a Go
 * string exactly if it is the encoding of some sequence of characters (internal/bencode/decode.go:28-69).
 */
module Utf8 {
  import opened Bytes
  import opened Value

  /** A Unicode scalar value: no surrogates. */
  predicate Scalar(c: int) {
    0 <= c < 0xD800 || 0xE000 <= c < 0x11_0000
  }

  function Rune(c: int): (s: seq<byte>)
    requires Scalar(c)
    ensures |s| > 0
  {
    if c < 0x80 then [c as byte]
    else if c < 0x800 then [(0xC0 + c / 64) as byte, (0x80 + c % 64) as byte]
    else if c < 0x1_0000 then [(0xE0 + c / 4096) as byte, (0x80 + c / 64 % 64) as byte, (0x80 + c % 64) as byte]
    else [(0xF0 + c / 262144) as byte, (0x80 + c / 4096 % 64) as byte, (0x80 + c / 64 % 64) as byte, (0x80 + c % 64) as byte]
  }

  predicate AllScalars(cs: seq<int>) {
    forall k :: 0 <= k < |cs| ==> Scalar(cs[k])
  }

  function Text(cs: seq<int>): seq<byte>
    requires AllScalars(cs)
  {
    if cs == [] then [] else Rune(cs[0]) + Text(cs[1..])
  }

  lemma RuneThen(c: int, t: seq<byte>)
    requires Scalar(c)
    ensures Utf8Valid(Rune(c) + t) <==> Utf8Valid(t)
  {
    hide Rune, Utf8Valid;
    if c < 0x800 { ShortRuneThen(c, t); } else { LongRuneThen(c, t); }
  }

  lemma ShortRuneThen(c: int, t: seq<byte>)
    requires Scalar(c) && c < 0x800
    ensures Utf8Valid(Rune(c) + t) <==> Utf8Valid(t)
  {
    var s := Rune(c) + t;
    var n := |Rune(c)|;
    assert s[n..] == t;
    assert forall k :: 0 <= k < n ==> s[k] == Rune(c)[k];
  }

  lemma LongRuneThen(c: int, t: seq<byte>)
    requires Scalar(c) && c >= 0x800
    ensures Utf8Valid(Rune(c) + t) <==> Utf8Valid(t)
  {
    var s := Rune(c) + t;
    var n := |Rune(c)|;
    assert s[n..] == t;
    assert forall k :: 0 <= k < n ==> s[k] == Rune(c)[k];
  }

  lemma {:induction false} TextValid(cs: seq<int>)
    requires AllScalars(cs)
    ensures Utf8Valid(Text(cs))
  {
    hide Rune, Utf8Valid;
    if cs == [] {
      NothingValid();
    } else {
      TextValid(cs[1..]);
      RuneThen(cs[0], Text(cs[1..]));
    }
  }

  lemma NothingValid()
    ensures Utf8Valid([])
  {
  }

  /** The character a valid text begins with. */
  lemma FirstRune(s: seq<byte>) returns (c: int, n: nat)
    requires Utf8Valid(s) && s != []
    ensures Scalar(c) && 0 < n <= |s| && s[..n] == Rune(c) && Utf8Valid(s[n..])
  {
    var b0 := s[0] as int;
    if b0 < 0x80 {
      c, n := b0, 1;
    } else if b0 < 0xE0 {
      c, n := (b0 - 0xC0) * 64 + (s[1] as int - 0x80), 2;
      Split2(b0 - 0xC0, s[1] as int - 0x80);
    } else if b0 < 0xF0 {
      c, n := (b0 - 0xE0) * 4096 + (s[1] as int - 0x80) * 64 + (s[2] as int - 0x80), 3;
      Split3(b0 - 0xE0, s[1] as int - 0x80, s[2] as int - 0x80);
    } else {
      c, n := (b0 - 0xF0) * 262144 + (s[1] as int - 0x80) * 4096 + (s[2] as int - 0x80) * 64 + (s[3] as int - 0x80), 4;
      Split4(b0 - 0xF0, s[1] as int - 0x80, s[2] as int - 0x80, s[3] as int - 0x80);
    }
  }

  lemma Split2(x: int, y: int)
    requires 0 <= x && 0 <= y < 64
    ensures var c := x * 64 + y; c / 64 == x && c % 64 == y
  {
  }

  lemma Shifted(d: int, w: int)
    requires d >= 0 && 0 <= w < 64
    ensures var c := d * 64 + w; c % 64 == w && c / 64 == d && c / 4096 == d / 64 && c / 262144 == d / 4096
  {
  }

  lemma Split3(x: int, y: int, z: int)
    requires 0 <= x && 0 <= y < 64 && 0 <= z < 64
    ensures var c := x * 4096 + y * 64 + z; c / 4096 == x && c / 64 % 64 == y && c % 64 == z
  {
    Split2(x, y);
    Shifted(x * 64 + y, z);
  }

  lemma Split4(x: int, y: int, z: int, w: int)
    requires 0 <= x && 0 <= y < 64 && 0 <= z < 64 && 0 <= w < 64
    ensures var c := x * 262144 + y * 4096 + z * 64 + w;
            c / 262144 == x && c / 4096 % 64 == y && c / 64 % 64 == z && c % 64 == w
  {
    var d := x * 4096 + y * 64 + z;
    Split3(x, y, z);
    Shifted(d, w);
  }

  lemma {:induction false} ValidIsText(s: seq<byte>) returns (cs: seq<int>)
    requires Utf8Valid(s)
    ensures AllScalars(cs) && Text(cs) == s
    decreases |s|
  {
    hide Rune, Utf8Valid;
    if s == [] {
      cs := [];
    } else {
      var c, n := FirstRune(s);
      var rest := ValidIsText(s[n..]);
      cs := [c] + rest;
      assert cs[1..] == rest && s == s[..n] + s[n..];
    }
  }

  /** Valid is: the encoding of some sequence of characters. */
  lemma ValidExactly(s: seq<byte>)
    ensures Utf8Valid(s) <==> exists cs :: AllScalars(cs) && Text(cs) == s
  {
    hide Rune, Utf8Valid, Text;
    if Utf8Valid(s) {
      var cs := ValidIsText(s);
    }
    if cs :| AllScalars(cs) && Text(cs) == s {
      TextValid(cs);
    }
  }

  /** How a byte string is typed. */
  lemma TypedExactly(s: seq<byte>)
    ensures TextOf(s) == if exists cs :: AllScalars(cs) && Text(cs) == s then Str(s) else Raw(s)
  {
    ValidExactly(s);
  }
}
