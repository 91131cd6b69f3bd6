/**
 The byte test for market names against its definition: the accepted byte strings are the UTF-8
 encodings, by section 3 of RFC 3629, of sequences of Unicode scalar values.
 */
module Utf8 {
  import opened Orders

  type Scalar = c: int | 0 <= c < 0xD800 || 0xE000 <= c < 0x11_0000

  function Encode(c: Scalar): (r: seq<Byte>)
    ensures 1 <= |r| <= 4
  {
    if c < 0x80 then [c]
    else if c < 0x800 then [0xC0 + c / 64, 0x80 + c % 64]
    else if c < 0x1_0000 then [0xE0 + c / 64 / 64, 0x80 + c / 64 % 64, 0x80 + c % 64]
    else [0xF0 + c / 64 / 64 / 64, 0x80 + c / 64 / 64 % 64, 0x80 + c / 64 % 64, 0x80 + c % 64]
  }

  function EncodeAll(cs: seq<Scalar>): seq<Byte> {
    if cs == [] then [] else Encode(cs[0]) + EncodeAll(cs[1..])
  }

  lemma EncodedFirst(c: Scalar, rest: seq<Byte>)
    requires ValidUtf8(rest)
    ensures ValidUtf8(Encode(c) + rest)
  {
    var s := Encode(c) + rest;
    assert s[|Encode(c)|..] == rest;
  }

  lemma {:induction false} EncodedIsValid(cs: seq<Scalar>)
    ensures ValidUtf8(EncodeAll(cs))
  {
    hide ValidUtf8, Encode;
    if cs == [] {
      EmptyIsValid();
    } else {
      EncodedIsValid(cs[1..]);
      EncodedFirst(cs[0], EncodeAll(cs[1..]));
    }
  }

  lemma EmptyIsValid()
    ensures ValidUtf8([])
  {
  }

  /** The first character of a valid string. */
  lemma DecodeFirst(s: seq<Byte>) returns (c: Scalar)
    requires ValidUtf8(s) && s != []
    ensures |Encode(c)| <= |s| && s == Encode(c) + s[|Encode(c)|..] && ValidUtf8(s[|Encode(c)|..])
  {
    if s[0] < 0x80 {
      c := s[0];
    } else if s[0] <= 0xDF {
      c := DecodeTwo(s[0], s[1]);
    } else if s[0] <= 0xEF {
      c := DecodeThree(s[0], s[1], s[2]);
    } else {
      c := DecodeFour(s[0], s[1], s[2], s[3]);
    }
  }

  lemma DecodeTwo(a: Byte, b: Byte) returns (c: Scalar)
    requires 0xC2 <= a <= 0xDF && Continuation(b)
    ensures Encode(c) == [a, b]
  {
    c := Shift(a - 0xC0, b - 0x80);
  }

  lemma DecodeThree(a: Byte, b: Byte, d: Byte) returns (c: Scalar)
    requires 0xE0 <= a <= 0xEF && Continuation(b) && Continuation(d)
    requires (a == 0xE0 ==> b >= 0xA0) && (a == 0xED ==> b < 0xA0)
    ensures Encode(c) == [a, b, d]
  {
    c := Shift(Shift(a - 0xE0, b - 0x80), d - 0x80);
  }

  lemma DecodeFour(a: Byte, b: Byte, d: Byte, e: Byte) returns (c: Scalar)
    requires 0xF0 <= a <= 0xF4 && Continuation(b) && Continuation(d) && Continuation(e)
    requires (a == 0xF0 ==> b >= 0x90) && (a == 0xF4 ==> b < 0x90)
    ensures Encode(c) == [a, b, d, e]
  {
    c := Shift(Shift(Shift(a - 0xF0, b - 0x80), d - 0x80), e - 0x80);
  }

  /** Six more bits at the low end. */
  function Shift(high: nat, low: nat): (n: nat)
    requires low < 64
    ensures n / 64 == high && n % 64 == low
  {
    64 * high + low
  }

  lemma {:induction false} ValidDecodes(s: seq<Byte>) returns (cs: seq<Scalar>)
    requires ValidUtf8(s)
    ensures EncodeAll(cs) == s
    decreases |s|
  {
    hide ValidUtf8, Encode;
    if s == [] {
      cs := [];
    } else {
      var c := DecodeFirst(s);
      var rest := ValidDecodes(s[|Encode(c)|..]);
      cs := [c] + rest;
      assert cs[1..] == rest;
    }
  }

  /** A byte string passes the test exactly when it is the encoding of some text. */
  lemma Utf8Exactly(s: seq<Byte>)
    ensures ValidUtf8(s) <==> exists cs: seq<Scalar> :: EncodeAll(cs) == s
  {
    hide ValidUtf8, EncodeAll;
    if ValidUtf8(s) {
      var cs := ValidDecodes(s);
    }
    forall cs: seq<Scalar> | EncodeAll(cs) == s ensures ValidUtf8(s) {
      EncodedIsValid(cs);
    }
  }
}
