/** UTF-8: the check for well-formed byte strings, and what it accepts. */
module Utf8 {
  import opened Bytes

  // --- UTF-8 (Unicode Standard, table 3-7) ----------------------------------

  predicate Between(lo: int, b: int, hi: int) { lo <= b <= hi }

  predicate Continuation(b: byte) { 0x80 <= b <= 0xBF }

  /** Byte length of the well-formed sequence at the front, or 0 if there is none. */
  function Utf8Step(s: seq<byte>): (n: nat)
    requires s != []
    ensures n <= |s|
  {
    var b: int := s[0];
    if b <= 0x7F then 1
    else if |s| >= 2 && 0xC2 <= b <= 0xDF && Continuation(s[1]) then 2
    else if |s| >= 3 && 0xE0 <= b <= 0xEF && Continuation(s[2])
      && Between(if b == 0xE0 then 0xA0 else 0x80, s[1], if b == 0xED then 0x9F else 0xBF) then 3
    else if |s| >= 4 && 0xF0 <= b <= 0xF4 && Continuation(s[2]) && Continuation(s[3])
      && Between(if b == 0xF0 then 0x90 else 0x80, s[1], if b == 0xF4 then 0x8F else 0xBF) then 4
    else 0
  }

  predicate ValidUtf8(s: seq<byte>) {
    s == [] || (Utf8Step(s) > 0 && ValidUtf8(s[Utf8Step(s)..]))
  }

  // --- What is encoded ------------------------------------------------------

  /** The Unicode scalar values: all code points but the surrogates. */
  type Scalar = c: int | 0 <= c < 0xD800 || 0xE000 <= c < 0x11_0000

  /** The bit layout of table 3-6: six bits in each continuation byte, the others in the first,
      in as few bytes as hold them. */
  function EncodeScalar(c: Scalar): (s: seq<byte>)
    ensures s != []
  {
    if c < 0x80 then [c]
    else if c < 0x800 then [0xC0 + c / 0x40, 0x80 + c % 0x40]
    else if c < 0x1_0000 then [0xE0 + c / 0x1000, 0x80 + c / 0x40 % 0x40, 0x80 + c % 0x40]
    else [0xF0 + c / 0x4_0000, 0x80 + c / 0x1000 % 0x40, 0x80 + c / 0x40 % 0x40, 0x80 + c % 0x40]
  }

  function EncodeScalars(cs: seq<Scalar>): seq<byte> {
    if cs == [] then [] else EncodeScalar(cs[0]) + EncodeScalars(cs[1..])
  }

  /** An encoded scalar value is one well-formed sequence. */
  lemma ScalarIsStep(c: Scalar, rest: seq<byte>)
    ensures Utf8Step(EncodeScalar(c) + rest) == |EncodeScalar(c)|
  {
    var s := EncodeScalar(c) + rest;
    assert s[..|EncodeScalar(c)|] == EncodeScalar(c);
    if c >= 0x800 {
      assert 0x80 <= s[2] <= 0xBF;
    }
  }

  /** A well-formed sequence is an encoded scalar value. */
  lemma StepIsScalar(s: seq<byte>) returns (c: Scalar)
    requires s != [] && Utf8Step(s) > 0
    ensures EncodeScalar(c) == s[..Utf8Step(s)]
  {
    var n := Utf8Step(s);
    if n == 1 {
      c := s[0];
    } else if n == 2 {
      c := TwoBytes(s[0], s[1]);
    } else if n == 3 {
      c := ThreeBytes(s[0], s[1], s[2]);
    } else {
      c := FourBytes(s[0], s[1], s[2], s[3]);
    }
  }

  lemma TwoBytes(a: byte, b: byte) returns (c: Scalar)
    requires 0xC2 <= a <= 0xDF && Continuation(b)
    ensures EncodeScalar(c) == [a, b]
  {
    c := 0x40 * (a - 0xC0) + (b - 0x80);
  }

  lemma ThreeBytes(a: byte, b: byte, d: byte) returns (c: Scalar)
    requires 0xE0 <= a <= 0xEF && Continuation(d)
    requires Between(if a == 0xE0 then 0xA0 else 0x80, b, if a == 0xED then 0x9F else 0xBF)
    ensures EncodeScalar(c) == [a, b, d]
  {
    var x, y, z := a - 0xE0, b - 0x80, d - 0x80;
    c := 0x1000 * x + 0x40 * y + z;
    assert c / 0x1000 == x && c / 0x40 == 0x40 * x + y;
    assert c % 0x40 == z && (0x40 * x + y) % 0x40 == y;
  }

  lemma FourBytes(a: byte, b: byte, d: byte, e: byte) returns (c: Scalar)
    requires 0xF0 <= a <= 0xF4 && Continuation(d) && Continuation(e)
    requires Between(if a == 0xF0 then 0x90 else 0x80, b, if a == 0xF4 then 0x8F else 0xBF)
    ensures EncodeScalar(c) == [a, b, d, e]
  {
    var x, y, z, w := a - 0xF0, b - 0x80, d - 0x80, e - 0x80;
    c := 0x4_0000 * x + 0x1000 * y + 0x40 * z + w;
    assert c / 0x4_0000 == x && c / 0x1000 == 0x40 * x + y && c / 0x40 == 0x1000 * x + 0x40 * y + z;
    assert c % 0x40 == w && (0x40 * x + y) % 0x40 == y && (0x1000 * x + 0x40 * y + z) % 0x40 == z;
  }

  lemma {:induction false} EncodedIsUtf8(cs: seq<Scalar>)
    ensures ValidUtf8(EncodeScalars(cs))
  {
    if cs != [] {
      var rest := EncodeScalars(cs[1..]);
      ScalarIsStep(cs[0], rest);
      EncodedIsUtf8(cs[1..]);
      assert (EncodeScalar(cs[0]) + rest)[|EncodeScalar(cs[0])|..] == rest;
    }
  }

  lemma {:induction false} DecodeUtf8(s: seq<byte>) returns (cs: seq<Scalar>)
    requires ValidUtf8(s)
    ensures EncodeScalars(cs) == s
  {
    if s == [] {
      cs := [];
    } else {
      var n := Utf8Step(s);
      var c := StepIsScalar(s);
      var rest := DecodeUtf8(s[n..]);
      cs := [c] + rest;
      assert cs[1..] == rest && s == s[..n] + s[n..];
    }
  }

  /** Exactly what is well-formed: the encodings of sequences of Unicode scalar values. */
  lemma Utf8Exactly(s: seq<byte>)
    ensures ValidUtf8(s) <==> exists cs: seq<Scalar> :: EncodeScalars(cs) == s
  {
    if ValidUtf8(s) {
      var cs := DecodeUtf8(s);
    }
    if cs: seq<Scalar> :| EncodeScalars(cs) == s {
      EncodedIsUtf8(cs);
    }
  }
}
