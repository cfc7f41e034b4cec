/**
 What the UTF-8 check of the string fields accepts: exactly the encodings of sequences of
 Unicode scalar values, as section 3 of RFC 3629 defines them.
 */
module Utf8 {
  import opened Wire

  type Scalar = c: int | 0 <= c < 0xD800 || 0xE000 <= c < 0x11_0000

  function Encode(c: Scalar): Bytes {
    if c < 0x80 then [c]
    else if c < 0x800 then [0xC0 + c / 64, 0x80 + c % 64]
    else if c < 0x1_0000 then [0xE0 + c / 4096, 0x80 + c / 64 % 64, 0x80 + c % 64]
    else [0xF0 + c / 262144, 0x80 + c / 4096 % 64, 0x80 + c / 64 % 64, 0x80 + c % 64]
  }

  function EncodeAll(cs: seq<Scalar>): Bytes {
    if cs == [] then [] else Encode(cs[0]) + EncodeAll(cs[1..])
  }

  /** The bits of a byte after its marker. */
  function Part(b: byte, marker: int): int { b - marker }

  /** The character at the start of s. */
  function Decode(s: Bytes): int
    requires Utf8CharLength(s) > 0
  {
    match Utf8CharLength(s)
    case 1 => s[0]
    case 2 => Part(s[0], 0xC0) * 64 + Part(s[1], 0x80)
    case 3 => Part(s[0], 0xE0) * 4096 + Part(s[1], 0x80) * 64 + Part(s[2], 0x80)
    case _ => Part(s[0], 0xF0) * 262144 + Part(s[1], 0x80) * 4096 + Part(s[2], 0x80) * 64 + Part(s[3], 0x80)
  }

  lemma DecodeIsScalar(s: Bytes)
    requires Utf8CharLength(s) > 0
    ensures 0 <= Decode(s) < 0xD800 || 0xE000 <= Decode(s) < 0x11_0000
  {
  }

  lemma Digit(q: nat, d: nat)
    requires d < 64
    ensures (q * 64 + d) / 64 == q && (q * 64 + d) % 64 == d
  {
  }

  lemma FourDigits(a: nat, b: nat, c: nat, d: nat)
    requires b < 64 && c < 64 && d < 64
    ensures var v := a * 262144 + b * 4096 + c * 64 + d;
            v / 262144 == a && v / 4096 == a * 64 + b && v / 64 == a * 4096 + b * 64 + c
            && v / 4096 % 64 == b && v / 64 % 64 == c && v % 64 == d
  {
    Digit(a, b);
    Digit(a * 64 + b, c);
    Digit((a * 64 + b) * 64 + c, d);
  }

  lemma EncodeInverts(s: Bytes)
    requires Utf8CharLength(s) > 0
    ensures Encode(Decode(s)) == s[..Utf8CharLength(s)]
  {
    DecodeIsScalar(s);
    var n := Utf8CharLength(s);
    if n == 2 {
      FourDigits(0, 0, Part(s[0], 0xC0), Part(s[1], 0x80));
    } else if n == 3 {
      FourDigits(0, Part(s[0], 0xE0), Part(s[1], 0x80), Part(s[2], 0x80));
    } else if n == 4 {
      FourDigits(Part(s[0], 0xF0), Part(s[1], 0x80), Part(s[2], 0x80), Part(s[3], 0x80));
    }
  }

  lemma EncodedIsCharacter(c: Scalar, rest: Bytes)
    ensures Utf8CharLength(Encode(c) + rest) == |Encode(c)|
  {
    var s := Encode(c) + rest;
    assert forall i :: 0 <= i < |Encode(c)| ==> s[i] == Encode(c)[i];
  }

  /** The check accepts a byte string exactly if it is the encoding of some scalar values. */
  lemma ValidExactlyIfEncoded(s: Bytes)
    ensures ValidUtf8(s) <==> exists cs: seq<Scalar> :: s == EncodeAll(cs)
  {
    if ValidUtf8(s) {
      var cs := Scalars(s);
      assert s == EncodeAll(cs);
    }
    forall cs: seq<Scalar> | s == EncodeAll(cs) ensures ValidUtf8(s) { EncodedIsValid(cs); }
  }

  /** One valid character and the encoding of the rest. */
  lemma FirstScalar(s: Bytes, n: nat, rest: seq<Scalar>) returns (cs: seq<Scalar>)
    requires 0 < n == Utf8CharLength(s) && s[n..] == EncodeAll(rest)
    ensures s == EncodeAll(cs)
  {
    DecodeIsScalar(s);
    EncodeInverts(s);
    hide Utf8CharLength, Encode, Decode;
    cs := [Decode(s)] + rest;
    assert cs[1..] == rest;
    assert s == s[..n] + s[n..];
  }

  lemma {:induction false} Scalars(s: Bytes) returns (cs: seq<Scalar>)
    requires ValidUtf8(s)
    ensures s == EncodeAll(cs)
    decreases |s|
  {
    hide Utf8CharLength, Encode;
    if s == [] {
      cs := [];
    } else {
      var n := Utf8CharLength(s);
      cs := Scalars(s[n..]);
      cs := FirstScalar(s, n, cs);
    }
  }

  lemma {:induction false} EncodedIsValid(cs: seq<Scalar>)
    ensures ValidUtf8(EncodeAll(cs))
  {
    if cs != [] {
      var rest := EncodeAll(cs[1..]);
      EncodedIsValid(cs[1..]);
      EncodedIsCharacter(cs[0], rest);
      assert (Encode(cs[0]) + rest)[|Encode(cs[0])|..] == rest;
    }
  }
}
