/**
 UTF-8 by its encoder (section 3 of RFC 3629), and the proof that the byte test accepts exactly the
 encodings of Unicode scalar values.
 */
module Utf8 {
  import opened Basics
  import opened Bytes
  import opened Cbor

  predicate Scalar(c: nat) {
    c <= 0x10FFFF && !(0xD800 <= c <= 0xDFFF)
  }

  /** The octets of one scalar value. */
  function EncodeScalar(c: nat): (s: seq<byte>)
    requires Scalar(c)
    ensures s != []
  {
    if c < 0x80 then [c]
    else if c < 0x800 then [0xC0 + c / 64, 0x80 + c % 64]
    else if c < 0x10000 then [0xE0 + c / 4096, 0x80 + c / 64 % 64, 0x80 + c % 64]
    else [0xF0 + c / 262144, 0x80 + c / 4096 % 64, 0x80 + c / 64 % 64, 0x80 + c % 64]
  }

  predicate Scalars(cs: seq<nat>) {
    forall i :: 0 <= i < |cs| ==> Scalar(cs[i])
  }

  function EncodeScalars(cs: seq<nat>): seq<byte>
    requires Scalars(cs)
  {
    if cs == [] then [] else EncodeScalar(cs[0]) + EncodeScalars(cs[1..])
  }

  /** An encoded scalar in front does not change the verdict. */
  lemma ScalarInFront(c: nat, rest: seq<byte>)
    requires Scalar(c)
    ensures ValidUtf8(EncodeScalar(c) + rest) == ValidUtf8(rest)
  {
    var e := EncodeScalar(c);
    var s := e + rest;
    assert s[|e|..] == rest;
  }

  lemma {:induction false} EncodedIsValid(cs: seq<nat>)
    requires Scalars(cs)
    ensures ValidUtf8(EncodeScalars(cs))
    decreases |cs|
  {
    if cs != [] {
      EncodedIsValid(cs[1..]);
      ScalarInFront(cs[0], EncodeScalars(cs[1..]));
    }
  }

  lemma TwoOctets(a: byte, b: byte) returns (c: nat)
    requires 0xC2 <= a <= 0xDF && 0x80 <= b <= 0xBF
    ensures Scalar(c) && EncodeScalar(c) == [a, b]
  {
    var x, y := a as int - 0xC0, b as int - 0x80;
    c := x * 64 + y;
    assert c / 64 == x && c % 64 == y;
  }

  lemma ThreeOctets(a: byte, b: byte, d: byte) returns (c: nat)
    requires 0xE0 <= a <= 0xEF && 0x80 <= b <= 0xBF && 0x80 <= d <= 0xBF
    requires (a == 0xE0 ==> b >= 0xA0) && (a == 0xED ==> b <= 0x9F)
    ensures Scalar(c) && EncodeScalar(c) == [a, b, d]
  {
    var x, y, z := a as int - 0xE0, b as int - 0x80, d as int - 0x80;
    c := (x * 64 + y) * 64 + z;
    assert c / 64 == x * 64 + y && c % 64 == z;
    assert c / 4096 == x && c / 64 % 64 == y;
  }

  lemma FourOctets(a: byte, b: byte, d: byte, e: byte) returns (c: nat)
    requires 0xF0 <= a <= 0xF4 && 0x80 <= b <= 0xBF && 0x80 <= d <= 0xBF && 0x80 <= e <= 0xBF
    requires (a == 0xF0 ==> b >= 0x90) && (a == 0xF4 ==> b <= 0x8F)
    ensures Scalar(c) && EncodeScalar(c) == [a, b, d, e]
  {
    var w, x, y, z := a as int - 0xF0, b as int - 0x80, d as int - 0x80, e as int - 0x80;
    c := ((w * 64 + x) * 64 + y) * 64 + z;
    assert c / 64 == (w * 64 + x) * 64 + y && c % 64 == z;
    assert c / 4096 == w * 64 + x && c / 64 % 64 == y;
    assert c / 262144 == w && c / 4096 % 64 == x;
  }

  /** The scalar that starts a valid sequence. */
  lemma FirstScalar(s: seq<byte>) returns (c: nat)
    requires s != [] && ValidUtf8(s)
    ensures Scalar(c) && EncodeScalar(c) <= s && ValidUtf8(s[|EncodeScalar(c)|..])
  {
    if s[0] <= 0x7F {
      c := s[0];
      assert EncodeScalar(c) == s[..1];
    } else if s[0] <= 0xDF {
      hide EncodeScalar, Scalar;
      c := TwoOctets(s[0], s[1]);
      assert s[..2] == [s[0], s[1]];
    } else if s[0] <= 0xEF {
      hide EncodeScalar, Scalar;
      c := ThreeOctets(s[0], s[1], s[2]);
      assert s[..3] == [s[0], s[1], s[2]];
    } else {
      hide EncodeScalar, Scalar;
      c := FourOctets(s[0], s[1], s[2], s[3]);
      assert s[..4] == [s[0], s[1], s[2], s[3]];
    }
  }

  lemma {:induction false} ValidIsEncoded(s: seq<byte>) returns (cs: seq<nat>)
    requires ValidUtf8(s)
    ensures Scalars(cs) && EncodeScalars(cs) == s
    decreases |s|
  {
    if s == [] {
      cs := [];
    } else {
      var c := FirstScalar(s);
      var n := |EncodeScalar(c)|;
      var tail := ValidIsEncoded(s[n..]);
      cs := [c] + tail;
      assert cs[1..] == tail && s == EncodeScalar(c) + s[n..];
    }
  }

  /** The decoder accepts text exactly when it encodes a sequence of scalar values. */
  lemma ValidIffEncoded(s: seq<byte>)
    ensures ValidUtf8(s) <==> exists cs :: Scalars(cs) && EncodeScalars(cs) == s
  {
    hide ValidUtf8, EncodeScalars;
    if ValidUtf8(s) {
      var cs := ValidIsEncoded(s);
    }
    if cs :| Scalars(cs) && EncodeScalars(cs) == s {
      EncodedIsValid(cs);
    }
  }
}
