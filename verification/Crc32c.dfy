/** Bit-level facts about plain 32-bit words. */
module RawBits {

  lemma ShiftInvertsPlain(a: bv32)
    requires a & 0x8000_0000 == 0
    ensures ((a << 1) >> 1) ^ ((0 - ((a << 1) & 1)) & 0x82F6_3B78) == a
  {
  }

  lemma ShiftInvertsAdded(a: bv32)
    requires a & 0x8000_0000 != 0
    ensures var u := ((a ^ 0x82F6_3B78) << 1) | 1;
            (u >> 1) ^ ((0 - (u & 1)) & 0x82F6_3B78) == a
  {
  }

  lemma LowBitsClear(p: bv32)
    ensures (0 - ((p << 8) & 1)) & 0x82F6_3B78 == 0 && (0 - ((p << 7) & 1)) & 0x82F6_3B78 == 0
    ensures (0 - ((p << 6) & 1)) & 0x82F6_3B78 == 0 && (0 - ((p << 5) & 1)) & 0x82F6_3B78 == 0
    ensures (0 - ((p << 4) & 1)) & 0x82F6_3B78 == 0 && (0 - ((p << 3) & 1)) & 0x82F6_3B78 == 0
    ensures (0 - ((p << 2) & 1)) & 0x82F6_3B78 == 0 && (0 - ((p << 1) & 1)) & 0x82F6_3B78 == 0
  {
  }
}

/** Named word operations and the few bit-level facts the checksum proof rests on. */
module WordBits {
  import RawBits

  function Xor(a: bv32, b: bv32): bv32 { a ^ b }
  function XorByte(a: bv8, b: bv8): bv8 { a ^ b }
  function Widen(b: bv8): bv32 { b as bv32 }
  function Half(a: bv32): bv32 { a >> 1 }
  function ByteUp(a: bv32): bv32 { a << 8 }

  /** The Castagnoli polynomial if the low bit is set, else zero. */
  function Mask(a: bv32): bv32 { (0 - (a & 1)) & 0x82F6_3B78 }

  /** One step back: the top bit tells whether the polynomial was added. */
  function Unshift(a: bv32): bv32 {
    if a & 0x8000_0000 == 0 then a << 1 else ((a ^ 0x82F6_3B78) << 1) | 1
  }

  /** The word fits its low three bytes, two bytes, one byte, or is zero. */
  predicate Fits(a: bv32, n: nat) {
    if n == 0 then a == 0
    else if n == 1 then a & 0xFF == a
    else if n == 2 then a & 0xFFFF == a
    else if n == 3 then a & 0xFF_FFFF == a
    else true
  }

  lemma XorGroup(a: bv32, b: bv32, c: bv32, d: bv32)
    ensures Xor(Xor(a, b), Xor(c, d)) == Xor(Xor(a, c), Xor(b, d))
  {
    calc {
      Xor(Xor(a, b), Xor(c, d));
      Xor(a ^ b, c ^ d);
      (a ^ b) ^ (c ^ d);
    }
    calc {
      Xor(Xor(a, c), Xor(b, d));
      Xor(a ^ c, b ^ d);
      (a ^ c) ^ (b ^ d);
    }
  }

  lemma XorAssoc(a: bv32, b: bv32, c: bv32)
    ensures Xor(Xor(a, b), c) == Xor(a, Xor(b, c))
  {
  }

  lemma XorZero(a: bv32)
    ensures Xor(a, 0) == a && Xor(0, a) == a && Xor(a, a) == 0
  {
  }

  lemma XorUndo(a: bv32, c: bv32)
    ensures Xor(Xor(a, c), c) == a
  {
    calc {
      Xor(Xor(a, c), c);
      Xor(a ^ c, c);
      (a ^ c) ^ c;
      a;
    }
  }

  lemma XorCancels(a: bv32, b: bv32, c: bv32)
    requires Xor(a, c) == Xor(b, c)
    ensures a == b
  {
    hide Xor;
    XorUndo(a, c);
    XorUndo(b, c);
  }

  lemma XorByteZero(a: bv8, b: bv8)
    ensures XorByte(a, b) == 0 <==> a == b
  {
  }

  lemma WidenXor(a: bv8, b: bv8)
    ensures Widen(XorByte(a, b)) == Xor(Widen(a), Widen(b))
  {
  }

  lemma HalfXor(a: bv32, b: bv32)
    ensures Half(Xor(a, b)) == Xor(Half(a), Half(b))
  {
  }

  lemma MaskXor(a: bv32, b: bv32)
    ensures Mask(Xor(a, b)) == Xor(Mask(a), Mask(b))
  {
  }

  lemma UnshiftInverts(a: bv32)
    ensures Unshift(Xor(Half(a), Mask(a))) == a
  {
  }

  lemma ShiftInvertsPlain(a: bv32)
    requires a & 0x8000_0000 == 0
    ensures Xor(Half(a << 1), Mask(a << 1)) == a
  {
    RawBits.ShiftInvertsPlain(a);
  }

  lemma ShiftInvertsAdded(a: bv32)
    requires a & 0x8000_0000 != 0
    ensures Xor(Half(((a ^ 0x82F6_3B78) << 1) | 1), Mask(((a ^ 0x82F6_3B78) << 1) | 1)) == a
  {
    RawBits.ShiftInvertsAdded(a);
  }

  lemma ShiftInverts(a: bv32)
    ensures Xor(Half(Unshift(a)), Mask(Unshift(a))) == a
  {
    hide Xor, Half, Mask;
    if a & 0x8000_0000 == 0 {
      ShiftInvertsPlain(a);
    } else {
      ShiftInvertsAdded(a);
    }
  }

  lemma FitsStep(b: bv8, p: bv32, n: nat)
    requires n <= 2 && Fits(p, n)
    ensures Fits(Xor(Widen(b), ByteUp(p)), n + 1)
  {
    if n == 0 {
    } else if n == 1 {
    } else {
    }
  }

  lemma FitsThree(p: bv32, n: nat)
    requires n <= 3 && Fits(p, n)
    ensures Fits(p, 3)
  {
    if n == 0 {
    } else if n == 1 {
    } else if n == 2 {
    }
  }

  lemma ZeroParts(b: bv8, p: bv32)
    requires Fits(p, 3) && Xor(Widen(b), ByteUp(p)) == 0
    ensures b == 0 && p == 0
  {
  }

  /** While the top bits are clear, halving undoes a shift up. */
  lemma PlainHalves(p: bv32)
    requires Fits(p, 3)
    ensures Half(p << 8) == p << 7 && Half(p << 7) == p << 6
    ensures Half(p << 6) == p << 5 && Half(p << 5) == p << 4
    ensures Half(p << 4) == p << 3 && Half(p << 3) == p << 2
    ensures Half(p << 2) == p << 1 && Half(p << 1) == p
  {
    calc {
      Half(p << 8);
      (p << 8) >> 1;
      p << 7;
    }
    calc {
      Half(p << 7);
      (p << 7) >> 1;
      p << 6;
    }
    calc {
      Half(p << 6);
      (p << 6) >> 1;
      p << 5;
    }
    calc {
      Half(p << 5);
      (p << 5) >> 1;
      p << 4;
    }
    calc {
      Half(p << 4);
      (p << 4) >> 1;
      p << 3;
    }
    calc {
      Half(p << 3);
      (p << 3) >> 1;
      p << 2;
    }
    calc {
      Half(p << 2);
      (p << 2) >> 1;
      p << 1;
    }
    calc {
      Half(p << 1);
      (p << 1) >> 1;
      p;
    }
  }

  lemma PlainMasks(p: bv32)
    ensures Mask(p << 8) == 0 && Mask(p << 7) == 0 && Mask(p << 6) == 0 && Mask(p << 5) == 0
    ensures Mask(p << 4) == 0 && Mask(p << 3) == 0 && Mask(p << 2) == 0 && Mask(p << 1) == 0
  {
    RawBits.LowBitsClear(p);
  }
}

/**
 The bitwise CRC32C of section 12.1 of RFC 3720: the register is linear over xor
 and invertible, so no change confined to four consecutive bytes goes unnoticed.
 */
module Crc32c {
  import opened WordBits

  const ALL_ONES: bv32 := 0xFFFF_FFFF

  function ShiftBit(crc: bv32): bv32 {
    Xor(Half(crc), Mask(crc))
  }

  function Shifts(crc: bv32, n: nat): bv32 {
    if n == 0 then crc else ShiftBit(Shifts(crc, n - 1))
  }

  function Feed(crc: bv32, b: bv8): bv32 {
    Shifts(Xor(crc, Widen(b)), 8)
  }

  /** The register after a message. */
  function Register(crc: bv32, data: seq<bv8>): bv32
    decreases |data|
  {
    if data == [] then crc else Register(Feed(crc, data[0]), data[1..])
  }

  function Crc(data: seq<bv8>): bv32 {
    Xor(Register(ALL_ONES, data), ALL_ONES)
  }

  /** The two nested loops of the source. */
  method ComputeCrc(data: seq<bv8>) returns (result: bv32)
    ensures result == Crc(data)
  {
    hide Xor, Half, Mask, Widen;
    var crc := ALL_ONES;
    for i := 0 to |data|
      invariant Register(crc, data[i..]) == Register(ALL_ONES, data)
    {
      assert data[i..][1..] == data[i + 1..];
      crc := Xor(crc, Widen(data[i]));
      ghost var before := crc;
      for bit := 0 to 8
        invariant crc == Shifts(before, bit)
      {
        var mask := Mask(crc);
        crc := Xor(Half(crc), mask);
      }
    }
    result := Xor(crc, ALL_ONES);
  }

  // ------------------------------------------------------------------ linearity

  lemma ShiftBitLinear(a: bv32, b: bv32)
    ensures ShiftBit(Xor(a, b)) == Xor(ShiftBit(a), ShiftBit(b))
  {
    hide Xor, Half, Mask;
    HalfXor(a, b);
    MaskXor(a, b);
    XorGroup(Half(a), Half(b), Mask(a), Mask(b));
  }

  lemma {:induction false} ShiftsLinear(a: bv32, b: bv32, n: nat)
    ensures Shifts(Xor(a, b), n) == Xor(Shifts(a, n), Shifts(b, n))
  {
    hide ShiftBit, Xor;
    if n > 0 {
      ShiftsLinear(a, b, n - 1);
      ShiftBitLinear(Shifts(a, n - 1), Shifts(b, n - 1));
    }
  }

  lemma FeedLinear(c: bv32, d: bv32, x: bv8, y: bv8)
    ensures Feed(Xor(c, d), XorByte(x, y)) == Xor(Feed(c, x), Feed(d, y))
  {
    hide Shifts, Xor, XorByte, Widen;
    WidenXor(x, y);
    XorGroup(c, d, Widen(x), Widen(y));
    ShiftsLinear(Xor(c, Widen(x)), Xor(d, Widen(y)), 8);
  }

  /** Bytewise xor of two messages of the same length. */
  function XorAll(x: seq<bv8>, y: seq<bv8>): (z: seq<bv8>)
    requires |x| == |y|
    ensures |z| == |x|
    ensures forall i :: 0 <= i < |z| ==> z[i] == XorByte(x[i], y[i])
  {
    if x == [] then [] else [XorByte(x[0], y[0])] + XorAll(x[1..], y[1..])
  }

  /** The register is linear in its start value and the message together. */
  lemma {:induction false} RegisterLinear(c: bv32, d: bv32, x: seq<bv8>, y: seq<bv8>)
    requires |x| == |y|
    ensures Register(Xor(c, d), XorAll(x, y)) == Xor(Register(c, x), Register(d, y))
    decreases |x|
  {
    hide Feed, Xor, XorByte;
    if x != [] {
      FeedLinear(c, d, x[0], y[0]);
      assert XorAll(x, y)[1..] == XorAll(x[1..], y[1..]);
      RegisterLinear(Feed(c, x[0]), Feed(d, y[0]), x[1..], y[1..]);
    }
  }

  /** The checksum is affine over xor on messages of one length. */
  lemma CrcAffine(x: seq<bv8>, y: seq<bv8>, z: seq<bv8>)
    requires |x| == |y| == |z|
    ensures Crc(XorAll(XorAll(x, y), z)) == Xor(Xor(Crc(x), Crc(y)), Crc(z))
  {
    hide Register, Xor, XorAll;
    var r, s, t := Register(ALL_ONES, x), Register(ALL_ONES, y), Register(ALL_ONES, z);
    RegisterLinear(ALL_ONES, ALL_ONES, x, y);
    XorZero(ALL_ONES);
    RegisterLinear(0, ALL_ONES, XorAll(x, y), z);
    XorGroup(r, ALL_ONES, s, ALL_ONES);
    XorZero(Xor(r, s));
    XorAssoc(Xor(r, s), t, ALL_ONES);
  }

  // -------------------------------------------------------------- invertibility

  lemma {:induction false} ShiftsInjective(a: bv32, b: bv32, n: nat)
    requires Shifts(a, n) == Shifts(b, n)
    ensures a == b
  {
    hide Xor, Half, Mask, Unshift;
    if n > 0 {
      UnshiftInverts(Shifts(a, n - 1));
      UnshiftInverts(Shifts(b, n - 1));
      ShiftsInjective(a, b, n - 1);
    }
  }

  lemma {:induction false} ShiftsOnto(c: bv32, n: nat) returns (a: bv32)
    ensures Shifts(a, n) == c
    decreases n
  {
    hide Xor, Half, Mask, Unshift;
    if n == 0 {
      a := c;
    } else {
      a := ShiftsOnto(Unshift(c), n - 1);
      ShiftInverts(c);
    }
  }

  /** Feeding a byte is injective in the register... */
  lemma FeedInjective(c: bv32, d: bv32, b: bv8)
    requires Feed(c, b) == Feed(d, b)
    ensures c == d
  {
    hide Shifts, Xor, Widen;
    ShiftsInjective(Xor(c, Widen(b)), Xor(d, Widen(b)), 8);
    XorCancels(c, d, Widen(b));
  }

  /** ... and reaches every register, so it is a bijection. */
  lemma FeedOnto(r: bv32, b: bv8) returns (c: bv32)
    ensures Feed(c, b) == r
  {
    hide Shifts, Xor, Widen;
    var a := ShiftsOnto(r, 8);
    XorUndo(a, Widen(b));
    c := Xor(a, Widen(b));
  }

  /** For a fixed message, different start values end in different registers. */
  lemma {:induction false} RegisterInjective(c: bv32, d: bv32, data: seq<bv8>)
    requires Register(c, data) == Register(d, data)
    ensures c == d
    decreases |data|
  {
    hide Feed;
    if data != [] {
      RegisterInjective(Feed(c, data[0]), Feed(d, data[0]), data[1..]);
      FeedInjective(c, d, data[0]);
    }
  }

  // --------------------------------------------------------------- burst errors

  /** Up to four bytes as one little-endian word. */
  function Pack(d: seq<bv8>): bv32 {
    if d == [] then 0 else Xor(Widen(d[0]), ByteUp(Pack(d[1..])))
  }

  lemma {:induction false} PackFits(d: seq<bv8>)
    requires |d| <= 3
    ensures Fits(Pack(d), |d|) && Fits(Pack(d), 3)
  {
    if d == [] {
      FitsThree(0, 0);
    } else {
      hide Xor, Widen, ByteUp, Fits;
      PackFits(d[1..]);
      FitsStep(d[0], Pack(d[1..]), |d| - 1);
      FitsThree(Pack(d), |d|);
    }
  }

  /** Packing loses nothing: only zero bytes pack to zero. */
  lemma {:induction false} PackZero(d: seq<bv8>)
    requires |d| <= 4 && Pack(d) == 0
    ensures forall i :: 0 <= i < |d| ==> d[i] == 0
  {
    hide Xor, Widen, ByteUp, Fits;
    if d != [] {
      var tail := d[1..];
      PackFits(tail);
      ZeroParts(d[0], Pack(tail));
      PackZero(tail);
      assert forall i :: 0 < i < |d| ==> d[i] == tail[i - 1];
    }
  }

  /** Eight shifts move a word of at most three bytes down by one byte. */
  lemma EightShifts(p: bv32)
    requires Fits(p, 3)
    ensures Shifts(ByteUp(p), 8) == p
  {
    hide Xor, Half, Mask, Fits;
    PlainHalves(p);
    PlainMasks(p);
    var a := p << 8;
    XorZero(p << 7);
    assert Shifts(a, 1) == p << 7;
    XorZero(p << 6);
    assert Shifts(a, 2) == p << 6;
    XorZero(p << 5);
    assert Shifts(a, 3) == p << 5;
    XorZero(p << 4);
    assert Shifts(a, 4) == p << 4;
    XorZero(p << 3);
    assert Shifts(a, 5) == p << 3;
    XorZero(p << 2);
    assert Shifts(a, 6) == p << 2;
    XorZero(p << 1);
    assert Shifts(a, 7) == p << 1;
    XorZero(p);
  }

  lemma {:induction false} ShiftsAdd(c: bv32, m: nat, n: nat)
    ensures Shifts(Shifts(c, m), n) == Shifts(c, m + n)
  {
    hide ShiftBit;
    if n > 0 {
      ShiftsAdd(c, m, n - 1);
    }
  }

  /** Up to four bytes enter the register as one word. */
  lemma {:induction false} RegisterOfWord(c: bv32, d: seq<bv8>)
    requires |d| <= 4
    ensures Register(c, d) == Shifts(Xor(c, Pack(d)), 8 * |d|)
    decreases |d|
  {
    hide ShiftBit, Xor, Widen, ByteUp, Fits;
    if d == [] {
      XorZero(c);
    } else {
      var tail := d[1..];
      var b, p := Widen(d[0]), Pack(tail);
      PackFits(tail);
      RegisterOfWord(Feed(c, d[0]), tail);
      EightShifts(p);
      ShiftsLinear(Xor(c, b), ByteUp(p), 8);
      XorAssoc(c, b, ByteUp(p));
      ShiftsAdd(Xor(c, Pack(d)), 8, 8 * |tail|);
    }
  }

  lemma {:induction false} RegisterConcat(c: bv32, x: seq<bv8>, y: seq<bv8>)
    ensures Register(c, x + y) == Register(Register(c, x), y)
    decreases |x|
  {
    hide Feed;
    if x == [] {
      assert x + y == y;
    } else {
      assert (x + y)[1..] == x[1..] + y;
      RegisterConcat(Feed(c, x[0]), x[1..], y);
    }
  }

  lemma {:induction false} ZeroShifts(n: nat)
    ensures Shifts(0, n) == 0
  {
    if n > 0 {
      ZeroShifts(n - 1);
    }
  }

  /** Two windows of at most four bytes that leave the same register are equal. */
  lemma WindowInjective(c: bv32, u: seq<bv8>, v: seq<bv8>)
    requires |u| == |v| <= 4 && Register(c, u) == Register(c, v)
    ensures u == v
  {
    hide Register, Shifts, Pack, Xor, XorByte;
    var w := XorAll(u, v);
    RegisterLinear(c, c, u, v);
    XorZero(c);
    XorZero(Register(c, u));
    RegisterOfWord(0, w);
    XorZero(Pack(w));
    ZeroShifts(8 * |w|);
    ShiftsInjective(Pack(w), 0, 8 * |w|);
    PackZero(w);
    forall i | 0 <= i < |u| ensures u[i] == v[i] {
      assert w[i] == XorByte(u[i], v[i]);
      XorByteZero(u[i], v[i]);
    }
  }

  /** The register after three parts of a message. */
  lemma RegisterOfParts(c: bv32, pre: seq<bv8>, window: seq<bv8>, post: seq<bv8>)
    ensures Register(c, pre + window + post) == Register(Register(Register(c, pre), window), post)
  {
    hide Register;
    RegisterConcat(c, pre + window, post);
    RegisterConcat(c, pre, window);
  }

  /** Any change confined to four consecutive bytes changes the checksum. */
  lemma BurstDetected(x: seq<bv8>, y: seq<bv8>, i: nat)
    requires |x| == |y| && x != y
    requires forall j :: 0 <= j < |x| && !(i <= j < i + 4) ==> x[j] == y[j]
    ensures Crc(x) != Crc(y)
  {
    hide Register, Xor;
    var k := if i < |x| then i else |x|;
    var m := if i + 4 < |x| then i + 4 else |x|;
    var pre, post := x[..k], x[m..];
    assert x == pre + x[k..m] + post;
    assert y == pre + y[k..m] + post;
    RegisterOfParts(ALL_ONES, pre, x[k..m], post);
    RegisterOfParts(ALL_ONES, pre, y[k..m], post);
    var c := Register(ALL_ONES, pre);
    if Crc(x) == Crc(y) {
      XorCancels(Register(ALL_ONES, x), Register(ALL_ONES, y), ALL_ONES);
      RegisterInjective(Register(c, x[k..m]), Register(c, y[k..m]), post);
      WindowInjective(c, x[k..m], y[k..m]);
      assert false;
    }
  }
}
