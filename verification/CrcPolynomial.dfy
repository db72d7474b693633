/** Words as strings of bits, lowest bit first. */
module BitStrings {
  import opened WordBits

  predicate Low(a: bv32) { a & 1 == 1 }
  predicate LowOfByte(b: bv8) { b & 1 == 1 }
  function HalfByte(b: bv8): bv8 { b >> 1 }

  /** The lowest `n` bits, the lowest first. */
  function Bits(a: bv32, n: nat): (s: seq<bool>)
    ensures |s| == n
  {
    if n == 0 then [] else [Low(a)] + Bits(Half(a), n - 1)
  }

  /** The bits of a byte, the lowest first: the order in which they are sent. */
  function ByteBits(b: bv8, n: nat): (s: seq<bool>)
    ensures |s| == n
  {
    if n == 0 then [] else [LowOfByte(b)] + ByteBits(HalfByte(b), n - 1)
  }

  function Zeros(n: nat): (s: seq<bool>)
    ensures |s| == n && forall i :: 0 <= i < n ==> !s[i]
  {
    if n == 0 then [] else [false] + Zeros(n - 1)
  }

  function XorBits(x: seq<bool>, y: seq<bool>): (z: seq<bool>)
    requires |x| == |y|
    ensures |z| == |x| && forall i :: 0 <= i < |z| ==> z[i] == (x[i] != y[i])
  {
    if x == [] then [] else [x[0] != y[0]] + XorBits(x[1..], y[1..])
  }

  function Complement(x: seq<bool>): (z: seq<bool>)
    ensures |z| == |x| && forall i :: 0 <= i < |z| ==> z[i] == !x[i]
  {
    if x == [] then [] else [!x[0]] + Complement(x[1..])
  }

  // ---------------------------------------------------------------- facts about words

  lemma LowXor(a: bv32, b: bv32)
    ensures Low(Xor(a, b)) == (Low(a) != Low(b))
  {
    LowXorRaw(a, b);
  }

  lemma LowXorRaw(a: bv32, b: bv32)
    ensures ((a ^ b) & 1 == 1) == ((a & 1 == 1) != (b & 1 == 1))
  {
  }

  lemma WidenLow(b: bv8)
    ensures Low(Widen(b)) == LowOfByte(b)
  {
  }

  lemma WidenHalf(b: bv8)
    ensures Half(Widen(b)) == Widen(HalfByte(b))
  {
  }

  lemma MaskByLow(a: bv32)
    ensures Mask(a) == if Low(a) then 0x82F6_3B78 else 0
  {
  }

  function Halves(a: bv32, n: nat): bv32 {
    if n == 0 then a else Halves(Half(a), n - 1)
  }

  function ShiftTwo(a: bv32): bv32 { a >> 2 }
  function ShiftFour(a: bv32): bv32 { a >> 4 }
  function ShiftEight(a: bv32): bv32 { a >> 8 }

  lemma EightHalves(a: bv32)
    ensures Halves(a, 8) == ShiftEight(a)
  {
    hide Half, Halves, ShiftFour, ShiftEight;
    HalvesAdd(a, 4, 4);
    HalvesOfFour(a);
    FourHalves(a);
    HalvesOfFour(ShiftFour(a));
    FourHalves(ShiftFour(a));
    EightIsFourAndFour(a);
  }

  lemma HalvesOfFour(a: bv32)
    ensures Halves(a, 4) == Half(Half(Half(Half(a))))
  {
    hide Half;
    var b := Half(Half(a));
    assert Halves(Half(Half(b)), 0) == Half(Half(b));
    assert Halves(Half(b), 1) == Half(Half(b));
    assert Halves(b, 2) == Half(Half(b));
    assert Halves(Half(a), 3) == Half(Half(b));
  }

  lemma FourHalves(a: bv32)
    ensures Half(Half(Half(Half(a)))) == ShiftFour(a)
  {
    hide Half, ShiftTwo, ShiftFour;
    TwoHalves(a);
    TwoHalves(ShiftTwo(a));
    FourIsTwoAndTwo(a);
  }

  lemma TwoHalves(a: bv32)
    ensures Half(Half(a)) == ShiftTwo(a)
  {
    calc {
      Half(Half(a));
      (a >> 1) >> 1;
      a >> 2;
      ShiftTwo(a);
    }
  }

  lemma FourIsTwoAndTwo(a: bv32)
    ensures ShiftTwo(ShiftTwo(a)) == ShiftFour(a)
  {
    calc {
      ShiftTwo(ShiftTwo(a));
      (a >> 2) >> 2;
      a >> 4;
      ShiftFour(a);
    }
  }

  lemma EightIsFourAndFour(a: bv32)
    ensures ShiftFour(ShiftFour(a)) == ShiftEight(a)
  {
    calc {
      ShiftFour(ShiftFour(a));
      (a >> 4) >> 4;
      a >> 8;
      ShiftEight(a);
    }
  }

  lemma {:induction false} HalvesAdd(a: bv32, m: nat, n: nat)
    ensures Halves(a, m + n) == Halves(Halves(a, m), n)
    decreases m
  {
    hide Half;
    if m > 0 {
      HalvesAdd(Half(a), m - 1, n);
    }
  }

  /** Nothing is left of a word after thirty-two halvings, nor of a byte after eight. */
  lemma HalvedAway(a: bv32, b: bv8)
    ensures Halves(a, 32) == 0 && Halves(Widen(b), 8) == 0
  {
    hide Half, Halves, Widen, ShiftEight;
    HalvesAdd(a, 8, 24);
    HalvesAdd(Halves(a, 8), 8, 16);
    HalvesAdd(Halves(Halves(a, 8), 8), 8, 8);
    EightHalves(a);
    EightHalves(ShiftEight(a));
    EightHalves(ShiftEight(ShiftEight(a)));
    EightHalves(ShiftEight(ShiftEight(ShiftEight(a))));
    ShiftedAway(a);
    EightHalves(Widen(b));
    ByteShiftedAway(b);
  }

  lemma ShiftedAway(a: bv32)
    ensures ShiftEight(ShiftEight(ShiftEight(ShiftEight(a)))) == 0
  {
    var b := ShiftEight(ShiftEight(a));
    calc {
      b;
      (a >> 8) >> 8;
      a >> 16;
    }
    calc {
      ShiftEight(ShiftEight(b));
      (b >> 8) >> 8;
      b >> 16;
      (a >> 16) >> 16;
      0;
    }
  }

  lemma ByteShiftedAway(b: bv8)
    ensures ShiftEight(Widen(b)) == 0
  {
    calc {
      ShiftEight(Widen(b));
      (b as bv32) >> 8;
      0;
    }
  }

  // ---------------------------------------------------------- bit strings of results

  lemma {:induction false} BitsXor(a: bv32, b: bv32, n: nat)
    ensures Bits(Xor(a, b), n) == XorBits(Bits(a, n), Bits(b, n))
    decreases n
  {
    hide Xor, Half, Low;
    if n > 0 {
      LowXor(a, b);
      HalfXor(a, b);
      BitsXor(Half(a), Half(b), n - 1);
    }
  }

  lemma {:induction false} BitsOfZero(n: nat)
    ensures Bits(0, n) == Zeros(n)
  {
    if n > 0 {
      assert Half(0) == 0 && !Low(0);
      hide Half, Low;
      BitsOfZero(n - 1);
    }
  }

  lemma {:induction false} BitsSplit(a: bv32, m: nat, n: nat)
    ensures Bits(a, m + n) == Bits(a, m) + Bits(Halves(a, m), n)
    decreases m
  {
    hide Half, Low;
    if m == 0 {
      assert [] + Bits(a, n) == Bits(a, n);
    } else {
      BitsSplit(Half(a), m - 1, n);
      assert [Low(a)] + (Bits(Half(a), m - 1) + Bits(Halves(Half(a), m - 1), n)) ==
             [Low(a)] + Bits(Half(a), m - 1) + Bits(Halves(Half(a), m - 1), n);
    }
  }

  lemma FirstBit(a: bv32, n: nat)
    requires n > 0
    ensures Bits(a, n) == [Low(a)] + Bits(Half(a), n - 1)
  {
    hide Low, Half;
  }

  /** Halving drops the first bit and appends a zero. */
  lemma BitsOfHalf(a: bv32)
    ensures Bits(Half(a), 32) == Bits(a, 32)[1..] + [false]
    ensures Bits(a, 32)[0] == Low(a)
  {
    hide Half, Low, Halves, Bits;
    BitsSplit(a, 32, 1);
    HalvedAway(a, 0);
    BitsOfZero(1);
    assert Zeros(1) == [false];
    FirstBit(a, 33);
    FirstBit(a, 32);
    assert Bits(a, 33)[1..] == Bits(Half(a), 32);
    assert (Bits(a, 32) + [false])[1..] == Bits(a, 32)[1..] + [false];
  }

  lemma {:induction false} WidenedBits(b: bv8, n: nat)
    ensures Bits(Widen(b), n) == ByteBits(b, n)
    decreases n
  {
    hide Widen, Half, Low, LowOfByte, HalfByte;
    if n > 0 {
      WidenLow(b);
      WidenHalf(b);
      WidenedBits(HalfByte(b), n - 1);
    }
  }

  /** A byte fills the first eight bits of the word it widens to. */
  lemma BitsOfWiden(b: bv8)
    ensures Bits(Widen(b), 32) == ByteBits(b, 8) + Zeros(24)
  {
    hide Widen, Halves;
    BitsSplit(Widen(b), 8, 24);
    HalvedAway(0, b);
    WidenedBits(b, 8);
    BitsOfZero(24);
  }

  lemma BitsOfOnes()
    ensures Bits(0xFFFF_FFFF, 32) == Complement(Zeros(32))
  {
    hide Low, Half;
    HalvesOfOnes();
    assert Bits(0x1, 1) == Complement(Zeros(1));
    assert Bits(0x3, 2) == Complement(Zeros(2));
    assert Bits(0x7, 3) == Complement(Zeros(3));
    assert Bits(0xF, 4) == Complement(Zeros(4));
    assert Bits(0x1F, 5) == Complement(Zeros(5));
    assert Bits(0x3F, 6) == Complement(Zeros(6));
    assert Bits(0x7F, 7) == Complement(Zeros(7));
    assert Bits(0xFF, 8) == Complement(Zeros(8));
    assert Bits(0x1FF, 9) == Complement(Zeros(9));
    assert Bits(0x3FF, 10) == Complement(Zeros(10));
    assert Bits(0x7FF, 11) == Complement(Zeros(11));
    assert Bits(0xFFF, 12) == Complement(Zeros(12));
    assert Bits(0x1FFF, 13) == Complement(Zeros(13));
    assert Bits(0x3FFF, 14) == Complement(Zeros(14));
    assert Bits(0x7FFF, 15) == Complement(Zeros(15));
    assert Bits(0xFFFF, 16) == Complement(Zeros(16));
    assert Bits(0x1FFFF, 17) == Complement(Zeros(17));
    assert Bits(0x3FFFF, 18) == Complement(Zeros(18));
    assert Bits(0x7FFFF, 19) == Complement(Zeros(19));
    assert Bits(0xFFFFF, 20) == Complement(Zeros(20));
    assert Bits(0x1FFFFF, 21) == Complement(Zeros(21));
    assert Bits(0x3FFFFF, 22) == Complement(Zeros(22));
    assert Bits(0x7FFFFF, 23) == Complement(Zeros(23));
    assert Bits(0xFFFFFF, 24) == Complement(Zeros(24));
    assert Bits(0x1FFFFFF, 25) == Complement(Zeros(25));
    assert Bits(0x3FFFFFF, 26) == Complement(Zeros(26));
    assert Bits(0x7FFFFFF, 27) == Complement(Zeros(27));
    assert Bits(0xFFFFFFF, 28) == Complement(Zeros(28));
    assert Bits(0x1FFFFFFF, 29) == Complement(Zeros(29));
    assert Bits(0x3FFFFFFF, 30) == Complement(Zeros(30));
    assert Bits(0x7FFFFFFF, 31) == Complement(Zeros(31));
    assert Bits(0xFFFFFFFF, 32) == Complement(Zeros(32));
  }

  lemma HalvesOfOnes()
    ensures Half(0xFFFFFFFF) == 0x7FFFFFFF && Low(0xFFFFFFFF)
    ensures Half(0x7FFFFFFF) == 0x3FFFFFFF && Low(0x7FFFFFFF)
    ensures Half(0x3FFFFFFF) == 0x1FFFFFFF && Low(0x3FFFFFFF)
    ensures Half(0x1FFFFFFF) == 0xFFFFFFF && Low(0x1FFFFFFF)
    ensures Half(0xFFFFFFF) == 0x7FFFFFF && Low(0xFFFFFFF)
    ensures Half(0x7FFFFFF) == 0x3FFFFFF && Low(0x7FFFFFF)
    ensures Half(0x3FFFFFF) == 0x1FFFFFF && Low(0x3FFFFFF)
    ensures Half(0x1FFFFFF) == 0xFFFFFF && Low(0x1FFFFFF)
    ensures Half(0xFFFFFF) == 0x7FFFFF && Low(0xFFFFFF)
    ensures Half(0x7FFFFF) == 0x3FFFFF && Low(0x7FFFFF)
    ensures Half(0x3FFFFF) == 0x1FFFFF && Low(0x3FFFFF)
    ensures Half(0x1FFFFF) == 0xFFFFF && Low(0x1FFFFF)
    ensures Half(0xFFFFF) == 0x7FFFF && Low(0xFFFFF)
    ensures Half(0x7FFFF) == 0x3FFFF && Low(0x7FFFF)
    ensures Half(0x3FFFF) == 0x1FFFF && Low(0x3FFFF)
    ensures Half(0x1FFFF) == 0xFFFF && Low(0x1FFFF)
    ensures Half(0xFFFF) == 0x7FFF && Low(0xFFFF)
    ensures Half(0x7FFF) == 0x3FFF && Low(0x7FFF)
    ensures Half(0x3FFF) == 0x1FFF && Low(0x3FFF)
    ensures Half(0x1FFF) == 0xFFF && Low(0x1FFF)
    ensures Half(0xFFF) == 0x7FF && Low(0xFFF)
    ensures Half(0x7FF) == 0x3FF && Low(0x7FF)
    ensures Half(0x3FF) == 0x1FF && Low(0x3FF)
    ensures Half(0x1FF) == 0xFF && Low(0x1FF)
    ensures Half(0xFF) == 0x7F && Low(0xFF)
    ensures Half(0x7F) == 0x3F && Low(0x7F)
    ensures Half(0x3F) == 0x1F && Low(0x3F)
    ensures Half(0x1F) == 0xF && Low(0x1F)
    ensures Half(0xF) == 0x7 && Low(0xF)
    ensures Half(0x7) == 0x3 && Low(0x7)
    ensures Half(0x3) == 0x1 && Low(0x3)
    ensures Half(0x1) == 0x0 && Low(0x1)
  {
  }
}

/**
 CRC32C as section 12.1 of RFC 3720 defines it, by polynomial division over bits, and the proof that
 the byte loop computes it.
 */
module CrcPolynomial {
  import opened WordBits
  import opened BitStrings
  import opened Crc32c

  /** The exponents of the generator polynomial 0x11EDC6F41. */
  predicate Exponent(e: nat) {
    || e == 32 || e == 28 || e == 27 || e == 26 || e == 25 || e == 23 || e == 22 || e == 20 || e == 19 || e == 18
    || e == 14 || e == 13 || e == 11 || e == 10 || e == 9 || e == 8 || e == 6 || e == 0
  }

  /** The coefficients below x^n of the generator, the highest power first. */
  function Coefficients(n: nat): (s: seq<bool>)
    ensures |s| == n
  {
    if n == 0 then [] else [Exponent(n - 1)] + Coefficients(n - 1)
  }

  /** Adding `g` to the leading coefficients of `d`. */
  function AddFront(d: seq<bool>, g: seq<bool>): (s: seq<bool>)
    requires |g| <= |d|
    ensures |s| == |d|
  {
    XorBits(d[..|g|], g) + d[|g|..]
  }

  /** The remainder of long division by the generator: subtract it wherever the leading coefficient is one. */
  function Remainder(d: seq<bool>): (r: seq<bool>)
    requires |d| >= 32
    ensures |r| == 32
    decreases |d|
  {
    if |d| == 32 then d
    else if d[0] then Remainder(AddFront(d, Coefficients(33))[1..])
    else Remainder(d[1..])
  }

  /** The message as a bit string: each byte's lowest bit first. */
  function MessageBits(data: seq<bv8>): seq<bool> {
    if data == [] then [] else ByteBits(data[0], 8) + MessageBits(data[1..])
  }

  /** The CRC as a bit string: extend by 32 zeros, complement the first 32 bits, divide, complement the remainder. */
  function RfcCrc(data: seq<bv8>): (r: seq<bool>)
    ensures |r| == 32
  {
    var extended := MessageBits(data) + Zeros(32);
    Complement(Remainder(Complement(extended[..32]) + extended[32..]))
  }

  // ------------------------------------------------------------ one bit at a time

  /** The register after one more message bit. */
  function FeedBit(r: seq<bool>, b: bool): (s: seq<bool>)
    requires |r| == 32
    ensures |s| == 32
  {
    var shifted := r[1..] + [false];
    if r[0] != b then XorBits(shifted, Coefficients(32)) else shifted
  }

  function FeedBits(r: seq<bool>, m: seq<bool>): (s: seq<bool>)
    requires |r| == 32
    ensures |s| == 32
    decreases |m|
  {
    if m == [] then r else FeedBits(FeedBit(r, m[0]), m[1..])
  }

  /** The dividend that is left when the register is `r` and the bits `m` are to come. */
  function Dividend(r: seq<bool>, m: seq<bool>): (d: seq<bool>)
    requires |r| == 32
    ensures |d| == |m| + 32
  {
    AddFront(m + Zeros(32), r)
  }

  lemma DividendAt(r: seq<bool>, m: seq<bool>, i: nat)
    requires |r| == 32 && i < |m| + 32
    ensures Dividend(r, m)[i] == ((i < |m| && m[i]) != (i < 32 && r[i]))
  {
    var e := m + Zeros(32);
    assert e[i] == (i < |m| && m[i]);
    if i < 32 {
      assert e[..32][i] == e[i];
    } else {
      assert e[32..][i - 32] == e[i];
    }
  }

  lemma LeadingCoefficient()
    ensures Coefficients(33) == [true] + Coefficients(32)
  {
  }

  /** One step of the division is one step of the register. */
  lemma DivisionStep(r: seq<bool>, m: seq<bool>)
    requires |r| == 32 && m != []
    ensures var d := Dividend(r, m);
            Remainder(d) == Remainder(Dividend(FeedBit(r, m[0]), m[1..]))
  {
    hide Coefficients, Dividend;
    var d, next := Dividend(r, m), FeedBit(r, m[0]);
    LeadingCoefficient();
    DividendAt(r, m, 0);
    var g := Coefficients(33);
    var reduced := if d[0] then AddFront(d, g)[1..] else d[1..];
    forall i: nat | i < |m| + 31 ensures reduced[i] == Dividend(next, m[1..])[i] {
      DividendAt(r, m, i + 1);
      DividendAt(next, m[1..], i);
      ReducedAt(d, g, i);
      FeedBitAt(r, m[0], i);
      assert i < |m[1..]| ==> m[1..][i] == m[i + 1];
      assert i < 32 ==> g[i + 1] == Coefficients(32)[i];
    }
    assert reduced == Dividend(next, m[1..]);
  }

  lemma ReducedAt(d: seq<bool>, g: seq<bool>, i: nat)
    requires |g| == 33 <= |d| && i + 1 < |d|
    ensures AddFront(d, g)[1..][i] == (d[i + 1] != (i < 32 && g[i + 1]))
    ensures d[1..][i] == d[i + 1]
  {
    if i < 32 {
      assert d[..33][i + 1] == d[i + 1];
    } else {
      assert d[33..][i - 32] == d[i + 1];
    }
  }

  lemma FeedBitAt(r: seq<bool>, b: bool, i: nat)
    requires |r| == 32
    ensures i < 32 ==> FeedBit(r, b)[i] == ((i < 31 && r[i + 1]) != ((r[0] != b) && Coefficients(32)[i]))
  {
    hide Coefficients;
  }

  /** Dividing is feeding the bits one by one. */
  lemma {:induction false} DivisionFeeds(r: seq<bool>, m: seq<bool>)
    requires |r| == 32
    ensures Remainder(Dividend(r, m)) == FeedBits(r, m)
    decreases |m|
  {
    hide FeedBit;
    if m == [] {
      forall i: nat | i < 32 ensures Dividend(r, m)[i] == r[i] {
        DividendAt(r, m, i);
      }
      assert Dividend(r, m) == r;
    } else {
      hide Remainder, Dividend;
      DivisionStep(r, m);
      DivisionFeeds(FeedBit(r, m[0]), m[1..]);
    }
  }

  // ------------------------------------------------------------ one byte at a time

  lemma {:induction false} FeedBitsAppend(r: seq<bool>, a: seq<bool>, b: seq<bool>)
    requires |r| == 32
    ensures FeedBits(r, a + b) == FeedBits(FeedBits(r, a), b)
    decreases |a|
  {
    hide FeedBit;
    if a == [] {
      assert a + b == b;
    } else {
      assert (a + b)[1..] == a[1..] + b;
      FeedBitsAppend(FeedBit(r, a[0]), a[1..], b);
    }
  }

  function ShiftN(r: seq<bool>, n: nat): (s: seq<bool>)
    requires |r| == 32
    ensures |s| == 32
    decreases n
  {
    if n == 0 then r else ShiftN(FeedBit(r, false), n - 1)
  }

  /** Bits that were already added to the register come up one by one. */
  lemma ShiftAdded(r: seq<bool>, w: seq<bool>)
    requires |r| == 32 && 0 < |w| <= 32
    ensures FeedBit(AddFront(r, w), false) == AddFront(FeedBit(r, w[0]), w[1..])
  {
    hide Coefficients;
    var x, y := FeedBit(AddFront(r, w), false), AddFront(FeedBit(r, w[0]), w[1..]);
    AddedAt(r, w, 0);
    forall i: nat | i < 32 ensures x[i] == y[i] {
      FeedBitAt(AddFront(r, w), false, i);
      FeedBitAt(r, w[0], i);
      AddedAt(FeedBit(r, w[0]), w[1..], i);
      if i < 31 {
        AddedAt(r, w, i + 1);
      }
      assert i < |w[1..]| ==> w[1..][i] == w[i + 1];
    }
  }

  lemma AddedAt(r: seq<bool>, w: seq<bool>, i: nat)
    requires |w| <= |r| && i < |r|
    ensures AddFront(r, w)[i] == (r[i] != (i < |w| && w[i]))
  {
    if i < |w| {
      assert r[..|w|][i] == r[i];
    } else {
      assert r[|w|..][i - |w|] == r[i];
    }
  }

  lemma {:induction false} ShiftsFeed(r: seq<bool>, w: seq<bool>)
    requires |r| == 32 && |w| <= 32
    ensures ShiftN(AddFront(r, w), |w|) == FeedBits(r, w)
    decreases |w|
  {
    if w == [] {
      assert AddFront(r, w) == r;
    } else {
      hide FeedBit, AddFront;
      ShiftAdded(r, w);
      ShiftsFeed(FeedBit(r, w[0]), w[1..]);
    }
  }

  // ---------------------------------------------------------------- the register

  lemma PolynomialBits()
    ensures Bits(0x82F6_3B78, 32) == Coefficients(32)
  {
    PolynomialHalves();
    hide Low, Half, Coefficients;
    NoCoefficients();
    CoefficientStep(1);
    assert Bits(0x1, 1) == Coefficients(1);
    CoefficientStep(2);
    assert Bits(0x2, 2) == Coefficients(2);
    CoefficientStep(3);
    assert Bits(0x4, 3) == Coefficients(3);
    CoefficientStep(4);
    assert Bits(0x8, 4) == Coefficients(4);
    CoefficientStep(5);
    assert Bits(0x10, 5) == Coefficients(5);
    CoefficientStep(6);
    assert Bits(0x20, 6) == Coefficients(6);
    CoefficientStep(7);
    assert Bits(0x41, 7) == Coefficients(7);
    CoefficientStep(8);
    assert Bits(0x82, 8) == Coefficients(8);
    CoefficientStep(9);
    assert Bits(0x105, 9) == Coefficients(9);
    CoefficientStep(10);
    assert Bits(0x20B, 10) == Coefficients(10);
    CoefficientStep(11);
    assert Bits(0x417, 11) == Coefficients(11);
    CoefficientStep(12);
    assert Bits(0x82F, 12) == Coefficients(12);
    CoefficientStep(13);
    assert Bits(0x105E, 13) == Coefficients(13);
    CoefficientStep(14);
    assert Bits(0x20BD, 14) == Coefficients(14);
    CoefficientStep(15);
    assert Bits(0x417B, 15) == Coefficients(15);
    CoefficientStep(16);
    assert Bits(0x82F6, 16) == Coefficients(16);
    CoefficientStep(17);
    assert Bits(0x105EC, 17) == Coefficients(17);
    CoefficientStep(18);
    assert Bits(0x20BD8, 18) == Coefficients(18);
    CoefficientStep(19);
    assert Bits(0x417B1, 19) == Coefficients(19);
    CoefficientStep(20);
    assert Bits(0x82F63, 20) == Coefficients(20);
    CoefficientStep(21);
    assert Bits(0x105EC7, 21) == Coefficients(21);
    CoefficientStep(22);
    assert Bits(0x20BD8E, 22) == Coefficients(22);
    CoefficientStep(23);
    assert Bits(0x417B1D, 23) == Coefficients(23);
    CoefficientStep(24);
    assert Bits(0x82F63B, 24) == Coefficients(24);
    CoefficientStep(25);
    assert Bits(0x105EC76, 25) == Coefficients(25);
    CoefficientStep(26);
    assert Bits(0x20BD8ED, 26) == Coefficients(26);
    CoefficientStep(27);
    assert Bits(0x417B1DB, 27) == Coefficients(27);
    CoefficientStep(28);
    assert Bits(0x82F63B7, 28) == Coefficients(28);
    CoefficientStep(29);
    assert Bits(0x105EC76F, 29) == Coefficients(29);
    CoefficientStep(30);
    assert Bits(0x20BD8EDE, 30) == Coefficients(30);
    CoefficientStep(31);
    assert Bits(0x417B1DBC, 31) == Coefficients(31);
    CoefficientStep(32);
    assert Bits(0x82F63B78, 32) == Coefficients(32);
  }

  lemma PolynomialHalves()
    ensures Half(0x82F63B78) == 0x417B1DBC && !Low(0x82F63B78)
    ensures Half(0x417B1DBC) == 0x20BD8EDE && !Low(0x417B1DBC)
    ensures Half(0x20BD8EDE) == 0x105EC76F && !Low(0x20BD8EDE)
    ensures Half(0x105EC76F) == 0x82F63B7 && Low(0x105EC76F)
    ensures Half(0x82F63B7) == 0x417B1DB && Low(0x82F63B7)
    ensures Half(0x417B1DB) == 0x20BD8ED && Low(0x417B1DB)
    ensures Half(0x20BD8ED) == 0x105EC76 && Low(0x20BD8ED)
    ensures Half(0x105EC76) == 0x82F63B && !Low(0x105EC76)
    ensures Half(0x82F63B) == 0x417B1D && Low(0x82F63B)
    ensures Half(0x417B1D) == 0x20BD8E && Low(0x417B1D)
    ensures Half(0x20BD8E) == 0x105EC7 && !Low(0x20BD8E)
    ensures Half(0x105EC7) == 0x82F63 && Low(0x105EC7)
    ensures Half(0x82F63) == 0x417B1 && Low(0x82F63)
    ensures Half(0x417B1) == 0x20BD8 && Low(0x417B1)
    ensures Half(0x20BD8) == 0x105EC && !Low(0x20BD8)
    ensures Half(0x105EC) == 0x82F6 && !Low(0x105EC)
    ensures Half(0x82F6) == 0x417B && !Low(0x82F6)
    ensures Half(0x417B) == 0x20BD && Low(0x417B)
    ensures Half(0x20BD) == 0x105E && Low(0x20BD)
    ensures Half(0x105E) == 0x82F && !Low(0x105E)
    ensures Half(0x82F) == 0x417 && Low(0x82F)
    ensures Half(0x417) == 0x20B && Low(0x417)
    ensures Half(0x20B) == 0x105 && Low(0x20B)
    ensures Half(0x105) == 0x82 && Low(0x105)
    ensures Half(0x82) == 0x41 && !Low(0x82)
    ensures Half(0x41) == 0x20 && Low(0x41)
    ensures Half(0x20) == 0x10 && !Low(0x20)
    ensures Half(0x10) == 0x8 && !Low(0x10)
    ensures Half(0x8) == 0x4 && !Low(0x8)
    ensures Half(0x4) == 0x2 && !Low(0x4)
    ensures Half(0x2) == 0x1 && !Low(0x2)
    ensures Half(0x1) == 0x0 && Low(0x1)
  {
  }

  lemma NoCoefficients()
    ensures Coefficients(0) == []
  {
  }

  lemma CoefficientStep(n: nat)
    requires n > 0
    ensures Coefficients(n) == [Exponent(n - 1)] + Coefficients(n - 1)
  {
    hide Exponent;
  }

  lemma ShiftBitBits(a: bv32)
    ensures Bits(ShiftBit(a), 32) == FeedBit(Bits(a, 32), false)
  {
    hide Bits, Half, Mask, Xor, Low, Coefficients;
    BitsXor(Half(a), Mask(a), 32);
    BitsOfHalf(a);
    MaskByLow(a);
    PolynomialBits();
    BitsOfZero(32);
    var shifted := Bits(a, 32)[1..] + [false];
    if !Low(a) {
      assert XorBits(shifted, Zeros(32)) == shifted;
    }
  }

  lemma {:induction false} ShiftsBits(a: bv32, n: nat)
    ensures Bits(Shifts(a, n), 32) == ShiftN(Bits(a, 32), n)
    decreases n
  {
    hide ShiftBit, FeedBit, Bits;
    if n > 0 {
      ShiftsAdd(a, 1, n - 1);
      assert Shifts(a, 1) == ShiftBit(a) by { OneShift(a); }
      ShiftBitBits(a);
      ShiftsBits(ShiftBit(a), n - 1);
    }
  }

  lemma OneShift(a: bv32)
    ensures Shifts(a, 1) == ShiftBit(a)
  {
    hide ShiftBit;
    assert Shifts(a, 0) == a;
  }

  lemma FeedIsBits(c: bv32, b: bv8)
    ensures Bits(Feed(c, b), 32) == FeedBits(Bits(c, 32), ByteBits(b, 8))
  {
    hide Xor, Widen, Shifts, Bits, ByteBits, FeedBits, ShiftN;
    var r, w := Bits(c, 32), ByteBits(b, 8);
    BitsXor(c, Widen(b), 32);
    BitsOfWiden(b);
    var padded := w + Zeros(24);
    forall i: nat | i < 32 ensures XorBits(r, padded)[i] == AddFront(r, w)[i] {
      AddedAt(r, w, i);
    }
    assert XorBits(r, padded) == AddFront(r, w);
    ShiftsBits(Xor(c, Widen(b)), 8);
    ShiftsFeed(r, w);
  }

  lemma {:induction false} RegisterIsBits(c: bv32, data: seq<bv8>)
    ensures Bits(Register(c, data), 32) == FeedBits(Bits(c, 32), MessageBits(data))
    decreases |data|
  {
    hide Feed, Bits, ByteBits, FeedBit;
    if data != [] {
      FeedIsBits(c, data[0]);
      RegisterIsBits(Feed(c, data[0]), data[1..]);
      hide FeedBits;
      FeedBitsAppend(Bits(c, 32), ByteBits(data[0], 8), MessageBits(data[1..]));
    }
  }

  /** The checksum is the one that the standard defines, for every message, the empty one included. */
  lemma CrcIsRfcCrc(data: seq<bv8>)
    ensures Bits(Crc(data), 32) == RfcCrc(data)
  {
    hide Register, Xor, Bits, FeedBits, Remainder, MessageBits;
    var m := MessageBits(data);
    var ones := Complement(Zeros(32));
    BitsOfOnes();
    BitsXor(Register(ALL_ONES, data), ALL_ONES, 32);
    RegisterIsBits(ALL_ONES, data);
    DivisionFeeds(ones, m);
    var extended := m + Zeros(32);
    var flipped := Complement(extended[..32]) + extended[32..];
    assert Dividend(ones, m) == flipped;
    var rest := FeedBits(ones, m);
    assert XorBits(rest, ones) == Complement(rest);
  }
}
