/** Bytes, big-endian integers, and masking on natural numbers. */
module Bytes {

  type byte = x: nat | x < 256

  function Pow256(n: nat): (r: nat)
    ensures r > 0
  {
    if n == 0 then 1 else 256 * Pow256(n - 1)
  }

  function FromBE(s: seq<byte>): nat {
    if s == [] then 0 else 256 * FromBE(s[..|s| - 1]) + s[|s| - 1]
  }

  function ToBE(v: nat, n: nat): (s: seq<byte>)
    ensures |s| == n
  {
    if n == 0 then [] else ToBE(v / 256, n - 1) + [v % 256]
  }

  lemma {:induction false} FromBEBound(s: seq<byte>)
    ensures FromBE(s) < Pow256(|s|)
  {
    if s != [] {
      FromBEBound(s[..|s| - 1]);
    }
  }

  lemma {:induction false} FromToBE(v: nat, n: nat)
    requires v < Pow256(n)
    ensures FromBE(ToBE(v, n)) == v
  {
    if n > 0 {
      FromToBE(v / 256, n - 1);
      assert ToBE(v, n)[..n - 1] == ToBE(v / 256, n - 1);
    }
  }

  lemma {:induction false} ToFromBE(s: seq<byte>)
    ensures ToBE(FromBE(s), |s|) == s
  {
    if s != [] {
      ToFromBE(s[..|s| - 1]);
      assert s == s[..|s| - 1] + [s[|s| - 1]];
    }
  }

  lemma PowersOf256()
    ensures Pow256(1) == 0x100 && Pow256(2) == 0x1_0000 && Pow256(4) == 0x1_0000_0000
    ensures Pow256(8) == 0x1_0000_0000_0000_0000
  {
    assert Pow256(0) == 1;
    assert Pow256(1) == 0x100;
    assert Pow256(2) == 0x1_0000;
    assert Pow256(3) == 0x100_0000;
    assert Pow256(4) == 0x1_0000_0000;
    assert Pow256(5) == 0x100_0000_0000;
    assert Pow256(6) == 0x1_0000_0000_0000;
    assert Pow256(7) == 0x100_0000_0000_0000;
  }

  // ------------------------------------------------------------------- masking

  function Pow2(n: nat): (r: nat)
    ensures r > 0
  {
    if n == 0 then 1 else 2 * Pow2(n - 1)
  }

  /** Bitwise conjunction of the binary representations. */
  function BitAnd(x: nat, y: nat): nat {
    if x == 0 || y == 0 then 0 else (if x % 2 == 1 && y % 2 == 1 then 1 else 0) + 2 * BitAnd(x / 2, y / 2)
  }

  lemma {:induction false} PowMonotone(k: nat, w: nat)
    requires k <= w
    ensures Pow2(k) <= Pow2(w)
    decreases w
  {
    if k < w {
      PowMonotone(k, w - 1);
    }
  }

  lemma MulAtLeast(n: nat, d: nat)
    requires n > 0
    ensures n * d >= d
  {
    var m := n - 1;
    assert n * d == m * d + d;
  }

  lemma UniqueQuotient(q: nat, r: nat, q': nat, r': nat, d: nat)
    requires r < d && r' < d
    requires q * d + r == q' * d + r'
    requires q <= q'
    ensures r == r'
  {
    var n := q' - q;
    assert q' * d == q * d + n * d;
    if n > 0 {
      MulAtLeast(n, d);
    }
  }

  lemma DivMod(x: nat, d: nat)
    requires d > 0
    ensures x == (x / d) * d + x % d
  {
  }

  lemma RemainderIs(x: nat, d: nat, q: nat, r: nat)
    requires r < d && x == q * d + r
    ensures x % d == r
  {
    DivMod(x, d);
    if q <= x / d {
      UniqueQuotient(q, r, x / d, x % d, d);
    } else {
      UniqueQuotient(x / d, x % d, q, r, d);
    }
  }

  lemma HalveRemainder(x: nat, half: nat)
    requires half > 0
    ensures x % (2 * half) == 2 * ((x / 2) % half) + x % 2
  {
    var y := x / 2;
    var q, r := y / half, y % half;
    DivMod(y, half);
    var d := 2 * half;
    assert q * d == 2 * (q * half);
    RemainderIs(x, d, q, 2 * r + x % 2);
  }

  lemma BitAndStep(x: nat, y: nat)
    ensures BitAnd(x, y) == (if x % 2 == 1 && y % 2 == 1 then 1 else 0) + 2 * BitAnd(x / 2, y / 2)
  {
  }

  lemma MaskEvenStep(x: nat, mask: nat, half: nat)
    requires half > 0 && BitAnd(x / 2, mask) == x / 2 - (x / 2) % half
    ensures BitAnd(x, 2 * mask) == x - x % (2 * half)
  {
    hide BitAnd;
    BitAndStep(x, 2 * mask);
    HalveRemainder(x, half);
  }

  lemma MaskOddStep(x: nat, mask: nat)
    requires BitAnd(x / 2, mask) == x / 2
    ensures BitAnd(x, 2 * mask + 1) == x
  {
    hide BitAnd;
    BitAndStep(x, 2 * mask + 1);
  }

  /** Clearing the low `k` bits of a `w`-bit number rounds it down to a multiple of 2^k. */
  lemma {:induction false} MaskRoundsDown(x: nat, k: nat, w: nat)
    requires k <= w && x < Pow2(w)
    ensures Pow2(k) <= Pow2(w)
    ensures BitAnd(x, Pow2(w) - Pow2(k)) == x - x % Pow2(k)
    decreases w
  {
    PowMonotone(k, w);
    if k > 0 {
      hide BitAnd;
      var half, mask := Pow2(k - 1), Pow2(w - 1) - Pow2(k - 1);
      MaskRoundsDown(x / 2, k - 1, w - 1);
      MaskEvenStep(x, mask, half);
      assert Pow2(w) - Pow2(k) == 2 * mask && Pow2(k) == 2 * half;
    } else if w > 0 {
      hide BitAnd;
      var mask := Pow2(w - 1) - 1;
      MaskRoundsDown(x / 2, 0, w - 1);
      assert Pow2(0) == 1;
      MaskOddStep(x, mask);
      assert Pow2(w) - Pow2(0) == 2 * mask + 1;
    }
  }

  lemma RoundedDown(x: nat, a: nat)
    requires a > 0
    ensures (x - x % a) % a == 0 && x - a < x - x % a <= x
  {
    DivMod(x, a);
    RemainderIs(x - x % a, a, x / a, 0);
  }
}
