/** Facts about 64-bit words behind the FNV-1a fold. */
module FnvBits {

  function XorWord(a: bv64, b: bv64): bv64 { a ^ b }
  function Times(a: bv64): bv64 { a * 0x100_0000_01B3 }

  /** Multiplication by the inverse of the odd FNV prime modulo 2^64. */
  function Untimes(a: bv64): bv64 { a * 0xCE96_5057_AFF6_957B }

  lemma UntimesInverts(a: bv64)
    ensures Untimes(Times(a)) == a
  {
    calc {
      Untimes(Times(a));
      Untimes(a * 0x100_0000_01B3);
      (a * 0x100_0000_01B3) * 0xCE96_5057_AFF6_957B;
      a;
    }
  }

  lemma TimesInverts(a: bv64)
    ensures Times(Untimes(a)) == a
  {
    calc {
      Times(Untimes(a));
      Times(a * 0xCE96_5057_AFF6_957B);
      (a * 0xCE96_5057_AFF6_957B) * 0x100_0000_01B3;
      a;
    }
  }

  lemma XorWordUndo(a: bv64, b: bv64)
    ensures XorWord(XorWord(a, b), b) == a
  {
    calc {
      XorWord(XorWord(a, b), b);
      XorWord(a ^ b, b);
      (a ^ b) ^ b;
      a;
    }
  }

  lemma XorWordCommutes(a: bv64, b: bv64)
    ensures XorWord(a, b) == XorWord(b, a)
  {
  }
}

/**
 The replay checksum: FNV-1a 64 over the little-endian bytes of each value.  Every
 step is invertible, so a single changed byte is always visible in the result.
 */
module ReplayChecksum {
  import opened FnvBits

  const SEED: bv64 := 14_695_981_039_346_656_037

  /** Byte `k` of the little-endian representation. */
  function ByteOf(value: bv64, k: nat): bv64
    requires k < 8
  {
    if k == 0 then value & 0xFF
    else if k == 1 then (value >> 8) & 0xFF
    else if k == 2 then (value >> 16) & 0xFF
    else if k == 3 then (value >> 24) & 0xFF
    else if k == 4 then (value >> 32) & 0xFF
    else if k == 5 then (value >> 40) & 0xFF
    else if k == 6 then (value >> 48) & 0xFF
    else (value >> 56) & 0xFF
  }

  function Mix(state: bv64, b: bv64): bv64 {
    Times(XorWord(state, b))
  }

  /** The state after the first `n` bytes of a value. */
  function AppendBytes(state: bv64, value: bv64, n: nat): bv64
    requires n <= 8
  {
    if n == 0 then state else Mix(AppendBytes(state, value, n - 1), ByteOf(value, n - 1))
  }

  function Append(state: bv64, value: bv64): bv64 {
    AppendBytes(state, value, 8)
  }

  function Fold(state: bv64, values: seq<bv64>): bv64
    decreases |values|
  {
    if values == [] then state else Fold(Append(state, values[0]), values[1..])
  }

  /** `replay_checksum_append`. */
  method ChecksumAppend(start: bv64, value: bv64) returns (state: bv64)
    ensures state == Append(start, value)
  {
    hide ByteOf, Times, XorWord;
    state := start;
    for shift := 0 to 8
      invariant state == AppendBytes(start, value, shift)
    {
      state := XorWord(state, ByteOf(value, shift));
      state := Times(state);
    }
  }

  // -------------------------------------------------------------- invertibility

  lemma MixInjective(s: bv64, t: bv64, b: bv64)
    requires Mix(s, b) == Mix(t, b)
    ensures s == t
  {
    hide Times, Untimes, XorWord;
    UntimesInverts(XorWord(s, b));
    UntimesInverts(XorWord(t, b));
    XorWordUndo(s, b);
    XorWordUndo(t, b);
  }

  lemma MixSeesByte(s: bv64, b: bv64, c: bv64)
    requires Mix(s, b) == Mix(s, c)
    ensures b == c
  {
    hide Times, Untimes, XorWord;
    UntimesInverts(XorWord(s, b));
    UntimesInverts(XorWord(s, c));
    XorWordCommutes(s, b);
    XorWordCommutes(s, c);
    XorWordUndo(b, s);
    XorWordUndo(c, s);
  }

  lemma {:induction false} AppendBytesInjective(s: bv64, t: bv64, value: bv64, n: nat)
    requires n <= 8 && AppendBytes(s, value, n) == AppendBytes(t, value, n)
    ensures s == t
  {
    hide Mix, ByteOf;
    if n > 0 {
      MixInjective(AppendBytes(s, value, n - 1), AppendBytes(t, value, n - 1), ByteOf(value, n - 1));
      AppendBytesInjective(s, t, value, n - 1);
    }
  }

  /** For every fixed sequence of values, different starting states stay different. */
  lemma {:induction false} FoldInjective(s: bv64, t: bv64, values: seq<bv64>)
    requires Fold(s, values) == Fold(t, values)
    ensures s == t
    decreases |values|
  {
    hide AppendBytes;
    if values != [] {
      FoldInjective(Append(s, values[0]), Append(t, values[0]), values[1..]);
      AppendBytesInjective(s, t, values[0], 8);
    }
  }

  /** Every end state is reached: together with injectivity, a bijection of the state. */
  lemma {:induction false} AppendBytesOnto(r: bv64, value: bv64, n: nat) returns (s: bv64)
    requires n <= 8
    ensures AppendBytes(s, value, n) == r
    decreases n
  {
    hide ByteOf, Times, Untimes, XorWord;
    if n == 0 {
      s := r;
    } else {
      var b := ByteOf(value, n - 1);
      var mid := XorWord(Untimes(r), b);
      XorWordUndo(Untimes(r), b);
      TimesInverts(r);
      s := AppendBytesOnto(mid, value, n - 1);
    }
  }

  lemma {:induction false} FoldOnto(r: bv64, values: seq<bv64>) returns (s: bv64)
    ensures Fold(s, values) == r
    decreases |values|
  {
    hide AppendBytes;
    if values == [] {
      s := r;
    } else {
      var mid := FoldOnto(r, values[1..]);
      s := AppendBytesOnto(mid, values[0], 8);
    }
  }

  // ----------------------------------------------------------- one changed byte

  /** The two values differ in exactly the byte `j`. */
  predicate DifferInByte(v: bv64, w: bv64, j: nat) {
    j < 8 && ByteOf(v, j) != ByteOf(w, j) && forall k :: 0 <= k < 8 && k != j ==> ByteOf(v, k) == ByteOf(w, k)
  }

  lemma {:induction false} AppendSeesByte(s: bv64, v: bv64, w: bv64, j: nat, n: nat)
    requires DifferInByte(v, w, j) && n <= 8
    ensures n <= j ==> AppendBytes(s, v, n) == AppendBytes(s, w, n)
    ensures n > j ==> AppendBytes(s, v, n) != AppendBytes(s, w, n)
    decreases n
  {
    hide Mix, ByteOf;
    if n > 0 {
      AppendSeesByte(s, v, w, j, n - 1);
      var a, b := AppendBytes(s, v, n - 1), AppendBytes(s, w, n - 1);
      if n - 1 == j && Mix(a, ByteOf(v, j)) == Mix(b, ByteOf(w, j)) {
        MixSeesByte(a, ByteOf(v, j), ByteOf(w, j));
      } else if n - 1 > j && Mix(a, ByteOf(v, n - 1)) == Mix(b, ByteOf(v, n - 1)) {
        MixInjective(a, b, ByteOf(v, n - 1));
      }
    }
  }

  lemma {:induction false} FoldSplit(s: bv64, a: seq<bv64>, b: seq<bv64>)
    ensures Fold(s, a + b) == Fold(Fold(s, a), b)
    decreases |a|
  {
    hide Append;
    if a == [] {
      assert a + b == b;
    } else {
      assert (a + b)[1..] == a[1..] + b;
      FoldSplit(Append(s, a[0]), a[1..], b);
    }
  }

  /** Two sequences that differ in one byte of one value never have the same checksum. */
  lemma OneByteChangeDetected(s: bv64, vs: seq<bv64>, i: nat, w: bv64, j: nat)
    requires i < |vs| && DifferInByte(vs[i], w, j)
    ensures Fold(s, vs) != Fold(s, vs[i := w])
  {
    hide Append, Fold, DifferInByte;
    var pre, post := vs[..i], vs[i + 1..];
    assert vs == pre + ([vs[i]] + post) && vs[i := w] == pre + ([w] + post);
    FoldSplit(s, pre, [vs[i]] + post);
    FoldSplit(s, pre, [w] + post);
    var mid := Fold(s, pre);
    FoldFirst(mid, vs[i], post);
    FoldFirst(mid, w, post);
    AppendDiffers(mid, vs[i], w, j);
    if Fold(Append(mid, vs[i]), post) == Fold(Append(mid, w), post) {
      FoldInjective(Append(mid, vs[i]), Append(mid, w), post);
    }
  }

  lemma FoldFirst(s: bv64, v: bv64, post: seq<bv64>)
    ensures Fold(s, [v] + post) == Fold(Append(s, v), post)
  {
    hide Append;
    assert ([v] + post)[1..] == post;
  }

  lemma AppendDiffers(s: bv64, v: bv64, w: bv64, j: nat)
    requires DifferInByte(v, w, j)
    ensures Append(s, v) != Append(s, w)
  {
    hide AppendBytes, ByteOf;
    AppendSeesByte(s, v, w, j, 8);
  }
}
