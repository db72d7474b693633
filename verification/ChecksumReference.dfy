/**
 FNV-1a 64 by its published definition: a fold over octets that xors each into the state and
 multiplies by the prime 2^40 + 2^8 + 0xb3 modulo 2^64, starting from 0xcbf29ce484222325.
 */
module ChecksumReference {
  import opened FnvBits
  import opened ReplayChecksum

  /** Multiplication by the FNV prime 2^40 + 2^8 + 0xb3; words wrap at 2^64. */
  function TimesPrime(a: bv64): bv64 {
    a * 0x100_0000_0000 + a * 0x100 + a * 0xB3
  }

  function Octet(b: bv8): bv64 { b as bv64 }

  function Fnv1a(state: bv64, octets: seq<bv8>): bv64
    decreases |octets|
  {
    if octets == [] then state else Fnv1a(TimesPrime(XorWord(state, Octet(octets[0]))), octets[1..])
  }

  function LowOctet(value: bv64): bv8 { (value & 0xFF) as bv8 }
  function DropOctet(value: bv64): bv64 { value >> 8 }

  /** The first `n` octets of a value, the least significant first. */
  function LittleEndian(value: bv64, n: nat): (s: seq<bv8>)
    ensures |s| == n
  {
    if n == 0 then [] else [LowOctet(value)] + LittleEndian(DropOctet(value), n - 1)
  }

  function Octets(values: seq<bv64>): seq<bv8> {
    if values == [] then [] else LittleEndian(values[0], 8) + Octets(values[1..])
  }

  // ------------------------------------------------------------------ word facts

  lemma TimesIsPrime(a: bv64)
    ensures Times(a) == TimesPrime(a)
  {
    calc {
      Times(a);
      a * 0x100_0000_01B3;
      a * 0x100_0000_0000 + a * 0x100 + a * 0xB3;
      TimesPrime(a);
    }
  }

  lemma LowOctetIsByte(value: bv64)
    ensures Octet(LowOctet(value)) == ByteOf(value, 0)
  {
    calc {
      ByteOf(value, 0);
      value & 0xFF;
      ((value & 0xFF) as bv8) as bv64;
      Octet(LowOctet(value));
    }
  }

  lemma BytesSpelled(value: bv64)
    ensures ByteOf(value, 0) == value & 0xFF && ByteOf(value, 1) == (value >> 8) & 0xFF
    ensures ByteOf(value, 2) == (value >> 16) & 0xFF && ByteOf(value, 3) == (value >> 24) & 0xFF
    ensures ByteOf(value, 4) == (value >> 32) & 0xFF && ByteOf(value, 5) == (value >> 40) & 0xFF
    ensures ByteOf(value, 6) == (value >> 48) & 0xFF && ByteOf(value, 7) == (value >> 56) & 0xFF
  {
  }

  lemma ShiftsAgree(value: bv64)
    ensures ((value >> 8) >> 8) & 0xFF == (value >> 16) & 0xFF
    ensures ((value >> 8) >> 16) & 0xFF == (value >> 24) & 0xFF && ((value >> 8) >> 24) & 0xFF == (value >> 32) & 0xFF
    ensures ((value >> 8) >> 32) & 0xFF == (value >> 40) & 0xFF && ((value >> 8) >> 40) & 0xFF == (value >> 48) & 0xFF
    ensures ((value >> 8) >> 48) & 0xFF == (value >> 56) & 0xFF
  {
  }

  lemma DropIsShift(value: bv64)
    ensures DropOctet(value) == value >> 8
  {
  }

  /** Dropping the least significant byte renumbers the others. */
  lemma NextByte(value: bv64, k: nat)
    requires k < 7
    ensures ByteOf(value, k + 1) == ByteOf(DropOctet(value), k)
  {
    hide ByteOf, DropOctet;
    DropIsShift(value);
    BytesSpelled(value);
    BytesSpelled(value >> 8);
    ShiftsAgree(value);
    assert k == 0 || k == 1 || k == 2 || k == 3 || k == 4 || k == 5 || k == 6;
  }

  lemma {:induction false} OctetIsByte(value: bv64, n: nat, k: nat)
    requires k < n <= 8
    ensures Octet(LittleEndian(value, n)[k]) == ByteOf(value, k)
    decreases k
  {
    hide Octet, LowOctet, DropOctet, ByteOf;
    if k == 0 {
      LowOctetIsByte(value);
    } else {
      NextByte(value, k - 1);
      OctetIsByte(DropOctet(value), n - 1, k - 1);
    }
  }

  // ------------------------------------------------------------------- the folds

  lemma {:induction false} FnvSplit(state: bv64, a: seq<bv8>, b: seq<bv8>)
    ensures Fnv1a(state, a + b) == Fnv1a(Fnv1a(state, a), b)
    decreases |a|
  {
    hide TimesPrime, XorWord, Octet;
    if a == [] {
      assert a + b == b;
    } else {
      assert (a + b)[1..] == a[1..] + b;
      FnvSplit(TimesPrime(XorWord(state, Octet(a[0]))), a[1..], b);
    }
  }

  lemma FnvOne(state: bv64, b: bv8)
    ensures Fnv1a(state, [b]) == Mix(state, Octet(b))
  {
    hide Times, TimesPrime, XorWord, Octet;
    TimesIsPrime(XorWord(state, Octet(b)));
    assert [b][1..] == [];
    assert Fnv1a(TimesPrime(XorWord(state, Octet(b))), []) == TimesPrime(XorWord(state, Octet(b)));
  }

  lemma {:induction false} AppendIsFnv(state: bv64, value: bv64, n: nat)
    requires n <= 8
    ensures AppendBytes(state, value, n) == Fnv1a(state, LittleEndian(value, 8)[..n])
    decreases n
  {
    hide Mix, Octet, ByteOf, LittleEndian;
    var octets := LittleEndian(value, 8);
    if n > 0 {
      hide Fnv1a;
      AppendIsFnv(state, value, n - 1);
      OctetIsByte(value, 8, n - 1);
      assert octets[..n] == octets[..n - 1] + [octets[n - 1]];
      FnvSplit(state, octets[..n - 1], [octets[n - 1]]);
      FnvOne(Fnv1a(state, octets[..n - 1]), octets[n - 1]);
    }
  }

  /** The fold of any values is FNV-1a over their octets, each value's least significant octet first. */
  lemma {:induction false} FoldIsFnv(state: bv64, values: seq<bv64>)
    ensures Fold(state, values) == Fnv1a(state, Octets(values))
    decreases |values|
  {
    hide AppendBytes, LittleEndian;
    if values != [] {
      var octets := LittleEndian(values[0], 8);
      AppendIsFnv(state, values[0], 8);
      assert octets[..8] == octets;
      FoldIsFnv(Append(state, values[0]), values[1..]);
      hide Fnv1a;
      FnvSplit(state, octets, Octets(values[1..]));
    }
  }

  /** The checksum of any sequence of values is the FNV-1a 64 hash of its octets. */
  lemma ChecksumIsFnv(values: seq<bv64>)
    ensures Fold(SEED, values) == Fnv1a(0xCBF2_9CE4_8422_2325, Octets(values))
  {
    hide Fold, Fnv1a;
    assert SEED == 0xCBF2_9CE4_8422_2325;
    FoldIsFnv(SEED, values);
  }
}
