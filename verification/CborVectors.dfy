/** Encodings from Appendix A of RFC 8949. */
module CborVectors {
  import opened Basics
  import opened Bytes
  import opened Sorting
  import opened Cbor

  lemma SmallArguments(a: nat, b: nat, c: nat, d: nat)
    requires a < 256 && b < 256 && c < 256 && d < 256
    ensures ToBE(a, 1) == [a]
    ensures ToBE(a * 256 + b, 2) == [a, b]
    ensures ToBE(((a * 256 + b) * 256 + c) * 256 + d, 4) == [a, b, c, d]
  {
    assert forall v: nat :: ToBE(v, 0) == [];
    assert ToBE(a, 1) == [] + [a];
    assert ToBE(a * 256 + b, 2) == ToBE(a, 1) + [b];
    assert ToBE((a * 256 + b) * 256 + c, 3) == ToBE(a * 256 + b, 2) + [c];
    assert ToBE(((a * 256 + b) * 256 + c) * 256 + d, 4) == ToBE((a * 256 + b) * 256 + c, 3) + [d];
  }

  lemma IntegerVectors()
    ensures Encode(Int(0)) == Some([0x00]) && Encode(Int(23)) == Some([0x17])
    ensures Encode(Int(24)) == Some([0x18, 0x18]) && Encode(Int(100)) == Some([0x18, 0x64])
    ensures Encode(Int(1000)) == Some([0x19, 0x03, 0xE8])
    ensures Encode(Int(1000000)) == Some([0x1A, 0x00, 0x0F, 0x42, 0x40])
    ensures Encode(Int(-1)) == Some([0x20]) && Encode(Int(-100)) == Some([0x38, 0x63])
    ensures Encode(Int(-1000)) == Some([0x39, 0x03, 0xE7])
  {
    hide ToBE;
    SmallArguments(0x18, 0, 0, 0);
    SmallArguments(0x64, 0, 0, 0);
    SmallArguments(0x03, 0xE8, 0, 0);
    SmallArguments(0x00, 0x0F, 0x42, 0x40);
    SmallArguments(0x63, 0, 0, 0);
    SmallArguments(0x03, 0xE7, 0, 0);
    assert Head(0, 24) == [0x18, 0x18] && Head(0, 100) == [0x18, 0x64] && Head(0, 1000) == [0x19, 0x03, 0xE8];
    assert Head(0, 1000000) == [0x1A, 0x00, 0x0F, 0x42, 0x40];
    assert Head(1, 99) == [0x38, 0x63] && Head(1, 999) == [0x39, 0x03, 0xE7];
  }

  lemma SimpleVectors()
    ensures Encode(Bool(false)) == Some([0xF4]) && Encode(Bool(true)) == Some([0xF5]) && Encode(Null) == Some([0xF6])
    ensures Encode(Blob([0x01, 0x02, 0x03, 0x04])) == Some([0x44, 0x01, 0x02, 0x03, 0x04])
    ensures Encode(Text([0x49, 0x45, 0x54, 0x46])) == Some([0x64, 0x49, 0x45, 0x54, 0x46])
    ensures Encode(Array([])) == Some([0x80]) && Encode(Map([])) == Some([0xA0])
  {
    assert [0x44] + [0x01, 0x02, 0x03, 0x04] == [0x44, 0x01, 0x02, 0x03, 0x04];
    assert [0x64] + [0x49, 0x45, 0x54, 0x46] == [0x64, 0x49, 0x45, 0x54, 0x46];
    assert EncodeAll([]) == Some([]) && EncodeEntries([]) == Some([]);
    assert SortBy([], ItemKey, LengthFirst) == [] && Join([]) == [];
    assert [0x80] + [] == [0x80] && [0xA0] + [] == [0xA0];
  }

  lemma OneElement(v: Value, s: seq<byte>, rest: seq<Value>, t: seq<byte>)
    requires Encode(v) == Some(s) && EncodeAll(rest) == Some(t)
    ensures EncodeAll([v] + rest) == Some(s + t)
  {
    assert ([v] + rest)[1..] == rest;
  }

  lemma ThreeItems()
    ensures Head(4, 3) == [0x83]
  {
    var h := Head(4, 3);
    assert |h| == 1 && h[0] == 4 * 32 + 3;
  }

  /** The array [1, 2, 3]. */
  lemma ArrayVector()
    ensures Encode(Array([Int(1), Int(2), Int(3)])) == Some([0x83, 0x01, 0x02, 0x03])
  {
    assert [Int(3)] + [] == [Int(3)] && [Int(2)] + [Int(3)] == [Int(2), Int(3)];
    assert [Int(1)] + [Int(2), Int(3)] == [Int(1), Int(2), Int(3)];
    OneElement(Int(3), [0x03], [], []);
    assert [0x03] + [] == [0x03];
    OneElement(Int(2), [0x02], [Int(3)], [0x03]);
    assert [0x02] + [0x03] == [0x02, 0x03];
    OneElement(Int(1), [0x01], [Int(2), Int(3)], [0x02, 0x03]);
    assert [0x01] + [0x02, 0x03] == [0x01, 0x02, 0x03];
    assert EncodeAll([Int(1), Int(2), Int(3)]) == Some([0x01, 0x02, 0x03]);
    ThreeItems();
    hide Head;
    assert [0x83] + [0x01, 0x02, 0x03] == [0x83, 0x01, 0x02, 0x03];
  }
}
