/**
 The deterministic encoder against the two other descriptions of CBOR: it writes
 the in-order serialization of the value with every dict sorted, the acceptance
 test is the canonical grammar, and equal encodings mean values that differ at most in
 dict insertion order.
 */
module CborEncoding {
  import opened Basics
  import opened Bytes
  import opened Sorting
  import opened Cbor
  import opened CborTheorems
  import opened CborCanonical

  // --------------------------------------------------------- sorting every dict

  function Canon(v: Value): Value {
    match v
    case Array(items) => Array(CanonAll(items))
    case Map(entries) => Map(SortBy(CanonEntries(entries), EntryKey, LengthFirst))
    case _ => v
  }

  function CanonAll(items: seq<Value>): (r: seq<Value>)
    ensures |r| == |items|
  {
    if items == [] then [] else [Canon(items[0])] + CanonAll(items[1..])
  }

  function CanonEntry(e: Entry): Entry {
    Entry(e.key, Canon(e.value))
  }

  function CanonEntries(entries: seq<Entry>): (r: seq<Entry>)
    ensures |r| == |entries|
    ensures forall i :: 0 <= i < |entries| ==> r[i] == CanonEntry(entries[i])
  {
    if entries == [] then [] else [CanonEntry(entries[0])] + CanonEntries(entries[1..])
  }

  // ------------------------------------------------------ entry lists as element sets

  lemma {:induction false} SupportedEntriesIff(es: seq<Entry>)
    ensures SupportedEntries(es) <==> forall i :: 0 <= i < |es| ==> SupportedEntry(es[i])
  {
    hide SupportedEntry;
    if es != [] {
      SupportedEntriesIff(es[1..]);
      assert forall i :: 0 <= i < |es[1..]| ==> es[1..][i] == es[i + 1];
      assert (forall i :: 0 <= i < |es| ==> SupportedEntry(es[i])) ==>
             forall i :: 0 <= i < |es[1..]| ==> SupportedEntry(es[1..][i]);
      assert forall i :: 0 < i < |es| ==> es[i] == es[1..][i - 1];
    }
  }

  lemma {:induction false} OrderedEntriesIff(es: seq<Entry>)
    ensures OrderedEntries(es) <==> forall i :: 0 <= i < |es| ==> OrderedEntry(es[i])
  {
    hide OrderedEntry;
    if es != [] {
      OrderedEntriesIff(es[1..]);
      assert forall i :: 0 <= i < |es[1..]| ==> es[1..][i] == es[i + 1];
      assert forall i :: 0 < i < |es| ==> es[i] == es[1..][i - 1];
    }
  }

  /** Distinct dict keys have distinct serializations. */
  lemma ValidKeysDistinct(es: seq<Entry>)
    requires ValidKeys(es) && SupportedEntries(es)
    ensures DistinctKeys(es, EntryKey)
  {
    hide Serialize, Supported;
    SupportedEntriesIff(es);
    forall i, j | 0 <= i < j < |es| ensures EntryKey(es[i]) != EntryKey(es[j]) {
      assert SupportedEntry(es[i]) && SupportedEntry(es[j]);
      assert !KeyEq(es[i].key, es[j].key);
      if EntryKey(es[i]) == EntryKey(es[j]) {
        SerializeInjective(es[i].key, es[j].key);
      }
    }
  }

  /** Sorting a dict keeps its entries and their well-formedness. */
  lemma SortedDict(es: seq<Entry>)
    requires ValidKeys(es) && SupportedEntries(es)
    ensures var s := SortBy(es, EntryKey, LengthFirst);
            |s| == |es| && Ascending(s, EntryKey, LengthFirst) && ValidKeys(s) && SupportedEntries(s)
  {
    hide Serialize, Supported, KeyEq, Hashable;
    var s := SortBy(es, EntryKey, LengthFirst);
    SortPermutes(es, EntryKey, LengthFirst);
    LengthFirstIsStrictTotal();
    ValidKeysDistinct(es);
    SortAscends(es, EntryKey, LengthFirst);
    SupportedEntriesIff(es);
    SupportedEntriesIff(s);
    forall i | 0 <= i < |s| ensures s[i] in es && SupportedEntry(s[i]) && Hashable(s[i].key) {
      assert s[i] in s;
    }
    forall i, j | 0 <= i < j < |s| ensures !KeyEq(s[i].key, s[j].key) {
      var a :| 0 <= a < |es| && es[a] == s[i];
      var b :| 0 <= b < |es| && es[b] == s[j];
      assert LengthFirst(EntryKey(s[i]), EntryKey(s[j]));
      assert a != b;
      KeyEqSymmetric(s[i].key, s[j].key);
    }
  }

  lemma KeyEqSymmetric(a: Value, b: Value)
    ensures KeyEq(a, b) == KeyEq(b, a)
  {
  }

  // ------------------------------------------------------- canonical form is sound

  lemma {:induction false} CanonSupported(v: Value)
    requires Supported(v)
    ensures Supported(Canon(v)) && Ordered(Canon(v))
    decreases v
  {
    match v
    case Array(items) => CanonAllSupported(items);
    case Map(entries) =>
      hide Supported, Serialize;
      CanonEntriesSupported(entries);
      CanonKeepsKeys(entries);
      SortedDict(CanonEntries(entries));
      CanonMapOrdered(CanonEntries(entries));
      assert |SortBy(CanonEntries(entries), EntryKey, LengthFirst)| == |entries|;
      SupportedMap(SortBy(CanonEntries(entries), EntryKey, LengthFirst), v);
    case _ =>
  }

  lemma SupportedMap(es: seq<Entry>, v: Value)
    requires v.Map? && Supported(v) && |es| == |v.entries| && ValidKeys(es) && SupportedEntries(es)
    ensures Supported(Map(es))
  {
  }

  lemma CanonKeepsKeys(es: seq<Entry>)
    requires ValidKeys(es)
    ensures ValidKeys(CanonEntries(es))
  {
    hide KeyEq, Hashable, Canon;
  }

  lemma CanonMapOrdered(es: seq<Entry>)
    requires OrderedEntries(es)
    ensures OrderedEntries(SortBy(es, EntryKey, LengthFirst))
  {
    hide Serialize, OrderedEntry;
    var s := SortBy(es, EntryKey, LengthFirst);
    SortPermutes(es, EntryKey, LengthFirst);
    OrderedEntriesIff(es);
    OrderedEntriesIff(s);
    forall i | 0 <= i < |s| ensures OrderedEntry(s[i]) {
      assert s[i] in s;
      assert s[i] in es;
    }
  }

  lemma {:induction false} CanonAllSupported(items: seq<Value>)
    requires SupportedAll(items)
    ensures SupportedAll(CanonAll(items)) && OrderedAll(CanonAll(items))
    decreases items
  {
    if items != [] {
      CanonSupported(items[0]);
      CanonAllSupported(items[1..]);
    }
  }

  lemma {:induction false} CanonEntrySupported(e: Entry)
    requires SupportedEntry(e) && Hashable(e.key)
    ensures SupportedEntry(CanonEntry(e)) && OrderedEntry(CanonEntry(e))
    decreases e
  {
    CanonSupported(e.value);
  }

  lemma {:induction false} CanonEntriesSupported(entries: seq<Entry>)
    requires SupportedEntries(entries) && ValidKeys(entries)
    ensures SupportedEntries(CanonEntries(entries)) && OrderedEntries(CanonEntries(entries))
    decreases entries
  {
    if entries != [] {
      CanonEntrySupported(entries[0]);
      assert ValidKeys(entries[1..]);
      CanonEntriesSupported(entries[1..]);
    }
  }

  // --------------------------------------------------------- the encoder's output

  lemma {:induction false} InsertCommutes(e: Entry, es: seq<Entry>)
    ensures Insert(ItemOf(e), ItemsOf(es), ItemKey, LengthFirst) == ItemsOf(Insert(e, es, EntryKey, LengthFirst))
  {
    if es != [] && LengthFirst(EntryKey(es[0]), EntryKey(e)) {
      InsertCommutes(e, es[1..]);
      assert ItemsOf(es)[1..] == ItemsOf(es[1..]);
    }
  }

  /** Sorting encoded items is encoding sorted entries. */
  lemma {:induction false} SortCommutes(es: seq<Entry>)
    ensures SortBy(ItemsOf(es), ItemKey, LengthFirst) == ItemsOf(SortBy(es, EntryKey, LengthFirst))
  {
    hide ItemOf;
    if es != [] {
      SortCommutes(es[1..]);
      assert ItemsOf(es)[1..] == ItemsOf(es[1..]);
      InsertCommutes(es[0], SortBy(es[1..], EntryKey, LengthFirst));
    }
  }

  /** `canonical_cbor` writes the in-order serialization of the value with every dict sorted. */
  lemma {:induction false} EncodeIsSerializedCanon(v: Value)
    requires Supported(v)
    ensures Encode(v) == Some(Serialize(Canon(v)))
    decreases v
  {
    match v
    case Array(items) => EncodeAllIsSerialized(items);
    case Map(entries) =>
      EncodeEntriesAreItems(entries);
      SortCommutes(CanonEntries(entries));
      SortPermutes(CanonEntries(entries), EntryKey, LengthFirst);
    case _ =>
  }

  lemma {:induction false} EncodeAllIsSerialized(items: seq<Value>)
    requires SupportedAll(items)
    ensures EncodeAll(items) == Some(SerializeAll(CanonAll(items)))
    decreases items
  {
    if items != [] {
      EncodeIsSerializedCanon(items[0]);
      EncodeAllIsSerialized(items[1..]);
    }
  }

  lemma {:induction false} EncodeEntryIsItem(e: Entry)
    requires SupportedEntry(e) && Hashable(e.key)
    ensures EncodeEntry(e) == Some(ItemOf(CanonEntry(e)))
    decreases e
  {
    EncodeIsSerializedCanon(e.key);
    EncodeIsSerializedCanon(e.value);
  }

  lemma {:induction false} EncodeEntriesAreItems(entries: seq<Entry>)
    requires SupportedEntries(entries) && ValidKeys(entries)
    ensures EncodeEntries(entries) == Some(ItemsOf(CanonEntries(entries)))
    decreases entries
  {
    if entries != [] {
      EncodeEntryIsItem(entries[0]);
      assert ValidKeys(entries[1..]);
      EncodeEntriesAreItems(entries[1..]);
    }
  }

  /** Decoding an encoding, with anything after it, gives the value with every dict sorted. */
  lemma EncodeRoundTrip(v: Value, rest: seq<byte>)
    requires Supported(v)
    ensures Encode(v).Some?
    ensures Decode(Encode(v).value + rest) == Got(Canon(v), |Encode(v).value|)
  {
    EncodeIsSerializedCanon(v);
    CanonSupported(v);
    DecodeSerialized(Canon(v), rest);
  }

  // ------------------------------------------------------------- acceptance test

  lemma {:induction false} OrderedIsCanon(v: Value)
    requires Ordered(v)
    ensures Canon(v) == v
    decreases v
  {
    match v
    case Array(items) => OrderedAllIsCanon(items);
    case Map(entries) =>
      OrderedEntriesAreCanon(entries);
      AscendingIsSorted(entries);
      SortedIsFixed(entries, EntryKey, LengthFirst);
    case _ =>
  }

  lemma AscendingIsSorted(es: seq<Entry>)
    requires Ascending(es, EntryKey, LengthFirst)
    ensures Sorted(es, EntryKey, LengthFirst)
  {
    hide Serialize, EntryKey;
    LengthFirstIsStrictTotal();
  }

  lemma {:induction false} OrderedAllIsCanon(items: seq<Value>)
    requires OrderedAll(items)
    ensures CanonAll(items) == items
    decreases items
  {
    if items != [] {
      OrderedIsCanon(items[0]);
      OrderedAllIsCanon(items[1..]);
    }
  }

  lemma {:induction false} OrderedEntriesAreCanon(entries: seq<Entry>)
    requires OrderedEntries(entries)
    ensures CanonEntries(entries) == entries
    decreases entries
  {
    if entries != [] {
      OrderedEntryIsCanon(entries[0]);
      OrderedEntriesAreCanon(entries[1..]);
    }
  }

  lemma {:induction false} OrderedEntryIsCanon(e: Entry)
    requires OrderedEntry(e)
    ensures CanonEntry(e) == e
    decreases e
  {
    OrderedIsCanon(e.value);
  }

  /** Decode-then-re-encode accepts exactly the byte strings of the canonical grammar. */
  lemma AcceptsExactlyCanonical(data: seq<byte>)
    ensures DecodeCanonical(data).Some? <==> Strict(data) == Some(|data|)
  {
    StrictIffReproduces(data);
    if Decode(data).Got? && Decode(data).used == |data| {
      var v := Decode(data).value;
      DecodedIsSupported(data);
      EncodeIsSerializedCanon(v);
      assert data[..|data|] == data;
      if Encode(v) == Some(data) {
        EncodeRoundTrip(v, []);
        assert data + [] == data;
        CanonSupported(v);
      } else if Ordered(v) {
        OrderedIsCanon(v);
      }
    }
  }

  // -------------------------------------------------- values the encoder refuses

  /** Every integer and length fits an eight-byte argument. */
  predicate InRange(v: Value) {
    match v
    case Int(n) => n <= U64_MAX && -1 - n <= U64_MAX
    case Blob(b) => |b| <= U64_MAX
    case Text(t) => |t| <= U64_MAX
    case Array(items) => |items| <= U64_MAX && forall i :: 0 <= i < |items| ==> InRange(items[i])
    case Map(entries) => |entries| <= U64_MAX && forall e :: e in entries ==> InRange(e.key) && InRange(e.value)
    case _ => true
  }

  /** Encoding raises exactly on an integer or a length beyond 64 bits, however deep. */
  lemma {:induction false} EncodeRefusesExactlyOverflow(v: Value)
    ensures Encode(v).Some? <==> InRange(v)
    decreases v
  {
    match v
    case Array(items) => EncodeAllRefuses(items);
    case Map(entries) => EncodeEntriesRefuse(entries);
    case _ =>
  }

  lemma {:induction false} EncodeAllRefuses(items: seq<Value>)
    ensures EncodeAll(items).Some? <==> forall i :: 0 <= i < |items| ==> InRange(items[i])
    decreases items
  {
    hide InRange;
    if items != [] {
      EncodeRefusesExactlyOverflow(items[0]);
      EncodeAllRefuses(items[1..]);
      assert forall i :: 0 < i < |items| ==> items[i] == items[1..][i - 1];
    }
  }

  lemma {:induction false} EncodeEntryRefuses(e: Entry)
    ensures EncodeEntry(e).Some? <==> InRange(e.key) && InRange(e.value)
    decreases e
  {
    EncodeRefusesExactlyOverflow(e.key);
    EncodeRefusesExactlyOverflow(e.value);
  }

  lemma {:induction false} EncodeEntriesRefuse(entries: seq<Entry>)
    ensures EncodeEntries(entries).Some? <==> forall e :: e in entries ==> InRange(e.key) && InRange(e.value)
    ensures EncodeEntries(entries).Some? ==> |EncodeEntries(entries).value| == |entries|
    decreases entries
  {
    hide InRange, EncodeEntry;
    if entries != [] {
      EncodeEntryRefuses(entries[0]);
      EncodeEntriesRefuse(entries[1..]);
      assert entries == [entries[0]] + entries[1..];
    }
  }

  // ----------------------------------------------------- equality of Python values

  /** Equal values: lists elementwise, dicts by key whatever their insertion order. */
  ghost predicate Same(v: Value, w: Value) {
    match v
    case Array(items) => w.Array? && SameAll(items, w.items)
    case Map(entries) => w.Map? && |entries| == |w.entries| && SameEntries(entries, w.entries)
    case _ => v == w
  }

  ghost predicate SameAll(a: seq<Value>, b: seq<Value>) {
    |a| == |b| && (a == [] || (Same(a[0], b[0]) && SameAll(a[1..], b[1..])))
  }

  ghost predicate SameEntries(es: seq<Entry>, fs: seq<Entry>) {
    es == [] || (SameEntry(es[0], fs) && SameEntries(es[1..], fs))
  }

  ghost predicate SameEntry(e: Entry, fs: seq<Entry>) {
    exists j :: 0 <= j < |fs| && fs[j].key == e.key && Same(e.value, fs[j].value)
  }

  lemma BelowMeansBefore(b: seq<Entry>, q: nat, p: nat)
    requires Ascending(b, EntryKey, LengthFirst) && p < |b| && q < |b|
    requires LengthFirst(EntryKey(b[q]), EntryKey(b[p]))
    ensures q < p
  {
    hide EntryKey;
    LengthFirstIsStrictTotal();
  }

  lemma {:induction false} PositionAtLeast(a: seq<Entry>, b: seq<Entry>, i: nat) returns (p: nat)
    requires Ascending(a, EntryKey, LengthFirst) && Ascending(b, EntryKey, LengthFirst)
    requires forall k :: 0 <= k < |a| ==> a[k] in b
    requires i < |a|
    ensures i <= p < |b| && b[p] == a[i]
  {
    hide EntryKey;
    assert a[i] in b;
    p :| 0 <= p < |b| && b[p] == a[i];
    if i > 0 {
      var q := PositionAtLeast(a, b, i - 1);
      assert LengthFirst(EntryKey(a[i - 1]), EntryKey(a[i]));
      BelowMeansBefore(b, q, p);
    }
  }

  /** Two ascending lists of equal length, one contained in the other, are equal. */
  lemma {:induction false} AscendingSubset(a: seq<Entry>, b: seq<Entry>)
    requires Ascending(a, EntryKey, LengthFirst) && Ascending(b, EntryKey, LengthFirst)
    requires |a| == |b| && forall k :: 0 <= k < |a| ==> a[k] in b
    ensures a == b
  {
    hide EntryKey;
    if a != [] {
      var n := |a| - 1;
      var p := PositionAtLeast(a, b, n);
      forall k | 0 <= k < n ensures a[k] in b[..n] {
        var j :| 0 <= j < |b| && b[j] == a[k];
        assert LengthFirst(EntryKey(a[k]), EntryKey(a[n]));
        LexIrreflexive(EntryKey(a[n]));
        assert b[..n][j] == a[k];
      }
      AscendingSubset(a[..n], b[..n]);
      assert a == a[..n] + [a[n]] && b == b[..n] + [b[n]];
    }
  }

  ghost predicate Contained(a: seq<Entry>, b: seq<Entry>) {
    forall k :: 0 <= k < |a| ==> a[k] in b
  }

  lemma SortedContained(a: seq<Entry>, b: seq<Entry>)
    requires ValidKeys(a) && SupportedEntries(a) && ValidKeys(b) && SupportedEntries(b)
    requires |a| == |b| && Contained(a, b)
    ensures SortBy(a, EntryKey, LengthFirst) == SortBy(b, EntryKey, LengthFirst)
  {
    hide EntryKey, Supported, ValidKeys, SortBy;
    var s, t := SortBy(a, EntryKey, LengthFirst), SortBy(b, EntryKey, LengthFirst);
    SortedDict(a);
    SortedDict(b);
    SortPermutes(a, EntryKey, LengthFirst);
    SortPermutes(b, EntryKey, LengthFirst);
    forall k | 0 <= k < |s| ensures s[k] in t {
      assert s[k] in s;
      assert s[k] in a;
    }
    AscendingSubset(s, t);
  }

  /** The dict case: both sort to the same entries exactly when each entry has its twin. */
  lemma SortedEqualIff(a: seq<Entry>, b: seq<Entry>)
    requires ValidKeys(a) && SupportedEntries(a) && ValidKeys(b) && SupportedEntries(b)
    ensures SortBy(a, EntryKey, LengthFirst) == SortBy(b, EntryKey, LengthFirst) <==> |a| == |b| && Contained(a, b)
  {
    hide EntryKey, Supported, ValidKeys, SortBy;
    SortPermutes(a, EntryKey, LengthFirst);
    SortPermutes(b, EntryKey, LengthFirst);
    var s := SortBy(a, EntryKey, LengthFirst);
    forall k | 0 <= k < |a| ensures a[k] in s {
      assert a[k] in a;
    }
    if |a| == |b| && Contained(a, b) {
      SortedContained(a, b);
    }
  }

  lemma {:induction false} CanonEqualIffSame(v: Value, w: Value)
    requires Supported(v) && Supported(w)
    ensures Canon(v) == Canon(w) <==> Same(v, w)
    decreases v
  {
    match v
    case Array(items) =>
      if w.Array? {
        CanonAllEqualIffSame(items, w.items);
      }
    case Map(entries) =>
      if w.Map? {
        CanonEntriesSupported(entries);
        CanonEntriesSupported(w.entries);
        CanonKeepsKeys(entries);
        CanonKeepsKeys(w.entries);
        SortedEqualIff(CanonEntries(entries), CanonEntries(w.entries));
        CanonEntriesInIffSame(entries, w.entries);
      }
    case _ =>
  }

  lemma {:induction false} CanonAllEqualIffSame(a: seq<Value>, b: seq<Value>)
    requires SupportedAll(a) && SupportedAll(b)
    ensures CanonAll(a) == CanonAll(b) <==> SameAll(a, b)
    decreases a
  {
    hide Canon, Same, Supported;
    if a != [] && b != [] {
      CanonEqualIffSame(a[0], b[0]);
      CanonAllEqualIffSame(a[1..], b[1..]);
      assert CanonAll(a)[1..] == CanonAll(a[1..]) && CanonAll(b)[1..] == CanonAll(b[1..]);
    }
  }

  lemma {:induction false} CanonEntryInIffSame(e: Entry, fs: seq<Entry>)
    requires SupportedEntry(e) && SupportedEntries(fs)
    ensures CanonEntry(e) in CanonEntries(fs) <==> SameEntry(e, fs)
    decreases e
  {
    hide Canon, Same, Supported;
    SupportedEntriesIff(fs);
    forall j | 0 <= j < |fs| ensures Canon(e.value) == Canon(fs[j].value) <==> Same(e.value, fs[j].value) {
      assert SupportedEntry(fs[j]);
      CanonEqualIffSame(e.value, fs[j].value);
    }
    if SameEntry(e, fs) {
      var j :| 0 <= j < |fs| && fs[j].key == e.key && Same(e.value, fs[j].value);
      assert CanonEntries(fs)[j] == CanonEntry(e);
    }
  }

  lemma ContainedFirst(e: Entry, a: seq<Entry>, b: seq<Entry>)
    ensures Contained([e] + a, b) <==> e in b && Contained(a, b)
  {
    var c := [e] + a;
    assert c[0] == e;
    assert forall k :: 0 <= k < |a| ==> a[k] == c[k + 1];
  }

  lemma {:induction false} CanonEntriesInIffSame(es: seq<Entry>, fs: seq<Entry>)
    requires SupportedEntries(es) && SupportedEntries(fs)
    ensures Contained(CanonEntries(es), CanonEntries(fs)) <==> SameEntries(es, fs)
    decreases es
  {
    hide CanonEntry, SameEntry, SupportedEntry;
    if es != [] {
      CanonEntryInIffSame(es[0], fs);
      CanonEntriesInIffSame(es[1..], fs);
      var c, d := CanonEntries(es), CanonEntries(es[1..]);
      assert c == [CanonEntry(es[0])] + d;
      ContainedFirst(CanonEntry(es[0]), d, CanonEntries(fs));
    }
  }

  /** Two values have the same encoding exactly when they are equal up to dict insertion order. */
  lemma EncodeEqualIffSame(v: Value, w: Value)
    requires Supported(v) && Supported(w)
    ensures Encode(v) == Encode(w) <==> Same(v, w)
  {
    EncodeIsSerializedCanon(v);
    EncodeIsSerializedCanon(w);
    CanonSupported(v);
    CanonSupported(w);
    CanonEqualIffSame(v, w);
    if Encode(v) == Encode(w) {
      SerializeInjective(Canon(v), Canon(w));
    }
  }
}
