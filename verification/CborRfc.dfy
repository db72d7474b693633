/**
 Deterministic CBOR as the RFC alone defines it (sections 4.2.1 and 4.2.3 of RFC 8949, on the
 supported item types), and where the acceptance test departs from it: Python dicts cannot hold
 array or map keys, nor a boolean key together with its integer twin.
 */
module CborRfc {
  import opened Basics
  import opened Bytes
  import opened Sorting
  import opened Cbor
  import opened CborTheorems
  import opened CborCanonical
  import opened CborEncoding

  // ---------------------------------------------------------------- the RFC reader

  /** A canonical item and its length. */
  datatype Reading<+T> = Refused | Read(value: T, used: nat)

  /** The key rule of the RFC: strictly above the key before it, length first. */
  predicate Rising(raw: seq<byte>, keys: seq<seq<byte>>) {
    keys == [] || LengthFirst(keys[|keys| - 1], raw)
  }

  function RfcRead(s: seq<byte>): (r: Reading<Value>)
    ensures r.Read? ==> 1 <= r.used <= |s|
    decreases |s|, 1
  {
    if s == [] then Refused
    else
      var major, additional := s[0] / 32, s[0] % 32;
      if major <= 5 then
        match Argument(s[1..], additional)
        case Fail(_) => Refused
        case Got(n, k) =>
          if !Minimal(additional, n) then Refused
          else
            match RfcBody(s[1 + k..], major, n)
            case Refused => Refused
            case Read(v, m) => Read(v, 1 + k + m)
      else if major == 7 && additional == 20 then Read(Bool(false), 1)
      else if major == 7 && additional == 21 then Read(Bool(true), 1)
      else if major == 7 && additional == 22 then Read(Null, 1)
      else Refused
  }

  function RfcBody(s: seq<byte>, major: nat, n: nat): (r: Reading<Value>)
    requires major <= 5
    ensures r.Read? ==> r.used <= |s|
    decreases |s|, 4
  {
    if major == 0 then Read(Int(n), 0)
    else if major == 1 then Read(Int(-1 - n), 0)
    else if major <= 3 then
      if |s| < n then Refused
      else if major == 2 then Read(Blob(s[..n]), n)
      else if ValidUtf8(s[..n]) then Read(Text(s[..n]), n)
      else Refused
    else if major == 4 then
      match RfcItems(s, n)
      case Refused => Refused
      case Read(items, k) => Read(Array(items), k)
    else
      match RfcEntries(s, n, [])
      case Refused => Refused
      case Read(entries, k) => Read(Map(entries), k)
  }

  function RfcItems(s: seq<byte>, count: nat): (r: Reading<seq<Value>>)
    ensures r.Read? ==> r.used <= |s|
    decreases |s|, 2
  {
    if count == 0 then Read([], 0)
    else
      match RfcRead(s)
      case Refused => Refused
      case Read(v, k) =>
        match RfcItems(s[k..], count - 1)
        case Refused => Refused
        case Read(vs, m) => Read([v] + vs, k + m)
  }

  /** A key above the earlier raw keys, and its value. */
  function RfcEntry(s: seq<byte>, keys: seq<seq<byte>>): (r: Reading<Entry>)
    ensures r.Read? ==> RfcRead(s).Read? && RfcRead(s).value == r.value.key && RfcRead(s).used <= r.used <= |s|
    decreases |s|, 2
  {
    match RfcRead(s)
    case Refused => Refused
    case Read(key, k) =>
      if !Rising(s[..k], keys) then Refused
      else
        match RfcRead(s[k..])
        case Refused => Refused
        case Read(value, m) => Read(Entry(key, value), k + m)
  }

  function RfcEntries(s: seq<byte>, count: nat, keys: seq<seq<byte>>): (r: Reading<seq<Entry>>)
    ensures r.Read? ==> r.used <= |s|
    decreases |s|, 3
  {
    if count == 0 then Read([], 0)
    else
      match RfcEntry(s, keys)
      case Refused => Refused
      case Read(e, k) =>
        match RfcEntries(s[k..], count - 1, keys + [s[..RfcRead(s).used]])
        case Refused => Refused
        case Read(es, m) => Read([e] + es, k + m)
  }

  /** What the key order of section 4.2.3 means: shorter first, and among equals bytewise. */
  lemma KeyOrderMeans(a: seq<byte>, b: seq<byte>)
    ensures LengthFirst(a, b) <==>
            |a| < |b| || (|a| == |b| && exists k :: 0 <= k < |a| && a[..k] == b[..k] && a[k] < b[k])
  {
    LexMeans(a, b);
    if |a| == |b| {
      if k: nat :| SmallerAt(a, b, k) {
        assert k < |a|;
      }
      if k :| 0 <= k < |a| && a[..k] == b[..k] && a[k] < b[k] {
        assert SmallerAt(a, b, k);
      }
    }
  }

  // ------------------------------------------------------------ what Python can hold

  /** Different CBOR keys that are one Python dict key: a boolean and its integer twin. */
  predicate Twins(a: Value, b: Value) {
    a != b && KeyEq(a, b)
  }

  /** Every key can be hashed, and no boolean stands beside its twin. */
  predicate DictKeys(entries: seq<Entry>) {
    && (forall i :: 0 <= i < |entries| ==> Hashable(entries[i].key))
    && (forall i, j :: 0 <= i < j < |entries| ==> !Twins(entries[i].key, entries[j].key))
  }

  /** Every map in the value, however deep, has such keys. */
  predicate Pythonic(v: Value) {
    match v
    case Array(items) => PythonicAll(items)
    case Map(entries) => DictKeys(entries) && PythonicEntries(entries)
    case _ => true
  }

  predicate PythonicAll(items: seq<Value>) {
    items == [] || (Pythonic(items[0]) && PythonicAll(items[1..]))
  }

  predicate PythonicEntry(e: Entry) {
    Pythonic(e.key) && Pythonic(e.value)
  }

  predicate PythonicEntries(entries: seq<Entry>) {
    entries == [] || (PythonicEntry(entries[0]) && PythonicEntries(entries[1..]))
  }

  // ------------------------------------------------------ raw keys and their values

  /** What a key's bytes tell about its value, as far as dicts care. */
  predicate TellsKind(raw: seq<byte>, v: Value) {
    && raw != []
    && (v.Array? <==> raw[0] / 32 == 4) && (v.Map? <==> raw[0] / 32 == 5)
    && (v == Bool(false) <==> raw == [0xF4]) && (v == Bool(true) <==> raw == [0xF5])
    && (v == Int(0) <==> raw == [0x00]) && (v == Int(1) <==> raw == [0x01])
  }

  lemma ReadTellsKind(s: seq<byte>)
    requires RfcRead(s).Read?
    ensures TellsKind(s[..RfcRead(s).used], RfcRead(s).value)
  {
    hide RfcItems, RfcEntries, ValidUtf8;
    var raw := s[..RfcRead(s).used];
    assert raw[0] == s[0];
    if s[0] / 32 <= 5 {
      SmallArgument(s);
    }
  }

  /** Zero and one are written in the head itself. */
  lemma SmallArgument(s: seq<byte>)
    requires s != [] && Argument(s[1..], s[0] % 32).Got?
    requires Minimal(s[0] % 32, Argument(s[1..], s[0] % 32).value)
    ensures var r := Argument(s[1..], s[0] % 32);
            (r.used == 0 ==> r.value == s[0] % 32) && (r.value < 24 <==> r.used == 0)
  {
    hide FromBE;
  }

  /** The raw keys of `seen`, ascending. */
  ghost predicate RawKeys(keys: seq<seq<byte>>, seen: seq<Entry>) {
    && |keys| == |seen|
    && (forall i :: 0 <= i < |keys| ==> TellsKind(keys[i], seen[i].key))
    && (forall i :: 0 <= i < |keys| - 1 ==> LengthFirst(keys[i], keys[|keys| - 1]))
  }

  /** Above earlier keys, only the integer twin of a boolean can be a twin. */
  lemma TwinsByRaw(raw: seq<byte>, v: Value, raw': seq<byte>, v': Value)
    requires TellsKind(raw, v) && TellsKind(raw', v') && LengthFirst(raw, raw')
    ensures Twins(v, v') <==> (raw' == [0xF4] && raw == [0x00]) || (raw' == [0xF5] && raw == [0x01])
  {
    SmallKeys();
  }

  lemma RawKeysExtend(keys: seq<seq<byte>>, seen: seq<Entry>, raw: seq<byte>, e: Entry)
    requires RawKeys(keys, seen) && TellsKind(raw, e.key) && Rising(raw, keys)
    ensures forall i :: 0 <= i < |keys| ==> LengthFirst(keys[i], raw)
    ensures RawKeys(keys + [raw], seen + [e])
  {
    hide TellsKind;
    LengthFirstIsStrictTotal();
  }

  /** The grammar's key rule is the RFC's plus what a dict asks of the new key. */
  lemma AdmissibleSplits(keys: seq<seq<byte>>, seen: seq<Entry>, raw: seq<byte>, e: Entry)
    requires RawKeys(keys, seen) && TellsKind(raw, e.key) && DictKeys(seen)
    ensures Admissible(raw, keys) <==> Rising(raw, keys) && DictKeys(seen + [e])
  {
    hide LengthFirst, Twins;
    var all := seen + [e];
    if Rising(raw, keys) {
      RawKeysExtend(keys, seen, raw, e);
      forall i | 0 <= i < |seen|
        ensures Twins(seen[i].key, e.key) <==> (raw == [0xF4] && keys[i] == [0x00]) || (raw == [0xF5] && keys[i] == [0x01])
      {
        TwinsByRaw(keys[i], seen[i].key, raw, e.key);
      }
      forall i | 0 <= i < |seen| ensures all[i] == seen[i] && all[|seen|] == e && keys[i] in keys {
      }
      if Admissible(raw, keys) {
        forall i, j | 0 <= i < j < |all| ensures !Twins(all[i].key, all[j].key) {
          if j == |seen| {
            assert all[i] == seen[i] && keys[i] in keys;
          }
        }
      }
    }
  }

  // -------------------------------------------------- the grammar is the RFC narrowed

  function Narrow(r: Reading<Value>): Option<nat> {
    if r.Read? && Pythonic(r.value) then Some(r.used) else None
  }

  function NarrowAll(r: Reading<seq<Value>>): Option<nat> {
    if r.Read? && PythonicAll(r.value) then Some(r.used) else None
  }

  function NarrowEntries(r: Reading<seq<Entry>>, seen: seq<Entry>): Option<nat> {
    if r.Read? && PythonicEntries(r.value) && DictKeys(seen + r.value) then Some(r.used) else None
  }

  /** The grammar of the acceptance test is the RFC's, narrowed to what Python can hold. */
  lemma {:induction false} StrictIsNarrow(s: seq<byte>)
    ensures Strict(s) == Narrow(RfcRead(s))
    decreases |s|, 1
  {
    hide Argument, StrictBody, RfcBody, Minimal, Pythonic;
    if s != [] && s[0] / 32 <= 5 && Argument(s[1..], s[0] % 32).Got? {
      var k := Argument(s[1..], s[0] % 32).used;
      BodyNarrow(s[1 + k..], s[0] / 32, Argument(s[1..], s[0] % 32).value);
    }
    PythonicScalars();
  }

  lemma PythonicScalars()
    ensures Pythonic(Bool(false)) && Pythonic(Bool(true)) && Pythonic(Null)
  {
  }

  lemma {:induction false} BodyNarrow(s: seq<byte>, major: nat, n: nat)
    requires major <= 5
    ensures StrictBody(s, major, n) == Narrow(RfcBody(s, major, n))
    decreases |s|, 4
  {
    hide StrictItems, StrictEntries, RfcItems, RfcEntries, PythonicAll, PythonicEntries, DictKeys;
    if major == 4 {
      ItemsNarrow(s, n);
    } else if major == 5 {
      NoKeys();
      EntriesNarrow(s, n, [], []);
      if RfcEntries(s, n, []).Read? {
        assert [] + RfcEntries(s, n, []).value == RfcEntries(s, n, []).value;
      }
    }
  }

  lemma NoKeys()
    ensures RawKeys([], []) && DictKeys([])
  {
  }

  lemma {:induction false} ItemsNarrow(s: seq<byte>, count: nat)
    ensures StrictItems(s, count) == NarrowAll(RfcItems(s, count))
    decreases |s|, 2
  {
    hide Strict, RfcRead, Pythonic;
    if count > 0 {
      StrictIsNarrow(s);
      if RfcRead(s).Read? {
        var Read(v, k) := RfcRead(s);
        ItemsNarrow(s[k..], count - 1);
        if RfcItems(s[k..], count - 1).Read? {
          var vs := RfcItems(s[k..], count - 1).value;
          assert ([v] + vs)[0] == v && ([v] + vs)[1..] == vs;
        }
      }
    }
  }

  /** A dict whose keys are fine as a whole is fine without its last entries. */
  lemma DictKeysPrefix(a: seq<Entry>, b: seq<Entry>)
    requires DictKeys(a + b)
    ensures DictKeys(a)
  {
    hide Twins, Hashable;
    assert forall i :: 0 <= i < |a| ==> (a + b)[i] == a[i];
  }

  lemma {:induction false} EntriesNarrow(s: seq<byte>, count: nat, keys: seq<seq<byte>>, seen: seq<Entry>)
    requires RawKeys(keys, seen) && DictKeys(seen)
    ensures StrictEntries(s, count, keys) == NarrowEntries(RfcEntries(s, count, keys), seen)
    decreases |s|, 3
  {
    if count == 0 {
      assert seen + [] == seen;
    } else {
      hide Strict, RfcRead, Admissible, Rising, Pythonic, DictKeys, RawKeys, TellsKind;
      StrictIsNarrow(s);
      if RfcEntry(s, keys).Read? {
        var e, k := RfcEntry(s, keys).value, RfcRead(s).used;
        StrictIsNarrow(s[k..]);
        ReadTellsKind(s);
        AdmissibleSplits(keys, seen, s[..k], e);
        EntryNarrow(s, count, keys, seen, e, k);
      } else if RfcRead(s).Read? && Rising(s[..RfcRead(s).used], keys) {
        StrictIsNarrow(s[RfcRead(s).used..]);
      } else if RfcRead(s).Read? {
        NotRising(s[..RfcRead(s).used], keys);
      }
    }
  }

  lemma NotRising(raw: seq<byte>, keys: seq<seq<byte>>)
    requires !Rising(raw, keys)
    ensures !Admissible(raw, keys)
  {
  }

  lemma {:induction false} EntryNarrow(s: seq<byte>, count: nat, keys: seq<seq<byte>>, seen: seq<Entry>, e: Entry, k: nat)
    requires count > 0 && RawKeys(keys, seen) && DictKeys(seen)
    requires RfcEntry(s, keys).Read? && RfcEntry(s, keys).value == e && RfcRead(s) == Read(e.key, k)
    requires Strict(s) == Narrow(RfcRead(s)) && Strict(s[k..]) == Narrow(RfcRead(s[k..]))
    requires TellsKind(s[..k], e.key)
    requires Admissible(s[..k], keys) <==> Rising(s[..k], keys) && DictKeys(seen + [e])
    ensures StrictEntries(s, count, keys) == NarrowEntries(RfcEntries(s, count, keys), seen)
    decreases |s|, 2
  {
    hide Strict, RfcRead, Admissible, Rising, Pythonic, DictKeys, RawKeys, TellsKind;
    var used := RfcEntry(s, keys).used;
    var later := RfcEntries(s[used..], count - 1, keys + [s[..k]]);
    if later.Read? {
      EntriesFirst(seen, e, later.value);
      if DictKeys(seen + ([e] + later.value)) {
        DictKeysPrefix(seen + [e], later.value);
      }
    }
    if DictKeys(seen + [e]) {
      RawKeysExtend(keys, seen, s[..k], e);
      EntriesNarrow(s[used..], count - 1, keys + [s[..k]], seen + [e]);
    }
  }

  lemma EntriesFirst(seen: seq<Entry>, e: Entry, es: seq<Entry>)
    ensures seen + ([e] + es) == seen + [e] + es
    ensures PythonicEntries([e] + es) <==> PythonicEntry(e) && PythonicEntries(es)
  {
    hide PythonicEntry;
    assert ([e] + es)[0] == e && ([e] + es)[1..] == es;
  }

  // ------------------------------------------------------ both readers, same value

  /** Where both the decoder and the RFC reader accept, they read the same. */
  lemma {:induction false} ReadersAgree(s: seq<byte>)
    requires Decode(s).Got? && RfcRead(s).Read?
    ensures Decode(s) == Got(RfcRead(s).value, RfcRead(s).used)
    decreases |s|, 1
  {
    hide Argument, DecodeItems, DecodeEntries, RfcItems, RfcEntries, Minimal, ValidUtf8;
    if s[0] / 32 == 4 || s[0] / 32 == 5 {
      var Got(n, k) := Argument(s[1..], s[0] % 32);
      if s[0] / 32 == 4 {
        ItemReadersAgree(s[1 + k..], n);
      } else {
        EntryReadersAgree(s[1 + k..], n, [], []);
        assert [] + RfcEntries(s[1 + k..], n, []).value == RfcEntries(s[1 + k..], n, []).value;
      }
    }
  }

  lemma {:induction false} ItemReadersAgree(s: seq<byte>, count: nat)
    requires DecodeItems(s, count).Got? && RfcItems(s, count).Read?
    ensures DecodeItems(s, count) == Got(RfcItems(s, count).value, RfcItems(s, count).used)
    decreases |s|, 2
  {
    hide Decode, RfcRead;
    if count > 0 {
      ReadersAgree(s);
      ItemReadersAgree(s[Decode(s).used..], count - 1);
    }
  }

  lemma {:induction false} OneEntryAgrees(s: seq<byte>, seen: seq<Entry>, keys: seq<seq<byte>>)
    requires DecodeEntry(s, seen).Got? && RfcEntry(s, keys).Read?
    ensures DecodeEntry(s, seen) == Got(RfcEntry(s, keys).value, RfcEntry(s, keys).used)
    decreases |s|, 2
  {
    hide Decode, RfcRead, Rising, HasKey, Hashable;
    ReadersAgree(s);
    ReadersAgree(s[Decode(s).used..]);
  }

  lemma RfcFirstEntry(s: seq<byte>, count: nat, keys: seq<seq<byte>>)
    requires count > 0 && RfcEntries(s, count, keys).Read?
    ensures RfcEntry(s, keys).Read?
    ensures var Read(e, k) := RfcEntry(s, keys);
            var later := RfcEntries(s[k..], count - 1, keys + [s[..RfcRead(s).used]]);
            later.Read? && RfcEntries(s, count, keys) == Read([e] + later.value, k + later.used)
  {
    hide RfcEntry, RfcRead;
  }

  lemma DecodedFirstEntry(s: seq<byte>, count: nat, seen: seq<Entry>)
    requires count > 0 && DecodeEntries(s, count, seen).Got?
    ensures DecodeEntry(s, seen).Got?
  {
    hide DecodeEntry;
  }

  lemma NoEntries(s: seq<byte>, seen: seq<Entry>, keys: seq<seq<byte>>)
    ensures DecodeEntries(s, 0, seen) == Got(seen, 0) && RfcEntries(s, 0, keys) == Read([], 0)
  {
  }

  lemma {:induction false} EntryReadersAgree(s: seq<byte>, count: nat, seen: seq<Entry>, keys: seq<seq<byte>>)
    requires DecodeEntries(s, count, seen).Got? && RfcEntries(s, count, keys).Read?
    ensures DecodeEntries(s, count, seen) == Got(seen + RfcEntries(s, count, keys).value, RfcEntries(s, count, keys).used)
    decreases |s|, 3
  {
    hide RfcRead, RfcEntry, RfcEntries, DecodeEntry, DecodeEntries;
    if count == 0 {
      NoEntries(s, seen, keys);
      assert seen + [] == seen;
    } else {
      RfcFirstEntry(s, count, keys);
      DecodedFirstEntry(s, count, seen);
      OneEntryAgrees(s, seen, keys);
      var Got(e, k) := DecodeEntry(s, seen);
      DecodeFirstEntry(s, count - 1, seen, e, k);
      var keys' := keys + [s[..RfcRead(s).used]];
      EntryReadersAgree(s[k..], count - 1, seen + [e], keys');
      assert seen + [e] + RfcEntries(s[k..], count - 1, keys').value == seen + ([e] + RfcEntries(s[k..], count - 1, keys').value);
    }
  }

  // -------------------------------------------------------------------- theorems

  /**
   The test accepts a byte string, as the value `v`, exactly when the RFC reads the whole of it as
   `v` and no map in `v` has an array key, a map key, or a boolean key beside its integer twin.
   */
  lemma AcceptsRfcWithPythonKeys(data: seq<byte>, v: Value)
    ensures DecodeCanonical(data) == Some(v) <==> RfcRead(data) == Read(v, |data|) && Pythonic(v)
  {
    hide Strict, RfcRead, Pythonic, Decode, Encode;
    AcceptsExactlyCanonical(data);
    StrictIsNarrow(data);
    if DecodeCanonical(data).Some? {
      ReadersAgree(data);
    }
  }

  /** Only text keys, as in every format of the Recorder. */
  predicate TextKeyed(v: Value) {
    match v
    case Array(items) => TextKeyedAll(items)
    case Map(entries) => TextKeyedEntries(entries)
    case _ => true
  }

  predicate TextKeyedAll(items: seq<Value>) {
    items == [] || (TextKeyed(items[0]) && TextKeyedAll(items[1..]))
  }

  predicate TextKeyedEntry(e: Entry) {
    e.key.Text? && TextKeyed(e.value)
  }

  predicate TextKeyedEntries(entries: seq<Entry>) {
    entries == [] || (TextKeyedEntry(entries[0]) && TextKeyedEntries(entries[1..]))
  }

  lemma {:induction false} TextKeyedIsPythonic(v: Value)
    requires TextKeyed(v)
    ensures Pythonic(v)
    decreases v
  {
    hide DictKeys;
    match v
    case Array(items) => TextKeyedAllPythonic(items);
    case Map(entries) =>
      TextKeyedEntriesPythonic(entries);
      TextKeysAreDictKeys(entries);
    case _ =>
  }

  lemma {:induction false} TextKeyedAllPythonic(items: seq<Value>)
    requires TextKeyedAll(items)
    ensures PythonicAll(items)
    decreases items
  {
    if items != [] {
      TextKeyedIsPythonic(items[0]);
      TextKeyedAllPythonic(items[1..]);
    }
  }

  lemma {:induction false} TextKeyedEntryPythonic(e: Entry)
    requires TextKeyedEntry(e)
    ensures PythonicEntry(e)
    decreases e
  {
    TextKeyedIsPythonic(e.value);
  }

  lemma {:induction false} TextKeyedEntriesPythonic(entries: seq<Entry>)
    requires TextKeyedEntries(entries)
    ensures PythonicEntries(entries)
    ensures forall i :: 0 <= i < |entries| ==> entries[i].key.Text?
    decreases entries
  {
    if entries != [] {
      TextKeyedEntryPythonic(entries[0]);
      TextKeyedEntriesPythonic(entries[1..]);
    }
  }

  lemma TextKeysAreDictKeys(entries: seq<Entry>)
    requires forall i :: 0 <= i < |entries| ==> entries[i].key.Text?
    ensures DictKeys(entries)
  {
  }

  /** On text-keyed data the test is exactly RFC canonicity. */
  lemma AcceptsExactlyRfcOnTextKeys(data: seq<byte>, v: Value)
    requires TextKeyed(v)
    ensures DecodeCanonical(data) == Some(v) <==> RfcRead(data) == Read(v, |data|)
  {
    hide Pythonic, RfcRead, DecodeCanonical;
    TextKeyedIsPythonic(v);
    AcceptsRfcWithPythonKeys(data, v);
  }

  /** The departures are real: canonical by the RFC, refused by the test. */
  lemma TwinKeysRefused()
    ensures var data := [0xA2, 0x01, 0x00, 0xF5, 0x00];
            && RfcRead(data) == Read(Map([Entry(Int(1), Int(0)), Entry(Bool(true), Int(0))]), 5)
            && DecodeCanonical(data) == None
  {
    hide RfcRead, RfcEntry, RfcEntries, DecodeCanonical, Pythonic;
    var data: seq<byte> := [0xA2, 0x01, 0x00, 0xF5, 0x00];
    var one, two := Entry(Int(1), Int(0)), Entry(Bool(true), Int(0));
    NoEntries(data[5..], [], [[0x01], [0xF5]]);
    assert data[3..][2..] == data[5..] && [two] + [] == [two];
    assert [[0x01]] + [[data[3..][0]]] == [[0x01], [0xF5]];
    TwoBytes(data[3..], 0, [[0x01]], two, [], 0);
    assert data[1..][2..] == data[3..] && [one] + [two] == [one, two];
    assert [] + [[data[1..][0]]] == [[0x01]];
    TwoBytes(data[1..], 1, [], one, [two], 2);
    MapHead(data, 2, [one, two], 4);
    NotPythonic([one, two]);
    forall w ensures DecodeCanonical(data) != Some(w) {
      AcceptsRfcWithPythonKeys(data, w);
    }
  }

  lemma ArrayKeyRefused()
    ensures var data := [0xA1, 0x80, 0x00];
            && RfcRead(data) == Read(Map([Entry(Array([]), Int(0))]), 3)
            && DecodeCanonical(data) == None
  {
    hide RfcRead, RfcEntry, RfcEntries, DecodeCanonical, Pythonic;
    var data: seq<byte> := [0xA1, 0x80, 0x00];
    var e := Entry(Array([]), Int(0));
    NoEntries(data[3..], [], [[0x80]]);
    assert data[1..][2..] == data[3..] && [e] + [] == [e];
    assert [] + [[data[1..][0]]] == [[0x80]];
    TwoBytes(data[1..], 0, [], e, [], 0);
    MapHead(data, 1, [e], 2);
    NotPythonic([e]);
    forall w ensures DecodeCanonical(data) != Some(w) {
      AcceptsRfcWithPythonKeys(data, w);
    }
  }

  lemma NotPythonic(entries: seq<Entry>)
    requires entries != []
    requires entries[0].key.Array? || (|entries| > 1 && Twins(entries[0].key, entries[1].key))
    ensures !Pythonic(Map(entries))
  {
  }

  /** The values that these bytes stand for. */
  predicate OneByte(b: byte, v: Value) {
    (v == Int(0) && b == 0x00) || (v == Int(1) && b == 0x01) || (v == Bool(true) && b == 0xF5) || (v == Array([]) && b == 0x80)
  }

  lemma ReadsOneByte(s: seq<byte>, v: Value)
    requires s != [] && OneByte(s[0], v)
    ensures RfcRead(s) == Read(v, 1)
  {
    assert RfcItems(s[1..], 0) == Read([], 0);
    assert s[0] / 32 == 4 ==> RfcBody(s[1..], 4, 0) == Read(Array([]), 0);
  }

  /** An entry of one byte each, then the rest. */
  lemma TwoBytes(s: seq<byte>, count: nat, keys: seq<seq<byte>>, e: Entry, es: seq<Entry>, m: nat)
    requires |s| >= 2 && OneByte(s[0], e.key) && OneByte(s[1], e.value)
    requires keys == [] || (keys == [[0x01]] && s[0] == 0xF5)
    requires RfcEntries(s[2..], count, keys + [[s[0]]]) == Read(es, m)
    ensures RfcEntries(s, count + 1, keys) == Read([e] + es, 2 + m)
  {
    hide RfcRead;
    ReadsOneByte(s, e.key);
    ReadsOneByte(s[1..], e.value);
    assert s[..1] == [s[0]];
    assert LengthFirst([0x01], [0xF5]);
    assert RfcEntry(s, keys) == Read(e, 2);
  }

  lemma MapHead(s: seq<byte>, n: nat, entries: seq<Entry>, used: nat)
    requires n < 24 && s != [] && s[0] == 0xA0 + n && RfcEntries(s[1..], n, []) == Read(entries, used)
    ensures RfcRead(s) == Read(Map(entries), 1 + used)
  {
    hide RfcEntries;
  }
}
