/**
 The byte grammar that the acceptance test implements: canonical CBOR (sections 4.2.1 and
 4.2.3 of RFC 8949) whose map keys a Python dict can hold.  `CborRfc` separates the two.
 */
module CborCanonical {
  import opened Basics
  import opened Bytes
  import opened Sorting
  import opened Cbor
  import opened CborTheorems

  // ------------------------------------------------- the canonical byte grammar

  /** The argument could not have been written with a shorter head. */
  predicate Minimal(additional: nat, value: nat) {
    && (additional == 24 ==> value >= 24)
    && (additional == 25 ==> value > 0xFF)
    && (additional == 26 ==> value > 0xFFFF)
    && (additional == 27 ==> value > 0xFFFF_FFFF)
  }

  /**
   A raw key may follow the raw keys before it: it is not an array or a map, it is strictly
   above the last one length-first, and it is not a boolean whose integer twin came before
   (Python could not keep both).
   */
  predicate Admissible(raw: seq<byte>, keys: seq<seq<byte>>) {
    && raw != [] && raw[0] / 32 != 4 && raw[0] / 32 != 5
    && (keys == [] || LengthFirst(keys[|keys| - 1], raw))
    && (raw == [0xF4] ==> [0x00] !in keys)
    && (raw == [0xF5] ==> [0x01] !in keys)
  }

  /** The length of the canonical item that starts `s`, if there is one. */
  function Strict(s: seq<byte>): (r: Option<nat>)
    ensures r.Some? ==> 1 <= r.value <= |s|
    decreases |s|, 1
  {
    if s == [] then None
    else
      var major, additional := s[0] / 32, s[0] % 32;
      if major <= 5 then
        match Argument(s[1..], additional)
        case Fail(_) => None
        case Got(n, k) =>
          if !Minimal(additional, n) then None
          else
            match StrictBody(s[1 + k..], major, n)
            case None => None
            case Some(m) => Some(1 + k + m)
      else if major == 7 && 20 <= additional <= 22 then Some(1)
      else None
  }

  function StrictBody(s: seq<byte>, major: nat, n: nat): (r: Option<nat>)
    requires major <= 5
    ensures r.Some? ==> r.value <= |s|
    decreases |s|, 4
  {
    if major <= 1 then Some(0)
    else if major <= 3 then
      if |s| < n || (major == 3 && !ValidUtf8(s[..n])) then None else Some(n)
    else if major == 4 then StrictItems(s, n)
    else StrictEntries(s, n, [])
  }

  function StrictItems(s: seq<byte>, count: nat): (r: Option<nat>)
    ensures r.Some? ==> r.value <= |s|
    decreases |s|, 2
  {
    if count == 0 then Some(0)
    else
      match Strict(s)
      case None => None
      case Some(k) =>
        match StrictItems(s[k..], count - 1)
        case None => None
        case Some(m) => Some(k + m)
  }

  function StrictEntries(s: seq<byte>, count: nat, keys: seq<seq<byte>>): (r: Option<nat>)
    ensures r.Some? ==> r.value <= |s|
    decreases |s|, 3
  {
    if count == 0 then Some(0)
    else
      match StrictEntry(s, keys)
      case None => None
      case Some(lengths) =>
        var (k, m) := lengths;
        match StrictEntries(s[k + m..], count - 1, keys + [s[..k]])
        case None => None
        case Some(t) => Some(k + m + t)
  }

  /** The lengths of a canonical key and value. */
  function StrictEntry(s: seq<byte>, keys: seq<seq<byte>>): (r: Option<(nat, nat)>)
    ensures r.Some? ==> 1 <= r.value.0 && r.value.0 + r.value.1 <= |s|
    decreases |s|, 2
  {
    match Strict(s)
    case None => None
    case Some(k) =>
      if !Admissible(s[..k], keys) then None
      else
        match Strict(s[k..])
        case None => None
        case Some(m) => Some((k, m))
  }

  // --------------------------------------------------------------- ordered values

  function EntryKey(e: Entry): seq<byte> {
    Serialize(e.key)
  }

  /** Every map inside the value lists its keys strictly ascending, length first. */
  ghost predicate Ordered(v: Value) {
    match v
    case Array(items) => OrderedAll(items)
    case Map(entries) => Ascending(entries, EntryKey, LengthFirst) && OrderedEntries(entries)
    case _ => true
  }

  ghost predicate OrderedAll(items: seq<Value>) {
    items == [] || (Ordered(items[0]) && OrderedAll(items[1..]))
  }

  ghost predicate OrderedEntries(entries: seq<Entry>) {
    entries == [] || (OrderedEntry(entries[0]) && OrderedEntries(entries[1..]))
  }

  ghost predicate OrderedEntry(e: Entry) {
    Ordered(e.key) && Ordered(e.value)
  }

  lemma LengthFirstIsStrictTotal()
    ensures StrictTotal(LengthFirst)
  {
    LexIsStrictTotal();
    forall a: seq<byte>, b: seq<byte>, c: seq<byte> | LengthFirst(a, b) && LengthFirst(b, c)
      ensures LengthFirst(a, c)
    {
      if |a| == |b| && |b| == |c| {
        LexTransitive(a, b, c);
      }
    }
    forall a: seq<byte>, b: seq<byte> | a != b ensures LengthFirst(a, b) || LengthFirst(b, a) {
      LexConnected(a, b);
    }
    forall a: seq<byte> ensures !LengthFirst(a, a) {
      LexIrreflexive(a);
    }
  }

  // ------------------------------------------------------------- head minimality

  /** A minimal head is exactly the one the encoder writes. */
  lemma MinimalIffShortest(s: seq<byte>)
    requires s != [] && Argument(s[1..], s[0] % 32).Got?
    ensures var major := s[0] / 32;
            var r := Argument(s[1..], s[0] % 32);
            && major < 8
            && (Minimal(s[0] % 32, r.value) <==> Head(major, r.value) == s[..1 + r.used])
  {
    hide Head, FromBE, ToBE, Pow256;
    var major, additional := s[0] / 32, s[0] % 32;
    var Got(value, k) := Argument(s[1..], additional);
    ArgumentFits(s[1..], additional);
    if additional >= 24 {
      var tail := s[1..][..k];
      ToFromBE(tail);
      FromBEBound(tail);
      assert s[..1 + k] == [s[0]] + tail;
      LongHead(s[0], major, additional, tail);
    } else {
      ShortHead(major, additional);
      assert s[..1] == [s[0]];
    }
  }

  lemma ShortHead(major: nat, value: nat)
    requires major < 8 && value < 24
    ensures Head(major, value) == [32 * major + value]
  {
  }

  /** The same for a head whose argument follows it in `tail`. */
  lemma LongHead(first: byte, major: nat, additional: nat, tail: seq<byte>)
    requires first == 32 * major + additional && 24 <= additional < 28 && major < 8
    requires |tail| == ArgumentSize(additional)
    requires ToBE(FromBE(tail), |tail|) == tail && FromBE(tail) < Pow256(|tail|)
    ensures Minimal(additional, FromBE(tail)) <==> Head(major, FromBE(tail)) == [first] + tail
  {
    PowersOf256();
    HeadForm(major, additional, FromBE(tail));
  }

  /** A minimal long head is its first byte and the argument; any other argument has a shorter head. */
  lemma HeadForm(major: nat, additional: nat, value: nat)
    requires 24 <= additional < 28 && major < 8
    requires value <= (if additional == 24 then 0xFF else if additional == 25 then 0xFFFF
                       else if additional == 26 then 0xFFFF_FFFF else U64_MAX)
    ensures Minimal(additional, value) ==> Head(major, value) == [32 * major + additional] + ToBE(value, ArgumentSize(additional))
    ensures !Minimal(additional, value) ==> |Head(major, value)| < 1 + ArgumentSize(additional)
  {
    hide ToBE;
  }

  // ----------------------------------------------- the grammar against the decoder

  /** The first `n` bytes of `s` are the serialization of the ordered value `v`. */
  ghost predicate Spells(v: Value, s: seq<byte>, n: nat) {
    n <= |s| && Ordered(v) && Serialize(v) == s[..n]
  }

  ghost predicate SpellsAll(vs: seq<Value>, s: seq<byte>, n: nat) {
    n <= |s| && OrderedAll(vs) && SerializeAll(vs) == s[..n]
  }

  ghost predicate SpellsEntries(es: seq<Entry>, s: seq<byte>, n: nat) {
    n <= |s| && OrderedEntries(es) && Join(ItemsOf(es)) == s[..n]
  }

  /** Re-serializing what was decoded from `s` gives back the bytes it used. */
  ghost predicate Reproduces(s: seq<byte>) {
    Decode(s).Got? && Spells(Decode(s).value, s, Decode(s).used)
  }

  ghost predicate ItemsReproduce(s: seq<byte>, count: nat) {
    DecodeItems(s, count).Got? && SpellsAll(DecodeItems(s, count).value, s, DecodeItems(s, count).used)
  }

  /** The same for the entries that a dict gains after `seen`. */
  ghost predicate EntriesReproduce(s: seq<byte>, count: nat, seen: seq<Entry>) {
    && DecodeEntries(s, count, seen).Got?
    && var Got(all, n) := DecodeEntries(s, count, seen);
    && |seen| <= |all|
    && Ascending(all, EntryKey, LengthFirst)
    && SpellsEntries(all[|seen|..], s, n)
  }

  /** Two parts spell `s[..k + m]` together exactly when each spells its own share. */
  lemma PartsSpell(a: seq<byte>, b: seq<byte>, s: seq<byte>, k: nat, m: nat)
    requires k + m <= |s| && (|a| == k || a + b != s[..k + m])
    ensures a + b == s[..k + m] <==> a == s[..k] && b == s[k..][..m]
  {
    assert s[..k + m] == s[..k] + s[k..][..m];
    if |a| == k {
      assert (a + b)[..k] == a && (a + b)[k..] == b;
      assert s[..k + m][..k] == s[..k] && s[..k + m][k..] == s[k..][..m];
    }
  }

  /** If the bytes used start with the serialization of the first item, that is all it used. */
  lemma ItemSplits(v: Value, k: nat, tail: seq<byte>, s: seq<byte>, m: nat)
    requires Decode(s) == Got(v, k) && k + m <= |s|
    ensures Serialize(v) + tail == s[..k + m] <==> Serialize(v) == s[..k] && tail == s[k..][..m]
  {
    hide Decode, Serialize, Supported;
    if Serialize(v) + tail == s[..k + m] {
      DecodedIsSupported(s);
      DecodeSerialized(v, tail + s[k + m..]);
      assert s == s[..k + m] + s[k + m..];
      assert Serialize(v) + tail + s[k + m..] == Serialize(v) + (tail + s[k + m..]);
    }
    PartsSpell(Serialize(v), tail, s, k, m);
  }

  /** The same for a head. */
  lemma HeadSplits(major: nat, n: nat, used: nat, body: seq<byte>, s: seq<byte>, k: nat)
    requires s != [] && 1 <= used && used + k <= |s|
    requires major == s[0] / 32 && Argument(s[1..], s[0] % 32) == Got(n, used - 1)
    ensures major < 8
    ensures Head(major, n) + body == s[..used + k] <==> Head(major, n) == s[..used] && body == s[used..][..k]
  {
    var h := Head(major, n);
    if h + body == s[..used + k] {
      ArgumentFits(s[1..], s[0] % 32);
      HeadDecodes(major, n, body + s[used + k..]);
      assert s == s[..used + k] + s[used + k..];
      assert h + body + s[used + k..] == h + (body + s[used + k..]);
    }
    PartsSpell(h, body, s, used, k);
  }

  /** The decoder on an item whose head is known. */
  lemma DecodeAfterHead(s: seq<byte>, n: nat, used: nat)
    requires s != [] && s[0] / 32 <= 5 && 1 <= used && Argument(s[1..], s[0] % 32) == Got(n, used - 1)
    ensures used <= |s| && Decode(s) == After(used, DecodeBody(s[used..], s[0] / 32, n))
    ensures Strict(s) ==
            if !Minimal(s[0] % 32, n) then None
            else match StrictBody(s[used..], s[0] / 32, n) case None => None case Some(m) => Some(used + m)
  {
    hide Argument, DecodeBody, StrictBody;
  }

  /** What the grammar says about the bytes after the head agrees with the decoder. */
  ghost predicate BodyAgrees(s: seq<byte>, major: nat, n: nat) {
    major <= 5 &&
    match DecodeBody(s, major, n)
    case Fail(_) => StrictBody(s, major, n).None?
    case Got(v, k) => StrictBody(s, major, n) == if Ordered(v) && Tail(v) == s[..k] then Some(k) else None
  }

  /** The serialization of a value without its head. */
  ghost function Tail(v: Value): seq<byte> {
    match v
    case Blob(b) => b
    case Text(t) => t
    case Array(items) => SerializeAll(items)
    case Map(entries) => Join(ItemsOf(entries))
    case _ => []
  }

  lemma SerializeIsHeadAndTail(s: seq<byte>, major: nat, n: nat)
    requires major <= 5 && DecodeBody(s, major, n).Got?
    ensures Serialize(DecodeBody(s, major, n).value) == Head(major, n) + Tail(DecodeBody(s, major, n).value)
  {
    hide Head, DecodeItems, DecodeEntries, SerializeAll, Join, ItemsOf;
    if major == 4 {
      DecodedItemsSupported(s, n);
    } else if major == 5 {
      DecodedEntriesSupported(s, n, []);
    }
  }

  lemma ItemAgrees(s: seq<byte>, n: nat, used: nat)
    requires s != [] && s[0] / 32 <= 5 && 1 <= used <= |s| && Argument(s[1..], s[0] % 32) == Got(n, used - 1)
    requires BodyAgrees(s[used..], s[0] / 32, n)
    ensures Strict(s).Some? <==> Reproduces(s)
    ensures Strict(s).Some? ==> Strict(s).value == Decode(s).used
  {
    hide Argument, Decode, DecodeBody, Strict, StrictBody, Minimal, Head, Serialize, Tail, Ordered;
    DecodeAfterHead(s, n, used);
    MinimalIffShortest(s);
    var r := DecodeBody(s[used..], s[0] / 32, n);
    if r.Got? {
      SerializeIsHeadAndTail(s[used..], s[0] / 32, n);
      HeadSplits(s[0] / 32, n, used, Tail(r.value), s, r.used);
    }
  }

  /** The byte grammar accepts an item exactly when re-serializing its decoding gives it back. */
  lemma {:induction false} StrictIffReproduces(s: seq<byte>)
    ensures Strict(s).Some? <==> Reproduces(s)
    ensures Strict(s).Some? ==> Strict(s).value == Decode(s).used
    decreases |s|, 1
  {
    if s != [] && s[0] / 32 <= 5 && Argument(s[1..], s[0] % 32).Got? {
      var Got(n, k) := Argument(s[1..], s[0] % 32);
      BodiesAgree(s[1 + k..], s[0] / 32, n);
      ItemAgrees(s, n, 1 + k);
    }
  }

  lemma {:induction false} BodiesAgree(s: seq<byte>, major: nat, n: nat)
    requires major <= 5
    ensures BodyAgrees(s, major, n)
    decreases |s|, 4
  {
    hide DecodeItems, DecodeEntries, StrictItems, StrictEntries;
    if major == 4 {
      StrictItemsIffReproduce(s, n);
    } else if major == 5 {
      StrictEntriesIffReproduce(s, n, [], []);
      var r := DecodeEntries(s, n, []);
      if r.Got? {
        assert r.value[0..] == r.value;
      }
    }
  }

  lemma {:induction false} StrictItemsIffReproduce(s: seq<byte>, count: nat)
    ensures StrictItems(s, count).Some? <==> ItemsReproduce(s, count)
    ensures StrictItems(s, count).Some? ==> StrictItems(s, count).value == DecodeItems(s, count).used
    decreases |s|, 2
  {
    hide Decode, Serialize, Strict, Ordered;
    if count > 0 {
      StrictIffReproduces(s);
      if Decode(s).Got? {
        var Got(v, k) := Decode(s);
        StrictItemsIffReproduce(s[k..], count - 1);
        if DecodeItems(s[k..], count - 1).Got? {
          var Got(vs, m) := DecodeItems(s[k..], count - 1);
          assert ([v] + vs)[1..] == vs;
          ItemSplits(v, k, SerializeAll(vs), s, m);
        }
      }
    }
  }

  // ------------------------------------------------------------------ map entries

  /** `keys` are the serialized keys of `seen`, which is a well-formed ascending dict. */
  ghost predicate SeenAs(seen: seq<Entry>, keys: seq<seq<byte>>) {
    && |keys| == |seen|
    && (forall i :: 0 <= i < |seen| ==> keys[i] == EntryKey(seen[i]) && Supported(seen[i].key))
    && ValidKeys(seen)
    && Ascending(seen, EntryKey, LengthFirst)
  }

  lemma SmallKeys()
    ensures Serialize(Bool(false)) == [0xF4] && Serialize(Bool(true)) == [0xF5]
    ensures Serialize(Int(0)) == [0x00] && Serialize(Int(1)) == [0x01]
    ensures !LengthFirst([0xF4], [0x00]) && !LengthFirst([0xF5], [0x01])
  {
  }

  lemma KeyMajor(v: Value)
    requires Supported(v)
    ensures Hashable(v) <==> Serialize(v)[0] / 32 != 4 && Serialize(v)[0] / 32 != 5
  {
    match v
    case Array(items) => HeadDecodes(4, |items|, SerializeAll(items));
    case Map(entries) => HeadDecodes(5, |entries|, Join(ItemsOf(entries)));
    case Int(n) => HeadDecodes(if n >= 0 then 0 else 1, if n >= 0 then n else -1 - n, []);
    case Blob(b) => HeadDecodes(2, |b|, b);
    case Text(t) => HeadDecodes(3, |t|, t);
    case _ =>
  }

  /** The byte rule for keys is the dict rule plus the ordering rule. */
  lemma AdmissibleIff(seen: seq<Entry>, keys: seq<seq<byte>>, key: Value)
    requires SeenAs(seen, keys) && Supported(key)
    ensures Admissible(Serialize(key), keys) <==>
            && Hashable(key) && !HasKey(seen, key)
            && (seen == [] || LengthFirst(EntryKey(seen[|seen| - 1]), Serialize(key)))
  {
    hide Serialize;
    KeyMajor(key);
    SmallKeys();
    var raw := Serialize(key);
    if Hashable(key) && (seen == [] || LengthFirst(EntryKey(seen[|seen| - 1]), raw)) {
      forall i | 0 <= i < |seen| ensures LengthFirst(keys[i], raw) {
        LengthFirstIsStrictTotal();
      }
      forall i | 0 <= i < |seen|
        ensures KeyEq(seen[i].key, key) <==> (raw == [0xF4] && keys[i] == [0x00]) || (raw == [0xF5] && keys[i] == [0x01])
      {
        KeyTwins(seen[i].key, key);
      }
      if HasKey(seen, key) {
        var i :| 0 <= i < |seen| && KeyEq(seen[i].key, key);
        assert keys[i] in keys;
      }
    }
  }

  /** Below a key, only the integer twin of a boolean is the same dict key. */
  lemma KeyTwins(a: Value, b: Value)
    requires Supported(a) && Supported(b) && LengthFirst(Serialize(a), Serialize(b))
    ensures KeyEq(a, b) <==>
            || (Serialize(b) == [0xF4] && Serialize(a) == [0x00])
            || (Serialize(b) == [0xF5] && Serialize(a) == [0x01])
  {
    SmallKeys();
    LexIrreflexive(Serialize(a));
    if Serialize(b) == [0xF4] {
      SerializeInjective(b, Bool(false));
      if Serialize(a) == [0x00] {
        SerializeInjective(a, Int(0));
      }
    }
    if Serialize(b) == [0xF5] {
      SerializeInjective(b, Bool(true));
      if Serialize(a) == [0x01] {
        SerializeInjective(a, Int(1));
      }
    }
  }

  lemma SeenExtends(seen: seq<Entry>, keys: seq<seq<byte>>, e: Entry)
    requires SeenAs(seen, keys) && Supported(e.key) && Admissible(EntryKey(e), keys)
    ensures SeenAs(seen + [e], keys + [EntryKey(e)])
  {
    AdmissibleIff(seen, keys, e.key);
    ExtendValidKeys(seen, e);
    var all := seen + [e];
    forall i, j | 0 <= i < j < |all| ensures LengthFirst(EntryKey(all[i]), EntryKey(all[j])) {
      if j == |seen| && i < |seen| - 1 {
        LengthFirstIsStrictTotal();
      }
    }
  }

  /** A key and a value spell their bytes exactly when each does. */
  lemma EntrySpells(e: Entry, k: nat, m: nat, tail: seq<byte>, s: seq<byte>, t: nat)
    requires Decode(s) == Got(e.key, k) && Decode(s[k..]) == Got(e.value, m) && k + m + t <= |s|
    ensures ItemOf(e).key + ItemOf(e).value + tail == s[..k + m + t] <==>
            && Serialize(e.key) == s[..k]
            && Serialize(e.value) == s[k..][..m]
            && tail == s[k + m..][..t]
  {
    hide Decode, Serialize;
    var a, b := Serialize(e.key), Serialize(e.value);
    assert a + b + tail == a + (b + tail);
    ItemSplits(e.key, k, b + tail, s, m + t);
    ItemSplits(e.value, m, tail, s[k..], t);
    assert s[k..][m..] == s[k + m..];
  }

  lemma EntriesSpell(e: Entry, tail: seq<Entry>, k: nat, m: nat, s: seq<byte>, t: nat)
    requires k + m + t <= |s|
    requires Decode(s) == Got(e.key, k) && Decode(s[k..]) == Got(e.value, m)
    ensures SpellsEntries([e] + tail, s, k + m + t) <==>
            Spells(e.key, s, k) && Spells(e.value, s[k..], m) && SpellsEntries(tail, s[k + m..], t)
  {
    hide Decode, Join, ItemsOf;
    JoinFirst(e, tail);
    assert ([e] + tail)[1..] == tail && ([e] + tail)[0] == e;
    assert OrderedEntries([e] + tail) <==> OrderedEntry(e) && OrderedEntries(tail);
    EntrySpells(e, k, m, Join(ItemsOf(tail)), s, t);
  }

  /** One more entry: reproducing the dict from `seen` is reproducing it from `seen + [e]` and the entry itself. */
  lemma EntryStep(s: seq<byte>, count: nat, seen: seq<Entry>, e: Entry, k: nat, m: nat)
    requires count > 0 && ValidKeys(seen)
    requires Decode(s) == Got(e.key, k) && Decode(s[k..]) == Got(e.value, m)
    requires Hashable(e.key) && !HasKey(seen, e.key)
    ensures match DecodeEntries(s[k + m..], count - 1, seen + [e])
            case Fail(f) => DecodeEntries(s, count, seen) == Fail(f)
            case Got(all, t) => DecodeEntries(s, count, seen) == Got(all, k + m + t)
    ensures EntriesReproduce(s, count, seen) <==>
            Spells(e.key, s, k) && Spells(e.value, s[k..], m) && EntriesReproduce(s[k + m..], count - 1, seen + [e])
  {
    hide Decode, Serialize, Ordered, ItemsOf, Join, Spells, SpellsEntries, KeyEq;
    var rest := s[k + m..];
    assert DecodeEntry(s, seen) == Got(e, k + m);
    if DecodeEntries(rest, count - 1, seen + [e]).Got? {
      var Got(all, t) := DecodeEntries(rest, count - 1, seen + [e]);
      assert |seen| < |all| && all[|seen|] == e by {
        ExtendValidKeys(seen, e);
        DecodedEntriesSupported(rest, count - 1, seen + [e]);
        assert all[..|seen| + 1][|seen|] == e;
      }
      assert |seen + [e]| == |seen| + 1;
      assert all[|seen|..] == [e] + all[|seen| + 1..];
      EntriesSpell(e, all[|seen| + 1..], k, m, s, t);
    }
  }

  lemma AscendingStep(all: seq<Entry>, i: nat)
    requires i + 1 < |all| && Ascending(all, EntryKey, LengthFirst)
    ensures LengthFirst(EntryKey(all[i]), EntryKey(all[i + 1]))
  {
  }

  /** Reproducing the dict forces the next key to be above the last one. */
  lemma NextKeyAbove(s: seq<byte>, count: nat, seen: seq<Entry>, e: Entry)
    requires ValidKeys(seen + [e]) && seen != []
    requires EntriesReproduce(s, count, seen + [e])
    ensures LengthFirst(EntryKey(seen[|seen| - 1]), EntryKey(e))
  {
    hide DecodeEntries, ValidKeys, Serialize;
    var all := DecodeEntries(s, count, seen + [e]).value;
    DecodedEntriesSupported(s, count, seen + [e]);
    assert all[..|seen| + 1][|seen|] == e && all[..|seen| + 1][|seen| - 1] == seen[|seen| - 1];
    AscendingStep(all, |seen| - 1);
  }

  /** The two sides of the next lemma, related to those one entry later. */
  lemma StrictStep(s: seq<byte>, count: nat, keys: seq<seq<byte>>, k: nat, m: nat)
    requires count > 0 && Strict(s) == Some(k) && Strict(s[k..]) == Some(m) && Admissible(s[..k], keys)
    ensures match StrictEntries(s[k + m..], count - 1, keys + [s[..k]])
            case None => StrictEntries(s, count, keys) == None
            case Some(t) => StrictEntries(s, count, keys) == Some(k + m + t)
  {
    hide Strict, Admissible;
    assert StrictEntry(s, keys) == Some((k, m));
  }

  /** The statement of `StrictEntriesIffReproduce`. */
  ghost predicate EntriesAgree(s: seq<byte>, count: nat, seen: seq<Entry>, keys: seq<seq<byte>>) {
    && (StrictEntries(s, count, keys).Some? <==> EntriesReproduce(s, count, seen))
    && (StrictEntries(s, count, keys).Some? ==>
          StrictEntries(s, count, keys).value == DecodeEntries(s, count, seen).used)
  }

  lemma EntryAgrees(s: seq<byte>, count: nat, seen: seq<Entry>, keys: seq<seq<byte>>, e: Entry, k: nat, m: nat)
    requires count > 0 && SeenAs(seen, keys) && Supported(e.key)
    requires Decode(s) == Got(e.key, k) && Decode(s[k..]) == Got(e.value, m)
    requires Hashable(e.key) && !HasKey(seen, e.key)
    requires Strict(s) == if Spells(e.key, s, k) then Some(k) else None
    requires Strict(s[k..]) == if Spells(e.value, s[k..], m) then Some(m) else None
    requires Admissible(EntryKey(e), keys) ==> EntriesAgree(s[k + m..], count - 1, seen + [e], keys + [EntryKey(e)])
    ensures EntriesAgree(s, count, seen, keys)
  {
    hide Decode, Serialize, Strict, Ordered, Admissible, SpellsEntries, Ascending, DecodeEntries, Hashable, HasKey, ValidKeys, Supported;
    EntryStep(s, count, seen, e, k, m);
    if Spells(e.key, s, k) && Spells(e.value, s[k..], m) {
      if Admissible(EntryKey(e), keys) {
        StrictStep(s, count, keys, k, m);
      } else {
        assert StrictEntry(s, keys).None?;
        AdmissibleIff(seen, keys, e.key);
        ExtendValidKeys(seen, e);
        if EntriesReproduce(s[k + m..], count - 1, seen + [e]) {
          NextKeyAbove(s[k + m..], count - 1, seen, e);
          assert false;
        }
      }
    } else {
      assert StrictEntry(s, keys).None?;
    }
  }

  lemma {:induction false} StrictEntriesIffReproduce(s: seq<byte>, count: nat, seen: seq<Entry>, keys: seq<seq<byte>>)
    requires SeenAs(seen, keys)
    ensures EntriesAgree(s, count, seen, keys)
    decreases |s|, 3
  {
    hide Decode, Serialize, Strict, Supported, HasKey;
    if count == 0 {
      assert seen[|seen|..] == [];
    } else {
      StrictIffReproduces(s);
      if Decode(s).Got? {
        var Got(key, k) := Decode(s);
        StrictIffReproduces(s[k..]);
        DecodedIsSupported(s);
        AdmissibleIff(seen, keys, key);
        if Decode(s[k..]).Got? && Hashable(key) && !HasKey(seen, key) {
          var Got(value, m) := Decode(s[k..]);
          var e := Entry(key, value);
          if Admissible(Serialize(key), keys) {
            SeenExtends(seen, keys, e);
            StrictEntriesIffReproduce(s[k + m..], count - 1, seen + [e], keys + [Serialize(key)]);
          }
          EntryAgrees(s, count, seen, keys, e, k, m);
        } else {
          assert DecodeEntry(s, seen).Fail? && StrictEntry(s, keys).None?;
        }
      } else {
        assert DecodeEntry(s, seen).Fail? && StrictEntry(s, keys).None?;
      }
    }
  }
}
