/**
 The Recorder's CBOR subset: the deterministic encoder and the offset-advancing
 decoder.  Python text is represented by its UTF-8 bytes, a Python dict by its
 entries in insertion order.
 */
module Cbor {
  import opened Basics
  import opened Bytes
  import opened Sorting

  datatype Value =
    | Null
    | Bool(flag: bool)
    | Int(number: int)
    | Blob(bytes: seq<byte>)
    | Text(utf8: seq<byte>)
    | Array(items: seq<Value>)
    | Map(entries: seq<Entry>)

  datatype Entry = Entry(key: Value, value: Value)

  // ------------------------------------------------------------- Python values

  predicate Continuation(s: seq<byte>, i: nat) {
    i < |s| && 0x80 <= s[i] <= 0xBF
  }

  /** Strict UTF-8 as defined by RFC 3629: no overlong forms, no surrogates. */
  predicate ValidUtf8(s: seq<byte>) {
    if s == [] then true
    else if s[0] <= 0x7F then ValidUtf8(s[1..])
    else if 0xC2 <= s[0] <= 0xDF then Continuation(s, 1) && ValidUtf8(s[2..])
    else if 0xE0 <= s[0] <= 0xEF then
      && Continuation(s, 1) && Continuation(s, 2)
      && (s[0] == 0xE0 ==> s[1] >= 0xA0) && (s[0] == 0xED ==> s[1] <= 0x9F)
      && ValidUtf8(s[3..])
    else if 0xF0 <= s[0] <= 0xF4 then
      && Continuation(s, 1) && Continuation(s, 2) && Continuation(s, 3)
      && (s[0] == 0xF0 ==> s[1] >= 0x90) && (s[0] == 0xF4 ==> s[1] <= 0x8F)
      && ValidUtf8(s[4..])
    else false
  }

  /** Lists and dicts cannot be dict keys. */
  predicate Hashable(v: Value) {
    !v.Array? && !v.Map?
  }

  /** Python's key equality identifies True with 1 and False with 0. */
  predicate KeyEq(a: Value, b: Value) {
    || a == b
    || (a.Bool? && b.Int? && b.number == if a.flag then 1 else 0)
    || (b.Bool? && a.Int? && a.number == if b.flag then 1 else 0)
  }

  predicate HasKey(entries: seq<Entry>, key: Value) {
    exists i :: 0 <= i < |entries| && KeyEq(entries[i].key, key)
  }

  predicate ValidKeys(entries: seq<Entry>) {
    && (forall i :: 0 <= i < |entries| ==> Hashable(entries[i].key))
    && (forall i, j :: 0 <= i < j < |entries| ==> !KeyEq(entries[i].key, entries[j].key))
  }

  /** A Python value that the encoder accepts: every argument fits the eight-byte head. */
  predicate Supported(v: Value) {
    match v
    case Null => true
    case Bool(_) => true
    case Int(n) => n <= U64_MAX && -1 - n <= U64_MAX
    case Blob(b) => |b| < TWO_64
    case Text(t) => |t| < TWO_64 && ValidUtf8(t)
    case Array(items) => |items| < TWO_64 && SupportedAll(items)
    case Map(entries) => |entries| < TWO_64 && ValidKeys(entries) && SupportedEntries(entries)
  }

  predicate SupportedAll(items: seq<Value>) {
    items == [] || (Supported(items[0]) && SupportedAll(items[1..]))
  }

  predicate SupportedEntries(entries: seq<Entry>) {
    entries == [] || (SupportedEntry(entries[0]) && SupportedEntries(entries[1..]))
  }

  predicate SupportedEntry(e: Entry) {
    Supported(e.key) && Supported(e.value)
  }

  // ------------------------------------------------------------------- encoder

  function Head(major: nat, value: nat): (h: seq<byte>)
    requires major < 8
    ensures 1 <= |h| <= 9
  {
    if value < 24 then [major * 32 + value]
    else if value <= 0xFF then [major * 32 + 24] + ToBE(value, 1)
    else if value <= 0xFFFF then [major * 32 + 25] + ToBE(value, 2)
    else if value <= 0xFFFF_FFFF then [major * 32 + 26] + ToBE(value, 4)
    else [major * 32 + 27] + ToBE(value, 8)
  }

  function CborHead(major: nat, value: int): Option<seq<byte>>
    requires major < 8
  {
    if value < 0 || value > U64_MAX then None else Some(Head(major, value))
  }

  /** One encoded dict item. */
  datatype Item = Item(key: seq<byte>, value: seq<byte>)

  function ItemKey(item: Item): seq<byte> {
    item.key
  }

  /** Python's order on `(len(key), key)`. */
  predicate LengthFirst(a: seq<byte>, b: seq<byte>) {
    |a| < |b| || (|a| == |b| && LexLess(a, b))
  }

  function Join(items: seq<Item>): seq<byte> {
    if items == [] then [] else items[0].key + items[0].value + Join(items[1..])
  }

  function Prefixed(head: Option<seq<byte>>, body: seq<byte>): Option<seq<byte>> {
    match head case None => None case Some(h) => Some(h + body)
  }

  /** `canonical_cbor`: `None` when an argument does not fit eight bytes. */
  function Encode(v: Value): Option<seq<byte>> {
    match v
    case Null => Some([0xF6])
    case Bool(flag) => Some([if flag then 0xF5 else 0xF4])
    case Int(n) => if n >= 0 then CborHead(0, n) else CborHead(1, -1 - n)
    case Blob(b) => Prefixed(CborHead(2, |b|), b)
    case Text(t) => Prefixed(CborHead(3, |t|), t)
    case Array(items) =>
      (match EncodeAll(items)
       case None => None
       case Some(body) => Prefixed(CborHead(4, |items|), body))
    case Map(entries) =>
      (match EncodeEntries(entries)
       case None => None
       case Some(items) => Prefixed(CborHead(5, |items|), Join(SortBy(items, ItemKey, LengthFirst))))
  }

  function EncodeAll(items: seq<Value>): Option<seq<byte>> {
    if items == [] then Some([])
    else
      match (Encode(items[0]), EncodeAll(items[1..]))
      case (Some(first), Some(rest)) => Some(first + rest)
      case _ => None
  }

  function EncodeEntry(e: Entry): Option<Item> {
    match (Encode(e.key), Encode(e.value))
    case (Some(k), Some(v)) => Some(Item(k, v))
    case _ => None
  }

  function EncodeEntries(entries: seq<Entry>): Option<seq<Item>> {
    if entries == [] then Some([])
    else
      match (EncodeEntry(entries[0]), EncodeEntries(entries[1..]))
      case (Some(item), Some(rest)) => Some([item] + rest)
      case _ => None
  }

  // ------------------------------------------------------------------- decoder

  datatype Fault =
    | Truncated | UnsupportedArgument | InvalidUtf8 | UnhashableKey | DuplicateKey | UnsupportedType

  /** A decoded value and the number of bytes it used, or the error raised. */
  datatype Decoded<+T> = Got(value: T, used: nat) | Fail(fault: Fault)

  function ArgumentSize(additional: nat): nat {
    if additional == 24 then 1
    else if additional == 25 then 2
    else if additional == 26 then 4
    else if additional == 27 then 8
    else 0
  }

  function Argument(s: seq<byte>, additional: nat): (r: Decoded<nat>)
    ensures r.Got? ==> r.used <= |s|
  {
    if additional < 24 then Got(additional, 0)
    else if ArgumentSize(additional) == 0 then Fail(UnsupportedArgument)
    else if |s| < ArgumentSize(additional) then Fail(Truncated)
    else Got(FromBE(s[..ArgumentSize(additional)]), ArgumentSize(additional))
  }

  /** The same result, reached after `k` earlier bytes. */
  function After<T>(k: nat, r: Decoded<T>): Decoded<T> {
    match r
    case Got(v, used) => Got(v, k + used)
    case Fail(f) => Fail(f)
  }

  /** The item that starts `s`. */
  function Decode(s: seq<byte>): (r: Decoded<Value>)
    ensures r.Got? ==> 1 <= r.used <= |s|
    decreases |s|, 1
  {
    if s == [] then Fail(Truncated)
    else
      var major, additional := s[0] / 32, s[0] % 32;
      if major <= 5 then
        match Argument(s[1..], additional)
        case Fail(f) => Fail(f)
        case Got(n, k) => After(1 + k, DecodeBody(s[1 + k..], major, n))
      else if major == 7 && additional == 20 then Got(Bool(false), 1)
      else if major == 7 && additional == 21 then Got(Bool(true), 1)
      else if major == 7 && additional == 22 then Got(Null, 1)
      else Fail(UnsupportedType)
  }

  /** What follows a head that carried `major` and the argument `n`. */
  function DecodeBody(s: seq<byte>, major: nat, n: nat): (r: Decoded<Value>)
    requires major <= 5
    ensures r.Got? ==> r.used <= |s|
    decreases |s|, 4
  {
    if major == 0 then Got(Int(n), 0)
    else if major == 1 then Got(Int(-1 - n), 0)
    else if major <= 3 then
      if |s| < n then Fail(Truncated)
      else if major == 2 then Got(Blob(s[..n]), n)
      else if ValidUtf8(s[..n]) then Got(Text(s[..n]), n)
      else Fail(InvalidUtf8)
    else if major == 4 then
      match DecodeItems(s, n)
      case Fail(f) => Fail(f)
      case Got(items, k) => Got(Array(items), k)
    else
      match DecodeEntries(s, n, [])
      case Fail(f) => Fail(f)
      case Got(entries, k) => Got(Map(entries), k)
  }

  function DecodeItems(s: seq<byte>, count: nat): (r: Decoded<seq<Value>>)
    ensures r.Got? ==> r.used <= |s|
    decreases |s|, 2
  {
    if count == 0 then Got([], 0)
    else
      match Decode(s)
      case Fail(f) => Fail(f)
      case Got(v, k) =>
        match DecodeItems(s[k..], count - 1)
        case Fail(f) => Fail(f)
        case Got(vs, m) => Got([v] + vs, k + m)
  }

  /** The next entry of a dict that already holds `seen`. */
  function DecodeEntry(s: seq<byte>, seen: seq<Entry>): (r: Decoded<Entry>)
    ensures r.Got? ==> 1 <= r.used <= |s|
    decreases |s|, 2
  {
    match Decode(s)
    case Fail(f) => Fail(f)
    case Got(key, k) =>
      if !Hashable(key) then Fail(UnhashableKey)
      else if HasKey(seen, key) then Fail(DuplicateKey)
      else
        match Decode(s[k..])
        case Fail(f) => Fail(f)
        case Got(value, m) => Got(Entry(key, value), k + m)
  }

  /** The dict built so far is `seen`; the result is the whole dict. */
  function DecodeEntries(s: seq<byte>, count: nat, seen: seq<Entry>): (r: Decoded<seq<Entry>>)
    ensures r.Got? ==> r.used <= |s|
    decreases |s|, 3
  {
    if count == 0 then Got(seen, 0)
    else
      match DecodeEntry(s, seen)
      case Fail(f) => Fail(f)
      case Got(e, k) => After(k, DecodeEntries(s[k..], count - 1, seen + [e]))
  }

  /** `_decode_canonical_cbor`: decode, require the end of input, re-encode, compare. */
  function DecodeCanonical(data: seq<byte>): Option<Value> {
    match Decode(data)
    case Fail(_) => None
    case Got(v, used) => if used == |data| && Encode(v) == Some(data) then Some(v) else None
  }

  // ------------------------------------------------------ the decoder as written

  class Decoder {
    const data: seq<byte>
    var offset: nat

    constructor (data: seq<byte>)
      ensures this.data == data && offset == 0
    {
      this.data := data;
      offset := 0;
    }

    method Take(count: nat) returns (block: Result<seq<byte>, Fault>)
      requires offset <= |data|
      modifies this
      ensures block.Ok? <==> old(offset) + count <= |data|
      ensures block.Ok? ==> offset == old(offset) + count && block.value == data[old(offset)..offset]
      ensures block.Err? ==> block.error == Truncated && offset == old(offset)
    {
      var end := offset + count;
      if end > |data| {
        return Err(Truncated);
      }
      block := Ok(data[offset..end]);
      offset := end;
    }

    method ReadArgument(additional: nat) returns (r: Result<nat, Fault>)
      requires offset <= |data|
      modifies this
      ensures old(offset) <= offset <= |data|
      ensures match Argument(data[old(offset)..], additional)
              case Got(n, k) => r == Ok(n) && offset == old(offset) + k
              case Fail(f) => r == Err(f)
    {
      if additional < 24 {
        return Ok(additional);
      }
      var size := ArgumentSize(additional);
      if size == 0 {
        return Err(UnsupportedArgument);
      }
      ghost var rest := data[offset..];
      var block := Take(size);
      if block.Err? {
        return Err(block.error);
      }
      assert block.value == rest[..size];
      r := Ok(FromBE(block.value));
    }

    /** Reads one item, in exactly the way `Decode` describes on the remaining input. */
    method DecodeValue() returns (r: Result<Value, Fault>)
      requires offset <= |data|
      modifies this
      ensures old(offset) <= offset <= |data|
      ensures match Decode(data[old(offset)..])
              case Got(v, k) => r == Ok(v) && offset == old(offset) + k
              case Fail(f) => r == Err(f)
      decreases |data| - offset, 1
    {
      ghost var start, rest := offset, data[offset..];
      var initial := Take(1);
      if initial.Err? {
        return Err(initial.error);
      }
      var major, additional := initial.value[0] / 32, initial.value[0] % 32;
      assert rest[0] == initial.value[0] && rest[1..] == data[offset..];
      if major <= 5 {
        var argument := ReadArgument(additional);
        if argument.Err? {
          return Err(argument.error);
        }
        assert rest[offset - start..] == data[offset..];
        r := ReadBody(major, argument.value);
        return;
      }
      if major == 7 && additional == 20 {
        return Ok(Bool(false));
      } else if major == 7 && additional == 21 {
        return Ok(Bool(true));
      } else if major == 7 && additional == 22 {
        return Ok(Null);
      }
      return Err(UnsupportedType);
    }

    method ReadBody(major: nat, n: nat) returns (r: Result<Value, Fault>)
      requires offset <= |data| && major <= 5
      modifies this
      ensures old(offset) <= offset <= |data|
      ensures match DecodeBody(data[old(offset)..], major, n)
              case Got(v, k) => r == Ok(v) && offset == old(offset) + k
              case Fail(f) => r == Err(f)
      decreases |data| - offset, 4
    {
      if major == 0 {
        return Ok(Int(n));
      } else if major == 1 {
        return Ok(Int(-1 - n as int));
      } else if major <= 3 {
        ghost var rest := data[offset..];
        var block := Take(n);
        if block.Err? {
          return Err(block.error);
        }
        assert block.value == rest[..n];
        if major == 2 {
          return Ok(Blob(block.value));
        }
        return if ValidUtf8(block.value) then Ok(Text(block.value)) else Err(InvalidUtf8);
      } else if major == 4 {
        var items := ReadItems(n);
        return if items.Ok? then Ok(Array(items.value)) else Err(items.error);
      }
      var entries := ReadEntries(n);
      return if entries.Ok? then Ok(Map(entries.value)) else Err(entries.error);
    }

    method ReadItems(count: nat) returns (r: Result<seq<Value>, Fault>)
      requires offset <= |data|
      modifies this
      ensures old(offset) <= offset <= |data|
      ensures match DecodeItems(data[old(offset)..], count)
              case Got(vs, k) => r == Ok(vs) && offset == old(offset) + k
              case Fail(f) => r == Err(f)
      decreases |data| - offset, 2
    {
      hide Decode;
      var items: seq<Value> := [];
      var left := count;
      ghost var whole := DecodeItems(data[offset..], count);
      assert whole.Got? ==> items + whole.value == whole.value;
      while left > 0
        invariant old(offset) <= offset <= |data|
        invariant ItemsContinue(whole, items, DecodeItems(data[offset..], left), offset - old(offset))
        decreases left
      {
        ghost var rest, at := data[offset..], offset;
        var item := DecodeValue();
        if item.Err? {
          return Err(item.error);
        }
        assert rest[offset - at..] == data[offset..];
        ghost var later := DecodeItems(data[offset..], left - 1);
        assert later.Got? ==> items + ([item.value] + later.value) == (items + [item.value]) + later.value;
        items, left := items + [item.value], left - 1;
      }
      assert items + [] == items;
      return Ok(items);
    }

    method ReadEntry(dict: seq<Entry>) returns (r: Result<Entry, Fault>)
      requires offset <= |data|
      modifies this
      ensures old(offset) <= offset <= |data|
      ensures match DecodeEntry(data[old(offset)..], dict)
              case Got(e, k) => r == Ok(e) && offset == old(offset) + k
              case Fail(f) => r == Err(f)
      decreases |data| - offset, 2
    {
      ghost var rest, at := data[offset..], offset;
      var key := DecodeValue();
      if key.Err? {
        return Err(key.error);
      }
      assert rest[offset - at..] == data[offset..];
      if !Hashable(key.value) {
        return Err(UnhashableKey);
      }
      if HasKey(dict, key.value) {
        return Err(DuplicateKey);
      }
      var value := DecodeValue();
      if value.Err? {
        return Err(value.error);
      }
      return Ok(Entry(key.value, value.value));
    }

    method ReadEntries(count: nat) returns (r: Result<seq<Entry>, Fault>)
      requires offset <= |data|
      modifies this
      ensures old(offset) <= offset <= |data|
      ensures match DecodeEntries(data[old(offset)..], count, [])
              case Got(es, k) => r == Ok(es) && offset == old(offset) + k
              case Fail(f) => r == Err(f)
      decreases |data| - offset, 3
    {
      hide DecodeEntry;
      var dict: seq<Entry> := [];
      var left := count;
      ghost var whole := DecodeEntries(data[offset..], count, []);
      while left > 0
        invariant old(offset) <= offset <= |data|
        invariant whole == After(offset - old(offset), DecodeEntries(data[offset..], left, dict))
        decreases left
      {
        ghost var rest, at := data[offset..], offset;
        var entry := ReadEntry(dict);
        if entry.Err? {
          return Err(entry.error);
        }
        assert rest[offset - at..] == data[offset..];
        dict, left := dict + [entry.value], left - 1;
      }
      return Ok(dict);
    }
  }

  ghost predicate ItemsContinue(whole: Decoded<seq<Value>>, done: seq<Value>, later: Decoded<seq<Value>>, skipped: nat) {
    match later
    case Got(vs, k) => whole == Got(done + vs, skipped + k)
    case Fail(f) => whole == Fail(f)
  }
}
