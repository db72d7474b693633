/**
 A reader for the grammar of RFC 8259, written from the standard and independently of the
 writer.  Numbers are limited to the unsigned 64-bit integers that the tree can hold.
 */
module JsonReader {
  import opened Basics
  import opened JsonWriter

  datatype Parsed<+T> = Fail | Got(value: T, rest: string)

  // ------------------------------------------------------------ strings (section 7)

  function HexValue(c: char): (r: Option<nat>)
    ensures r.Some? ==> r.value < 16
  {
    if '0' <= c <= '9' then Some((c - '0') as nat)
    else if 'a' <= c <= 'f' then Some((c - 'a') as nat + 10)
    else if 'A' <= c <= 'F' then Some((c - 'A') as nat + 10)
    else None
  }

  function HexPair(high: Option<nat>, low: Option<nat>, base: nat): Option<nat> {
    if high.Some? && low.Some? then Some(high.value * base + low.value) else None
  }

  function HexValues(s: string): (r: Option<nat>)
    requires |s| == 4
    ensures r.Some? ==> r.value < 0x10000
  {
    HexPair(HexPair(HexValue(s[0]), HexValue(s[1]), 16), HexPair(HexValue(s[2]), HexValue(s[3]), 16), 256)
  }

  /** The four digits after `\u`, joined with the second half of a surrogate pair if need be. */
  function ReadUnicode(s: string): (r: Parsed<char>)
    ensures r.Got? ==> |r.rest| < |s|
  {
    if |s| < 4 || HexValues(s[..4]).None? then Fail
    else
      var high := HexValues(s[..4]).value;
      if high < 0xD800 || 0xE000 <= high then Got(high as char, s[4..])
      else if high >= 0xDC00 || |s| < 10 || s[4..6] != "\\u" || HexValues(s[6..10]).None? then Fail
      else
        var low := HexValues(s[6..10]).value;
        if low < 0xDC00 || 0xE000 <= low then Fail
        else Got((0x10000 + (high - 0xD800) * 0x400 + (low - 0xDC00)) as char, s[10..])
  }

  function ReadEscape(s: string): (r: Parsed<char>)
    ensures r.Got? ==> |r.rest| < |s|
  {
    if s == "" then Fail
    else match s[0]
      case '"' => Got('"', s[1..])
      case '\\' => Got('\\', s[1..])
      case '/' => Got('/', s[1..])
      case 'b' => Got('\U{8}', s[1..])
      case 'f' => Got('\U{c}', s[1..])
      case 'n' => Got('\n', s[1..])
      case 'r' => Got('\r', s[1..])
      case 't' => Got('\t', s[1..])
      case 'u' => ReadUnicode(s[1..])
      case _ => Fail
  }

  /** One character of a string body. */
  function ReadChar(s: string): (r: Parsed<char>)
    ensures r.Got? ==> |r.rest| < |s|
  {
    if s == "" || s[0] == '"' || s[0] < ' ' then Fail
    else if s[0] == '\\' then ReadEscape(s[1..])
    else Got(s[0], s[1..])
  }

  /** Everything up to and including the closing quotation mark. */
  function ReadChars(s: string): (r: Parsed<string>)
    ensures r.Got? ==> |r.rest| < |s|
    decreases |s|
  {
    if s == "" then Fail
    else if s[0] == '"' then Got("", s[1..])
    else
      var c := ReadChar(s);
      if c.Fail? then Fail
      else
        var tail := ReadChars(c.rest);
        if tail.Fail? then Fail else Got([c.value] + tail.value, tail.rest)
  }

  function ReadString(s: string): (r: Parsed<string>)
    ensures r.Got? ==> |r.rest| < |s|
  {
    if s == "" || s[0] != '"' then Fail else ReadChars(s[1..])
  }

  // ------------------------------------------------------------ numbers (section 6)

  predicate IsDigit(c: char) {
    '0' <= c <= '9'
  }

  function DigitCount(s: string): (n: nat)
    ensures n <= |s|
  {
    if s == "" || !IsDigit(s[0]) then 0 else 1 + DigitCount(s[1..])
  }

  function DecimalValue(s: string): nat {
    if s == "" then 0
    else 10 * DecimalValue(s[..|s| - 1]) + (if IsDigit(s[|s| - 1]) then (s[|s| - 1] - '0') as nat else 0)
  }

  /** No leading zero; a fraction or an exponent may not follow. */
  function ReadNumber(s: string): (r: Parsed<u64>)
    ensures r.Got? ==> |r.rest| < |s|
  {
    var n := DigitCount(s);
    if n == 0 || (s[0] == '0' && n > 1) || Fractional(s[n..]) || DecimalValue(s[..n]) > U64_MAX then Fail
    else Got(DecimalValue(s[..n]), s[n..])
  }

  predicate Fractional(s: string) {
    s != "" && (s[0] == '.' || s[0] == 'e' || s[0] == 'E')
  }

  // ----------------------------------------------- values, arrays, objects (2 to 5)

  function SkipSpace(s: string): (r: string)
    ensures |r| <= |s|
  {
    if s != "" && (s[0] == ' ' || s[0] == '\t' || s[0] == '\n' || s[0] == '\r') then SkipSpace(s[1..]) else s
  }

  function ReadWord(s: string, word: string, t: Json): (r: Parsed<Json>)
    requires word != ""
    ensures r.Got? ==> |r.rest| < |s|
  {
    if word <= s then Got(t, s[|word|..]) else Fail
  }

  function Mapped<T, U>(p: Parsed<T>, f: T -> U): (r: Parsed<U>)
    ensures r.Got? <==> p.Got?
    ensures p.Got? ==> r == Got(f(p.value), p.rest)
  {
    if p.Fail? then Fail else Got(f(p.value), p.rest)
  }

  function ReadValue(s: string): (r: Parsed<Json>)
    ensures r.Got? ==> |r.rest| < |s|
    decreases |s|, 0
  {
    if s == "" then Fail
    else if s[0] == '"' then Mapped(ReadString(s), x => Text(x))
    else if s[0] == '[' then Mapped(ReadArray(SkipSpace(s[1..])), x => Array(x))
    else if s[0] == '{' then Mapped(ReadObject(SkipSpace(s[1..])), x => Object(x))
    else if s[0] == 'n' then ReadWord(s, "null", Null)
    else if s[0] == 't' then ReadWord(s, "true", Bool(true))
    else if s[0] == 'f' then ReadWord(s, "false", Bool(false))
    else Mapped(ReadNumber(s), x => Number(x))
  }

  function ReadArray(s: string): (r: Parsed<seq<Json>>)
    ensures r.Got? ==> |r.rest| < |s|
    decreases |s|, 2
  {
    if s != "" && s[0] == ']' then Got([], s[1..]) else ReadItems(s)
  }

  function ReadItems(s: string): (r: Parsed<seq<Json>>)
    ensures r.Got? ==> |r.rest| < |s|
    decreases |s|, 1
  {
    var head := ReadValue(s);
    if head.Fail? then Fail
    else
      var after := SkipSpace(head.rest);
      if after == "" then Fail
      else if after[0] == ']' then Got([head.value], after[1..])
      else if after[0] != ',' then Fail
      else
        var tail := ReadItems(SkipSpace(after[1..]));
        if tail.Fail? then Fail else Got([head.value] + tail.value, tail.rest)
  }

  function ReadMember(s: string): (r: Parsed<Member>)
    ensures r.Got? ==> |r.rest| < |s|
    decreases |s|, 0
  {
    var key := ReadString(s);
    if key.Fail? then Fail
    else
      var colon := SkipSpace(key.rest);
      if colon == "" || colon[0] != ':' then Fail
      else
        var value := ReadValue(SkipSpace(colon[1..]));
        if value.Fail? then Fail else Got(Member(key.value, value.value), value.rest)
  }

  function ReadObject(s: string): (r: Parsed<seq<Member>>)
    ensures r.Got? ==> |r.rest| < |s|
    decreases |s|, 2
  {
    if s != "" && s[0] == '}' then Got([], s[1..]) else ReadMembers(s)
  }

  function ReadMembers(s: string): (r: Parsed<seq<Member>>)
    ensures r.Got? ==> |r.rest| < |s|
    decreases |s|, 1
  {
    var head := ReadMember(s);
    if head.Fail? then Fail
    else
      var after := SkipSpace(head.rest);
      if after == "" then Fail
      else if after[0] == '}' then Got([head.value], after[1..])
      else if after[0] != ',' then Fail
      else
        var tail := ReadMembers(SkipSpace(after[1..]));
        if tail.Fail? then Fail else Got([head.value] + tail.value, tail.rest)
  }

  /** A JSON text: one value with optional white space around it. */
  function ReadDocument(s: string): Option<Json> {
    var r := ReadValue(SkipSpace(s));
    if r.Got? && SkipSpace(r.rest) == "" then Some(r.value) else None
  }

  // ------------------------------------------------------------- strings read back

  lemma HexRoundTrip(n: nat)
    requires n < 16
    ensures HexValue(HexDigit(n)) == Some(n)
  {
  }

  lemma UnicodeReads(c: char, rest: string)
    requires c < ' '
    ensures ReadUnicode("00" + [HexDigit(c as nat / 16), HexDigit(c as nat % 16)] + rest) == Got(c, rest)
  {
    hide HexDigit, HexValue;
    var d := "00" + [HexDigit(c as nat / 16), HexDigit(c as nat % 16)];
    var s := d + rest;
    assert s[..4] == d && s[4..] == rest;
    HexRoundTrip(c as nat / 16);
    HexRoundTrip(c as nat % 16);
    HexRoundTrip(0);
    assert HexDigit(0) == '0' by { HexZero(); }
    assert HexValues(d) == Some(c as nat);
  }

  lemma HexZero()
    ensures HexDigit(0) == '0'
  {
  }

  lemma EscapeReads(c: char, rest: string)
    ensures ReadChar(Escape(c) + rest) == Got(c, rest)
    ensures (Escape(c) + rest)[0] != '"'
  {
    hide ReadUnicode, HexDigit;
    var s := Escape(c) + rest;
    assert s[|Escape(c)|..] == rest;
    if Escape(c) == [c] {
      assert s[1..] == rest;
    } else if |Escape(c)| == 2 {
      assert s[1..][1..] == rest;
    } else {
      UnicodeReads(c, rest);
      assert s[1..][1..] == "00" + [HexDigit(c as nat / 16), HexDigit(c as nat % 16)] + rest;
    }
  }

  /** Section 7 unescaping inverts the writer's escaping, in front of anything. */
  lemma {:induction false} EscapedReads(text: string, rest: string)
    ensures ReadChars(Escaped(text) + "\"" + rest) == Got(text, rest)
    decreases |text|
  {
    hide ReadChar, Escape;
    var s := Escaped(text) + "\"" + rest;
    if text == "" {
      assert s == "\"" + rest;
      assert s[1..] == rest;
    } else {
      var tail := Escaped(text[1..]) + "\"" + rest;
      assert s == Escape(text[0]) + tail;
      EscapeReads(text[0], tail);
      EscapedReads(text[1..], rest);
      assert [text[0]] + text[1..] == text;
    }
  }

  lemma QuotedReads(text: string, rest: string)
    ensures ReadString(Quoted(text) + rest) == Got(text, rest)
  {
    hide ReadChars, Escaped;
    var s := Quoted(text) + rest;
    assert s[1..] == Escaped(text) + "\"" + rest;
    EscapedReads(text, rest);
  }

  // ------------------------------------------------------------- numbers read back

  lemma {:induction false} DecimalReads(n: nat)
    ensures DecimalValue(Decimal(n)) == n
    ensures forall i :: 0 <= i < |Decimal(n)| ==> IsDigit(Decimal(n)[i])
    ensures Decimal(n)[0] == '0' ==> n == 0
    ensures n == 0 ==> |Decimal(n)| == 1
  {
    if n < 10 {
      assert DecimalValue(Decimal(n)[..0]) == 0;
    } else {
      DecimalReads(n / 10);
      assert Decimal(n)[..|Decimal(n)| - 1] == Decimal(n / 10);
    }
  }

  lemma {:induction false} DigitsCounted(digits: string, rest: string)
    requires forall i :: 0 <= i < |digits| ==> IsDigit(digits[i])
    requires rest != "" ==> !IsDigit(rest[0])
    ensures DigitCount(digits + rest) == |digits|
  {
    if digits == "" {
      assert digits + rest == rest;
    } else {
      DigitsCounted(digits[1..], rest);
      assert (digits + rest)[1..] == digits[1..] + rest;
    }
  }

  /** What may follow a number without extending it. */
  predicate EndsNumber(rest: string) {
    rest != "" ==> !IsDigit(rest[0]) && !Fractional(rest)
  }

  lemma NumberReads(n: u64, rest: string)
    requires EndsNumber(rest)
    ensures ReadNumber(Decimal(n) + rest) == Got(n, rest)
    ensures IsDigit(Decimal(n)[0])
  {
    hide Decimal, DecimalValue, DigitCount;
    DecimalReads(n);
    DigitsCounted(Decimal(n), rest);
    var s := Decimal(n) + rest;
    assert s[..|Decimal(n)|] == Decimal(n) && s[|Decimal(n)|..] == rest;
    assert |Decimal(n)| > 1 ==> s[0] != '0';
  }

  // --------------------------------------------------------------- trees read back

  /** A value's text starts with none of the characters the reader skips or stops at. */
  predicate Starts(s: string) {
    s != "" && (s[0] == '"' || s[0] == '[' || s[0] == '{' || s[0] == 'n' || s[0] == 't' || s[0] == 'f' || IsDigit(s[0]))
  }

  lemma TextStarts(t: Json, rest: string)
    ensures Starts(TextOf(t) + rest) && SkipSpace(TextOf(t) + rest) == TextOf(t) + rest
  {
    if t.Number? {
      NumberReads(t.value, "");
    }
  }

  lemma {:induction false} ItemsTextFirst(ts: seq<Json>)
    requires |ts| > 1
    ensures ItemsText(ts) == TextOf(ts[0]) + "," + ItemsText(ts[1..])
    decreases |ts|
  {
    hide TextOf;
    var n := |ts| - 1;
    if n == 1 {
      assert ts[..1][0] == ts[0] && ts[1..][0] == ts[1];
    } else {
      ItemsTextFirst(ts[..n]);
      assert ts[..n][1..] == ts[1..][..n - 1];
      Concat(TextOf(ts[0]) + ",", ItemsText(ts[1..n]), ",", TextOf(ts[n]));
    }
  }

  lemma {:induction false} MembersTextFirst(ms: seq<Member>)
    requires |ms| > 1
    ensures MembersText(ms) == MemberText(ms[0]) + "," + MembersText(ms[1..])
    decreases |ms|
  {
    hide MemberText;
    var n := |ms| - 1;
    if n == 1 {
      assert ms[..1][0] == ms[0] && ms[1..][0] == ms[1];
    } else {
      MembersTextFirst(ms[..n]);
      assert ms[..n][1..] == ms[1..][..n - 1];
      Concat(MemberText(ms[0]) + ",", MembersText(ms[1..n]), ",", MemberText(ms[n]));
    }
  }

  lemma SkipIdle(s: string)
    requires s != "" && (s[0] == ',' || s[0] == ':' || s[0] == ']' || s[0] == '}' || Starts(s))
    ensures SkipSpace(s) == s
  {
  }

  lemma {:induction false} ItemsRead(ts: seq<Json>, rest: string)
    requires ts != []
    ensures ReadItems(ItemsText(ts) + "]" + rest) == Got(ts, rest)
    ensures Starts(ItemsText(ts) + "]" + rest)
    decreases ts, 0
  {
    hide TextOf, ReadValue, ItemsText;
    var s := ItemsText(ts) + "]" + rest;
    if |ts| == 1 {
      assert s == TextOf(ts[0]) + ("]" + rest) by { OneItem(ts); }
      TextStarts(ts[0], "]" + rest);
      TextReads(ts[0], "]" + rest);
      SkipIdle("]" + rest);
      assert ("]" + rest)[1..] == rest && [ts[0]] == ts;
    } else {
      ItemsTextFirst(ts);
      var later := ItemsText(ts[1..]) + "]" + rest;
      var after := "," + later;
      assert s == TextOf(ts[0]) + after;
      TextStarts(ts[0], after);
      TextReads(ts[0], after);
      SkipIdle(after);
      assert after[1..] == later;
      ItemsRead(ts[1..], rest);
      SkipIdle(later);
      assert [ts[0]] + ts[1..] == ts;
    }
  }

  lemma OneItem(ts: seq<Json>)
    requires |ts| == 1
    ensures ItemsText(ts) == TextOf(ts[0])
  {
  }

  lemma OneMember(ms: seq<Member>)
    requires |ms| == 1
    ensures MembersText(ms) == MemberText(ms[0])
  {
  }

  lemma {:induction false} MemberReads(m: Member, rest: string)
    requires EndsNumber(rest)
    ensures ReadMember(MemberText(m) + rest) == Got(m, rest)
    ensures Starts(MemberText(m) + rest)
    decreases m, 2
  {
    hide TextOf, ReadValue, ReadString;
    var value := TextOf(m.value) + rest;
    var colon := ":" + value;
    assert MemberText(m) + rest == Quoted(m.key) + colon;
    QuotedReads(m.key, colon);
    SkipIdle(colon);
    assert colon[1..] == value;
    TextStarts(m.value, rest);
    TextReads(m.value, rest);
  }

  lemma {:induction false} MembersRead(ms: seq<Member>, rest: string)
    requires ms != []
    ensures ReadMembers(MembersText(ms) + "}" + rest) == Got(ms, rest)
    ensures Starts(MembersText(ms) + "}" + rest)
    decreases ms, 0
  {
    hide MemberText, ReadMember, MembersText;
    var s := MembersText(ms) + "}" + rest;
    if |ms| == 1 {
      assert s == MemberText(ms[0]) + ("}" + rest) by { OneMember(ms); }
      MemberReads(ms[0], "}" + rest);
      SkipIdle("}" + rest);
      assert ("}" + rest)[1..] == rest && [ms[0]] == ms;
    } else {
      MembersTextFirst(ms);
      var later := MembersText(ms[1..]) + "}" + rest;
      var after := "," + later;
      assert s == MemberText(ms[0]) + after;
      MemberReads(ms[0], after);
      SkipIdle(after);
      assert after[1..] == later;
      MembersRead(ms[1..], rest);
      SkipIdle(later);
      assert [ms[0]] + ms[1..] == ms;
    }
  }

  lemma {:induction false} ArrayReads(items: seq<Json>, rest: string)
    ensures ReadValue(TextOf(Array(items)) + rest) == Got(Array(items), rest)
    decreases items, 1
  {
    hide ItemsText, ReadItems;
    var s := TextOf(Array(items)) + rest;
    var inner := ItemsText(items) + "]" + rest;
    assert s[1..] == inner;
    if items == [] {
      assert inner == "]" + rest by { NothingInside(); }
      SkipIdle(inner);
    } else {
      ItemsRead(items, rest);
      SkipIdle(inner);
    }
  }

  lemma {:induction false} ObjectReads(members: seq<Member>, rest: string)
    ensures ReadValue(TextOf(Object(members)) + rest) == Got(Object(members), rest)
    decreases members, 1
  {
    hide MembersText, ReadMembers;
    var s := TextOf(Object(members)) + rest;
    var inner := MembersText(members) + "}" + rest;
    assert s[1..] == inner;
    if members == [] {
      assert inner == "}" + rest by { NothingInside(); }
      SkipIdle(inner);
    } else {
      MembersRead(members, rest);
      SkipIdle(inner);
    }
  }

  lemma NothingInside()
    ensures ItemsText([]) == "" && MembersText([]) == ""
  {
  }

  lemma StringReads(text: string, rest: string)
    ensures ReadValue(TextOf(Text(text)) + rest) == Got(Text(text), rest)
  {
    hide ReadString, Escaped;
    QuotedReads(text, rest);
  }

  lemma IntegerReads(n: u64, rest: string)
    requires EndsNumber(rest)
    ensures ReadValue(TextOf(Number(n)) + rest) == Got(Number(n), rest)
  {
    hide ReadNumber, Decimal, EndsNumber;
    NumberReads(n, rest);
  }

  lemma WordReads(t: Json, rest: string)
    requires t.Null? || t.Bool?
    ensures ReadValue(TextOf(t) + rest) == Got(t, rest)
  {
    assert (TextOf(t) + rest)[|TextOf(t)|..] == rest;
  }

  /** Every tree's text, whatever follows it, reads back as that tree and stops where it ended. */
  lemma {:induction false} TextReads(t: Json, rest: string)
    requires EndsNumber(rest) || !t.Number?
    ensures ReadValue(TextOf(t) + rest) == Got(t, rest)
    decreases t, 3
  {
    hide TextOf, ReadValue;
    match t {
      case Array(items) => ArrayReads(items, rest);
      case Object(members) => ObjectReads(members, rest);
      case Text(text) => StringReads(text, rest);
      case Number(n) => IntegerReads(n, rest);
      case _ => WordReads(t, rest);
    }
  }

  /** The headline: a driven writer never aborts and what it wrote is that tree. */
  lemma WrittenReadsBack(t: Json)
    requires Container(t)
    ensures var m := Run(Machine("", []), Calls(t), false);
            m.Some? && m.value.stack == [] && ReadDocument(m.value.out) == Some(t)
  {
    hide TextOf, ReadValue;
    WritesWholeTree(t, false);
    TextReads(t, "");
    TextStarts(t, "");
    assert TextOf(t) + "" == TextOf(t);
    assert SkipSpace("") == "";
  }

  /** Different trees give different texts. */
  lemma TextInjective(t: Json, u: Json)
    ensures TextOf(t) == TextOf(u) <==> t == u
  {
    hide TextOf, ReadValue;
    TextReads(t, "");
    TextReads(u, "");
  }

  /** What an unnoticed mismatched end call leaves behind is not JSON. */
  lemma MismatchedEndUnreadable()
    ensures Run(Machine("", []), [BeginArray, EndObject], false) == Some(Machine("[}", []))
    ensures ReadDocument("[}") == None
  {
    MismatchedEndUnnoticed();
    assert "[}"[1..] == "}";
    assert DigitCount("}") == 0;
    assert ReadValue("}") == Fail;
    assert ReadItems("}") == Fail;
  }
}
