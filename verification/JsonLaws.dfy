/**
 Which of the many JSON texts of a tree the writer chooses: the one without white space, with the
 shortest escapes, and with lower-case hexadecimal digits.
 */
module JsonLaws {
  import opened Basics
  import opened JsonWriter
  import opened JsonReader

  /** A character that section 7 of RFC 8259 lets stand for itself. */
  predicate Unescaped(c: char) {
    c >= ' ' && c != '"' && c != '\\'
  }

  /** The character has an escape of two characters. */
  predicate HasShortEscape(c: char) {
    c == '"' || c == '\\' || c == '\U{8}' || c == '\U{c}' || c == '\n' || c == '\r' || c == '\t'
  }

  /** How many characters the shortest text for `c` has. */
  function ShortestLength(c: char): nat {
    if Unescaped(c) then 1 else if HasShortEscape(c) then 2 else 6
  }

  predicate LowerHex(c: char) {
    '0' <= c <= '9' || 'a' <= c <= 'f'
  }

  /** Each character is written in the shortest way, and hexadecimal digits are lower case. */
  lemma EscapeIsShortest(c: char)
    ensures |Escape(c)| == ShortestLength(c)
    ensures Unescaped(c) ==> Escape(c) == [c]
    ensures !Unescaped(c) ==> Escape(c)[0] == '\\'
    ensures |Escape(c)| == 6 ==> Escape(c)[..4] == "\\u00" && LowerHex(Escape(c)[4]) && LowerHex(Escape(c)[5])
  {
  }

  /** No text that reads as `c`, whatever follows it, is shorter. */
  lemma NoneIsShorter(c: char, e: string)
    requires forall rest: string :: ReadChar(e + rest) == Got(c, rest)
    ensures |e| >= ShortestLength(c)
  {
    assert e + "" == e;
    assert ReadChar(e) == Got(c, "");
    hide ReadUnicode;
    if |e| >= 2 && e[0] == '\\' && e[1] == 'u' {
      UnicodeIsLong(e[2..]);
    }
  }

  lemma UnicodeIsLong(s: string)
    requires ReadUnicode(s).Got?
    ensures |s| >= 4
  {
  }

  function EscapedLength(s: string): nat {
    if s == "" then 0 else ShortestLength(s[0]) + EscapedLength(s[1..])
  }

  lemma {:induction false} EscapedIsShortest(s: string)
    ensures |Escaped(s)| == EscapedLength(s)
  {
    hide Escape, ShortestLength;
    if s != "" {
      EscapeIsShortest(s[0]);
      EscapedIsShortest(s[1..]);
    }
  }

  // ------------------------------------------------------------- nothing but the tree

  /** The number of characters that the tree itself needs: values, brackets, commas and colons. */
  function NeededLength(t: Json): nat {
    match t
    case Null => 4
    case Bool(flag) => if flag then 4 else 5
    case Number(n) => |Decimal(n)|
    case Text(s) => EscapedLength(s) + 2
    case Array(items) => 2 + ItemsLength(items)
    case Object(members) => 2 + MembersLength(members)
  }

  function ItemsLength(ts: seq<Json>): nat {
    if ts == [] then 0
    else ItemsLength(ts[..|ts| - 1]) + (if |ts| == 1 then 0 else 1) + NeededLength(ts[|ts| - 1])
  }

  function MemberLength(m: Member): nat {
    EscapedLength(m.key) + 3 + NeededLength(m.value)
  }

  function MembersLength(ms: seq<Member>): nat {
    if ms == [] then 0
    else MembersLength(ms[..|ms| - 1]) + (if |ms| == 1 then 0 else 1) + MemberLength(ms[|ms| - 1])
  }

  lemma {:induction false} ItemsNeeded(ts: seq<Json>)
    ensures |ItemsText(ts)| == ItemsLength(ts)
    decreases ts
  {
    hide TextOf, NeededLength;
    if ts != [] {
      ItemsNeeded(ts[..|ts| - 1]);
      TextNeeded(ts[|ts| - 1]);
    }
  }

  lemma {:induction false} MemberNeeded(m: Member)
    ensures |MemberText(m)| == MemberLength(m)
    decreases m
  {
    hide TextOf, NeededLength, Escaped, EscapedLength;
    EscapedIsShortest(m.key);
    TextNeeded(m.value);
  }

  lemma {:induction false} MembersNeeded(ms: seq<Member>)
    ensures |MembersText(ms)| == MembersLength(ms)
    decreases ms
  {
    hide MemberText, MemberLength;
    if ms != [] {
      MembersNeeded(ms[..|ms| - 1]);
      MemberNeeded(ms[|ms| - 1]);
    }
  }

  /** A tree's text holds nothing that the tree does not need: no white space and no longer escapes. */
  lemma {:induction false} TextNeeded(t: Json)
    ensures |TextOf(t)| == NeededLength(t)
    decreases t
  {
    hide Escaped, EscapedLength, ItemsText, ItemsLength, MembersText, MembersLength, Decimal;
    match t
    case Array(items) => ItemsNeeded(items);
    case Object(members) => MembersNeeded(members);
    case Text(s) => EscapedIsShortest(s);
    case _ =>
  }
}
