/**
 The stack-driven JSON writer.  A character stands for one byte of the source's
 strings, or for one Unicode scalar value: the writer treats both alike.
 */
module JsonWriter {
  import opened Basics

  datatype Json =
    | Null
    | Bool(flag: bool)
    | Number(value: u64)
    | Text(text: string)
    | Array(items: seq<Json>)
    | Object(members: seq<Member>)

  datatype Member = Member(key: string, value: Json)

  // ------------------------------------------------------------------ the texts

  function HexDigit(n: nat): char
    requires n < 16
  {
    "0123456789abcdef"[n]
  }

  function Escape(c: char): (s: string)
    ensures s != ""
  {
    if c == '"' then "\\\""
    else if c == '\\' then "\\\\"
    else if c == '\U{8}' then "\\b"
    else if c == '\U{c}' then "\\f"
    else if c == '\n' then "\\n"
    else if c == '\r' then "\\r"
    else if c == '\t' then "\\t"
    else if c < ' ' then "\\u00" + [HexDigit(c as nat / 16), HexDigit(c as nat % 16)]
    else [c]
  }

  function Escaped(s: string): string {
    if s == "" then "" else Escape(s[0]) + Escaped(s[1..])
  }

  function Quoted(s: string): string {
    "\"" + Escaped(s) + "\""
  }

  function Digit(n: nat): char
    requires n < 10
  {
    "0123456789"[n]
  }

  /** `std::to_string` on an unsigned value. */
  function Decimal(n: nat): (s: string)
    ensures s != ""
  {
    if n < 10 then [Digit(n)] else Decimal(n / 10) + [Digit(n % 10)]
  }

  /** The compact text of a tree. */
  function TextOf(t: Json): string {
    match t
    case Null => "null"
    case Bool(flag) => if flag then "true" else "false"
    case Number(n) => Decimal(n)
    case Text(s) => Quoted(s)
    case Array(items) => "[" + ItemsText(items) + "]"
    case Object(members) => "{" + MembersText(members) + "}"
  }

  function ItemsText(ts: seq<Json>): string {
    if ts == [] then ""
    else if |ts| == 1 then TextOf(ts[0])
    else ItemsText(ts[..|ts| - 1]) + "," + TextOf(ts[|ts| - 1])
  }

  function MemberText(m: Member): string {
    Quoted(m.key) + ":" + TextOf(m.value)
  }

  function MembersText(ms: seq<Member>): string {
    if ms == [] then ""
    else if |ms| == 1 then MemberText(ms[0])
    else MembersText(ms[..|ms| - 1]) + "," + MemberText(ms[|ms| - 1])
  }

  // ---------------------------------------------------------------- the machine

  /** What the innermost open container waits for. */
  datatype Frame = FirstKey | NextKey | KeyedValue | FirstItem | NextItem

  datatype Machine = Machine(out: string, stack: seq<Frame>)

  predicate Container(t: Json) {
    t.Array? || t.Object?
  }

  type Leaf = t: Json | !Container(t) witness Null

  datatype Call = BeginObject | EndObject | Key(key: string) | Scalar(value: Leaf) | BeginArray | EndArray

  function WithTop(stack: seq<Frame>, f: Frame): (r: seq<Frame>)
    requires stack != []
    ensures |r| == |stack| && r[|r| - 1] == f
  {
    stack[..|stack| - 1] + [f]
  }

  /** `advance_for_value`; `None` is `std::abort`. */
  function Advance(m: Machine): Option<Machine> {
    if m.stack == [] then None
    else match m.stack[|m.stack| - 1]
      case KeyedValue => Some(m.(stack := WithTop(m.stack, NextKey)))
      case FirstItem => Some(m.(stack := WithTop(m.stack, NextItem)))
      case NextItem => Some(m.(out := m.out + ","))
      case _ => None
  }

  /** Only a container may be the root. */
  function Ready(m: Machine, t: Json): Option<Machine> {
    if Container(t) && m.stack == [] then Some(m) else Advance(m)
  }

  function Open(m: Machine, bracket: char, f: Frame): Option<Machine> {
    var entered := if m.stack == [] then Some(m) else Advance(m);
    if entered.None? then None
    else Some(Machine(entered.value.out + [bracket], entered.value.stack + [f]))
  }

  /** `advance_for_container_end`. */
  function ContainerEnd(stack: seq<Frame>): seq<Frame> {
    if stack != [] && stack[|stack| - 1] == FirstItem then WithTop(stack, NextItem) else stack
  }

  /** A container that this bracket closes, with no key left without its value. */
  predicate Fits(f: Frame, bracket: char) {
    if bracket == '}' then f == FirstKey || f == NextKey else f == FirstItem || f == NextItem
  }

  /**
   Popping an empty stack has no defined outcome in the source and is `None` here.  The source
   never compares an end call with the container it ends: it is the machine with `checked` false.
   */
  function Close(m: Machine, bracket: char, checked: bool): Option<Machine> {
    if m.stack == [] || (checked && !Fits(m.stack[|m.stack| - 1], bracket)) then None
    else Some(Machine(m.out + [bracket], ContainerEnd(m.stack[..|m.stack| - 1])))
  }

  function WriteKey(m: Machine, key: string): Option<Machine> {
    if m.stack == [] then None
    else
      var top := m.stack[|m.stack| - 1];
      if top != NextKey && top != FirstKey then None
      else Some(Machine(m.out + (if top == NextKey then "," else "") + Quoted(key) + ":", WithTop(m.stack, KeyedValue)))
  }

  function WriteScalar(m: Machine, t: Json): Option<Machine> {
    var ready := Advance(m);
    if ready.None? then None else Some(ready.value.(out := ready.value.out + TextOf(t)))
  }

  function Step(m: Machine, c: Call, checked: bool): Option<Machine> {
    match c
    case BeginObject => Open(m, '{', FirstKey)
    case EndObject => Close(m, '}', checked)
    case Key(k) => WriteKey(m, k)
    case Scalar(t) => WriteScalar(m, t)
    case BeginArray => Open(m, '[', FirstItem)
    case EndArray => Close(m, ']', checked)
  }

  function Run(m: Machine, cs: seq<Call>, checked: bool): Option<Machine> {
    if cs == [] then Some(m)
    else
      var before := Run(m, cs[..|cs| - 1], checked);
      if before.None? then None else Step(before.value, cs[|cs| - 1], checked)
  }

  lemma {:induction false} RunAppend(m: Machine, a: seq<Call>, b: seq<Call>, checked: bool)
    ensures Run(m, a + b, checked) == (var before := Run(m, a, checked); if before.None? then None else Run(before.value, b, checked))
    decreases |b|
  {
    hide Step;
    if b == [] {
      assert a + b == a;
    } else {
      var n := |b| - 1;
      RunAppend(m, a, b[..n], checked);
      assert (a + b)[..|a + b| - 1] == a + b[..n];
    }
  }

  lemma RunOne(m: Machine, c: Call, checked: bool)
    ensures Run(m, [c], checked) == Step(m, c, checked)
  {
    hide Step;
    assert Run(m, [c][..0], checked) == Some(m);
  }

  // ----------------------------------------------------------------- the writer

  /** The new state is the step's, or the writer aborted with nothing changed. */
  predicate Outcome(before: Machine, after: Machine, step: Option<Machine>, alive: bool) {
    alive == step.Some? && after == (if step.Some? then step.value else before)
  }

  lemma {:induction false} EscapedFrom(s: string, i: nat)
    requires i < |s|
    ensures Escaped(s[i..]) == Escape(s[i]) + Escaped(s[i + 1..])
  {
    assert s[i..][0] == s[i] && s[i..][1..] == s[i + 1..];
  }

  /** A call that the source answers with `std::abort` returns false. */
  class Writer {
    var output: string
    var stack: seq<Frame>

    function State(): Machine
      reads this
    {
      Machine(output, stack)
    }

    constructor ()
      ensures State() == Machine("", [])
    {
      output := "";
      stack := [];
    }

    method RawString(value: string)
      modifies this`output
      ensures output == old(output) + Quoted(value)
    {
      hide Escape;
      output := output + "\"";
      var i := 0;
      while i < |value|
        invariant 0 <= i <= |value|
        invariant output + Escaped(value[i..]) == old(output) + "\"" + Escaped(value)
      {
        EscapedFrom(value, i);
        Concat(output, Escape(value[i]), Escaped(value[i + 1..]), "");
        output := output + Escape(value[i]);
        i := i + 1;
      }
      assert Escaped(value[i..]) == "" && output + "" == output;
      Concat(old(output), "\"", Escaped(value), "\"");
      output := output + "\"";
    }

    method AdvanceForValue() returns (alive: bool)
      modifies this
      ensures Outcome(old(State()), State(), Advance(old(State())), alive)
    {
      if stack == [] {
        return false;
      }
      var top := stack[|stack| - 1];
      if top == KeyedValue {
        stack := WithTop(stack, NextKey);
      } else if top == FirstItem {
        stack := WithTop(stack, NextItem);
      } else if top == NextItem {
        output := output + ",";
      } else {
        return false;
      }
      return true;
    }

    method AdvanceForContainerEnd()
      modifies this`stack
      ensures stack == ContainerEnd(old(stack))
    {
      if stack != [] && stack[|stack| - 1] == FirstItem {
        stack := WithTop(stack, NextItem);
      }
    }

    method BeginObject() returns (alive: bool)
      modifies this
      ensures Outcome(old(State()), State(), Step(old(State()), Call.BeginObject, false), alive)
    {
      if stack != [] {
        alive := AdvanceForValue();
        if !alive {
          return;
        }
      }
      output := output + "{";
      stack := stack + [FirstKey];
      return true;
    }

    method BeginArray() returns (alive: bool)
      modifies this
      ensures Outcome(old(State()), State(), Step(old(State()), Call.BeginArray, false), alive)
    {
      if stack != [] {
        alive := AdvanceForValue();
        if !alive {
          return;
        }
      }
      output := output + "[";
      stack := stack + [FirstItem];
      return true;
    }

    method EndObject()
      requires stack != []
      modifies this
      ensures Outcome(old(State()), State(), Step(old(State()), Call.EndObject, false), true)
    {
      output := output + "}";
      stack := stack[..|stack| - 1];
      AdvanceForContainerEnd();
    }

    method EndArray()
      requires stack != []
      modifies this
      ensures Outcome(old(State()), State(), Step(old(State()), Call.EndArray, false), true)
    {
      output := output + "]";
      stack := stack[..|stack| - 1];
      AdvanceForContainerEnd();
    }

    method Key(key: string) returns (alive: bool)
      modifies this
      ensures Outcome(old(State()), State(), Step(old(State()), Call.Key(key), false), alive)
    {
      hide Quoted;
      if stack == [] {
        return false;
      }
      var top := stack[|stack| - 1];
      if top == NextKey {
        output := output + ",";
      } else if top != FirstKey {
        return false;
      }
      RawString(key);
      output := output + ":";
      stack := WithTop(stack, KeyedValue);
      return true;
    }

    /** The overloads of `value` for text, unsigned integers and Booleans, and `value_null`. */
    method Value(t: Leaf) returns (alive: bool)
      modifies this
      ensures Outcome(old(State()), State(), Step(old(State()), Scalar(t), false), alive)
    {
      hide Quoted, Decimal;
      alive := AdvanceForValue();
      if !alive {
        return;
      }
      match t
      case Text(text) => RawString(text);
      case Number(n) => output := output + Decimal(n);
      case Bool(flag) => output := output + if flag then "true" else "false";
      case Null => output := output + "null";
    }
  }

  // ------------------------------------------------------- driving with a tree

  /** The calls that write a tree. */
  function Calls(t: Json): seq<Call> {
    match t
    case Array(items) => [BeginArray] + ItemCalls(items) + [EndArray]
    case Object(members) => [BeginObject] + MembersCalls(members) + [EndObject]
    case _ => [Scalar(t)]
  }

  function ItemCalls(ts: seq<Json>): seq<Call> {
    if ts == [] then [] else ItemCalls(ts[..|ts| - 1]) + Calls(ts[|ts| - 1])
  }

  function MemberCalls(m: Member): seq<Call> {
    [Key(m.key)] + Calls(m.value)
  }

  function MembersCalls(ms: seq<Member>): seq<Call> {
    if ms == [] then [] else MembersCalls(ms[..|ms| - 1]) + MemberCalls(ms[|ms| - 1])
  }

  function Emitted(m: Option<Machine>, text: string): Option<Machine> {
    if m.None? then None else Some(m.value.(out := m.value.out + text))
  }

  lemma {:induction false} ItemsDriven(m: Machine, ts: seq<Json>, checked: bool)
    requires m.stack != [] && m.stack[|m.stack| - 1] == FirstItem
    ensures Run(m, ItemCalls(ts), checked) ==
            Some(Machine(m.out + ItemsText(ts), if ts == [] then m.stack else WithTop(m.stack, NextItem)))
    decreases ts, 0
  {
    if ts == [] {
      assert m.out + "" == m.out;
    } else {
      var n := |ts| - 1;
      ItemsDriven(m, ts[..n], checked);
      RunAppend(m, ItemCalls(ts[..n]), Calls(ts[n]), checked);
      var m1 := Run(m, ItemCalls(ts[..n]), checked).value;
      Driven(m1, ts[n], checked);
      ItemsTextLast(m.out, ts);
    }
  }

  lemma Concat(a: string, b: string, c: string, d: string)
    ensures a + (b + c + d) == a + b + c + d
    ensures b + "" == b
  {
  }

  lemma ItemsTextLast(out: string, ts: seq<Json>)
    requires ts != []
    ensures var n := |ts| - 1;
            out + ItemsText(ts) == out + ItemsText(ts[..n]) + (if n == 0 then "" else ",") + TextOf(ts[n])
  {
    hide TextOf;
    var n := |ts| - 1;
    Concat(out, if n == 0 then "" else ItemsText(ts[..n]), ",", TextOf(ts[n]));
    if n == 0 {
      Concat(out, out, "", "");
    }
  }

  lemma MembersTextLast(out: string, ms: seq<Member>)
    requires ms != []
    ensures var n := |ms| - 1;
            out + MembersText(ms) == out + MembersText(ms[..n]) + (if n == 0 then "" else ",") + MemberText(ms[n])
  {
    hide MemberText;
    var n := |ms| - 1;
    Concat(out, if n == 0 then "" else MembersText(ms[..n]), ",", MemberText(ms[n]));
    if n == 0 {
      Concat(out, out, "", "");
    }
  }

  lemma {:induction false} MemberDriven(m: Machine, e: Member, checked: bool)
    requires m.stack != [] && (m.stack[|m.stack| - 1] == FirstKey || m.stack[|m.stack| - 1] == NextKey)
    ensures Run(m, MemberCalls(e), checked) ==
            Some(Machine(m.out + (if m.stack[|m.stack| - 1] == NextKey then "," else "") + MemberText(e), WithTop(m.stack, NextKey)))
    decreases e, 1
  {
    hide TextOf, Quoted;
    RunAppend(m, [Key(e.key)], Calls(e.value), checked);
    RunOne(m, Key(e.key), checked);
    var m1 := Step(m, Key(e.key), checked).value;
    Driven(m1, e.value, checked);
    assert WithTop(WithTop(m.stack, KeyedValue), NextKey) == WithTop(m.stack, NextKey);
    Concat(m.out + (if m.stack[|m.stack| - 1] == NextKey then "," else ""), Quoted(e.key), ":", TextOf(e.value));
  }

  lemma {:induction false} MembersDriven(m: Machine, ms: seq<Member>, checked: bool)
    requires m.stack != [] && m.stack[|m.stack| - 1] == FirstKey
    ensures Run(m, MembersCalls(ms), checked) ==
            Some(Machine(m.out + MembersText(ms), if ms == [] then m.stack else WithTop(m.stack, NextKey)))
    decreases ms, 0
  {
    if ms == [] {
      assert m.out + "" == m.out;
    } else {
      hide TextOf, Quoted, MembersText;
      var n := |ms| - 1;
      MembersDriven(m, ms[..n], checked);
      RunAppend(m, MembersCalls(ms[..n]), MemberCalls(ms[n]), checked);
      var m1 := Run(m, MembersCalls(ms[..n]), checked).value;
      MemberDriven(m1, ms[n], checked);
      assert WithTop(m1.stack, NextKey) == WithTop(m.stack, NextKey);
      MembersTextLast(m.out, ms);
    }
  }

  /** Opening, filling and closing a container. */
  lemma Wrapped(m: Machine, open: Call, body: seq<Call>, close: Call, checked: bool)
    ensures var calls := [open] + body + [close];
            var m1 := Step(m, open, checked);
            Run(m, calls, checked) == (if m1.None? then None
                              else var m2 := Run(m1.value, body, checked);
                                if m2.None? then None else Step(m2.value, close, checked))
  {
    hide Step;
    RunAppend(m, [open] + body, [close], checked);
    RunAppend(m, [open], body, checked);
    RunOne(m, open, checked);
    if Run(m, [open] + body, checked).Some? {
      RunOne(Run(m, [open] + body, checked).value, close, checked);
    }
  }

  /**
   From every writer state, the calls of a tree abort exactly when a value may not stand there,
   and otherwise append the tree's text, leaving the surrounding containers advanced by one value.
   */
  lemma {:induction false} Driven(m: Machine, t: Json, checked: bool)
    ensures Run(m, Calls(t), checked) == Emitted(Ready(m, t), TextOf(t))
    decreases t, 2
  {
    match t {
      case Array(items) => ArrayDriven(m, items, checked);
      case Object(members) => ObjectDriven(m, members, checked);
      case _ => RunOne(m, Scalar(t), checked);
    }
  }

  lemma {:induction false} ArrayDriven(m: Machine, items: seq<Json>, checked: bool)
    ensures Run(m, Calls(Array(items)), checked) == Emitted(Ready(m, Array(items)), TextOf(Array(items)))
    decreases items, 1
  {
    hide Advance, ItemsText, ItemCalls, Run, Close, Step, Open, Ready;
    Wrapped(m, BeginArray, ItemCalls(items), EndArray, checked);
    BracketSteps(m, checked);
    Opens(m, Array(items), '[', FirstItem);
    if Ready(m, Array(items)).Some? {
      var m0 := Ready(m, Array(items)).value;
      var m1 := Machine(m0.out + ['['], m0.stack + [FirstItem]);
      ItemsDriven(m1, items, checked);
      BracketSteps(Run(m1, ItemCalls(items), checked).value, checked);
      Closed(m0, "[", FirstItem, ItemsText(items), ']', if items == [] then FirstItem else NextItem, checked);
    }
  }

  lemma {:induction false} ObjectDriven(m: Machine, members: seq<Member>, checked: bool)
    ensures Run(m, Calls(Object(members)), checked) == Emitted(Ready(m, Object(members)), TextOf(Object(members)))
    decreases members, 1
  {
    hide Advance, MembersText, MembersCalls, Run, Close, Step, Open, Ready;
    Wrapped(m, BeginObject, MembersCalls(members), EndObject, checked);
    BracketSteps(m, checked);
    Opens(m, Object(members), '{', FirstKey);
    if Ready(m, Object(members)).Some? {
      var m0 := Ready(m, Object(members)).value;
      var m1 := Machine(m0.out + ['{'], m0.stack + [FirstKey]);
      MembersDriven(m1, members, checked);
      BracketSteps(Run(m1, MembersCalls(members), checked).value, checked);
      Closed(m0, "{", FirstKey, MembersText(members), '}', if members == [] then FirstKey else NextKey, checked);
    }
  }

  lemma BracketSteps(m: Machine, checked: bool)
    ensures Step(m, BeginArray, checked) == Open(m, '[', FirstItem) && Step(m, BeginObject, checked) == Open(m, '{', FirstKey)
    ensures Step(m, EndArray, checked) == Close(m, ']', checked) && Step(m, EndObject, checked) == Close(m, '}', checked)
  {
    hide Open, Close;
  }

  lemma Opens(m: Machine, t: Json, bracket: char, f: Frame)
    requires Container(t)
    ensures var ready := Ready(m, t);
            if ready.None? then Open(m, bracket, f) == None
            else
              && var m0 := ready.value;
              && Open(m, bracket, f) == Some(Machine(m0.out + [bracket], m0.stack + [f]))
              && (m0.stack == [] || m0.stack[|m0.stack| - 1] != FirstItem)
  {
  }

  /** Closing a container restores the stack it was opened on. */
  lemma Closed(m: Machine, open: string, first: Frame, body: string, close: char, last: Frame, checked: bool)
    requires (m.stack == [] || m.stack[|m.stack| - 1] != FirstItem) && Fits(last, close)
    ensures WithTop(m.stack + [first], last) == m.stack + [last]
    ensures Close(Machine(m.out + open + body, m.stack + [last]), close, checked) ==
            Some(Machine(m.out + (open + body + [close]), m.stack))
  {
    Concat(m.out, open, body, [close]);
    assert (m.stack + [last])[..|m.stack|] == m.stack;
  }

  /** A fresh writer writes every container tree and aborts on every scalar. */
  lemma WritesWholeTree(t: Json, checked: bool)
    ensures Run(Machine("", []), Calls(t), checked) == if Container(t) then Some(Machine(TextOf(t), [])) else None
  {
    hide TextOf;
    Driven(Machine("", []), t, checked);
    assert "" + TextOf(t) == TextOf(t);
  }

  // ------------------------------------------------------------ every call sequence

  /** Every container below the innermost one is already advanced past the open value. */
  predicate Settled(stack: seq<Frame>) {
    forall i :: 0 <= i < |stack| - 1 ==> stack[i] == NextKey || stack[i] == NextItem
  }

  lemma StepSettled(m: Machine, c: Call)
    requires Settled(m.stack) && Step(m, c, false).Some?
    ensures Settled(Step(m, c, false).value.stack)
  {
    hide TextOf, Quoted;
    var r := Step(m, c, false).value.stack;
    if c.BeginObject? || c.BeginArray? {
      var entered := if m.stack == [] then m else Advance(m).value;
      assert r[..|r| - 1] == entered.stack;
      assert forall i :: 0 <= i < |r| - 1 ==> r[i] == entered.stack[i];
    } else if c.EndObject? || c.EndArray? {
      assert forall i :: 0 <= i < |r| ==> r[i] == m.stack[i];
    } else {
      assert forall i :: 0 <= i < |r| - 1 ==> r[i] == m.stack[i];
    }
  }

  lemma {:induction false} RunsSettled(cs: seq<Call>, out: string)
    ensures var m := Run(Machine(out, []), cs, false); m.Some? ==> Settled(m.value.stack)
    decreases |cs|
  {
    if cs != [] {
      hide Step;
      RunsSettled(cs[..|cs| - 1], out);
      var before := Run(Machine(out, []), cs[..|cs| - 1], false);
      if before.Some? && Step(before.value, cs[|cs| - 1], false).Some? {
        StepSettled(before.value, cs[|cs| - 1]);
      }
    }
  }

  /** `advance_for_container_end` never changes anything, whatever calls came before. */
  lemma ContainerEndIdle(cs: seq<Call>, out: string)
    ensures var m := Run(Machine(out, []), cs, false);
            m.Some? && m.value.stack != [] ==>
              ContainerEnd(m.value.stack[..|m.value.stack| - 1]) == m.value.stack[..|m.value.stack| - 1]
  {
    RunsSettled(cs, out);
  }

  /** Refusing unfitting end calls changes nothing else. */
  lemma {:induction false} CheckedRuns(m: Machine, cs: seq<Call>)
    ensures Run(m, cs, true).Some? ==> Run(m, cs, false) == Run(m, cs, true)
    decreases |cs|
  {
    hide TextOf, Quoted, Advance;
    if cs != [] {
      CheckedRuns(m, cs[..|cs| - 1]);
    }
  }

  /** The unguarded misuse: an array ended as an object. */
  lemma MismatchedEndUnnoticed()
    ensures Run(Machine("", []), [BeginArray, EndObject], false) == Some(Machine("[}", []))
  {
    var cs := [BeginArray, EndObject];
    RunOne(Machine("", []), BeginArray, false);
    assert cs[..1] == [BeginArray];
    assert "" + ['['] == "[" && "[" + ['}'] == "[}";
    assert [] + [FirstItem] == [FirstItem];
  }

  /** An open container with the part of it that is written. */
  datatype Partial = PartialArray(items: seq<Json>) | PartialObject(members: seq<Member>, pending: Option<string>)

  /** The trees that a run has finished and the containers that it has open, outermost first. */
  datatype Progress = Progress(roots: seq<Json>, open: seq<Partial>)

  function OuterFrame(p: Partial): Frame {
    if p.PartialArray? then NextItem else NextKey
  }

  function InnerFrame(p: Partial): Frame {
    match p
    case PartialArray(items) => if items == [] then FirstItem else NextItem
    case PartialObject(members, pending) =>
      if pending.Some? then KeyedValue else if members == [] then FirstKey else NextKey
  }

  predicate TakesValue(p: Partial) {
    p.PartialArray? || p.pending.Some?
  }

  predicate Sound(p: Progress) {
    && (forall i :: 0 <= i < |p.roots| ==> Container(p.roots[i]))
    && (forall i :: 0 <= i < |p.open| - 1 ==> TakesValue(p.open[i]))
  }

  function OuterFrames(open: seq<Partial>): (r: seq<Frame>)
    ensures |r| == |open|
    ensures forall i :: 0 <= i < |open| ==> r[i] == OuterFrame(open[i])
  {
    if open == [] then [] else OuterFrames(open[..|open| - 1]) + [OuterFrame(open[|open| - 1])]
  }

  predicate Matches(stack: seq<Frame>, open: seq<Partial>) {
    && |stack| == |open|
    && (forall i :: 0 <= i < |stack| - 1 ==> stack[i] == OuterFrame(open[i]))
    && (stack != [] ==> stack[|stack| - 1] == InnerFrame(open[|stack| - 1]))
  }

  function PartialCalls(p: Partial): seq<Call> {
    match p
    case PartialArray(items) => [BeginArray] + ItemCalls(items)
    case PartialObject(members, pending) =>
      var written := [BeginObject] + MembersCalls(members);
      if pending.Some? then written + [Key(pending.value)] else written
  }

  function OpenCalls(open: seq<Partial>): seq<Call> {
    if open == [] then [] else OpenCalls(open[..|open| - 1]) + PartialCalls(open[|open| - 1])
  }

  function ProgressCalls(p: Progress): seq<Call> {
    ItemCalls(p.roots) + OpenCalls(p.open)
  }

  function WithValue(p: Partial, t: Json): Partial
    requires TakesValue(p)
  {
    match p
    case PartialArray(items) => PartialArray(items + [t])
    case PartialObject(members, pending) => PartialObject(members + [Member(pending.value, t)], None)
  }

  /** A finished value joins the innermost open container, or the roots. */
  function Finished(p: Progress, t: Json): Progress
    requires p.open != [] ==> TakesValue(p.open[|p.open| - 1])
  {
    if p.open == [] then Progress(p.roots + [t], [])
    else
      var n := |p.open| - 1;
      Progress(p.roots, p.open[..n] + [WithValue(p.open[n], t)])
  }

  lemma ItemCallsLast(items: seq<Json>, t: Json)
    ensures ItemCalls(items + [t]) == ItemCalls(items) + Calls(t)
  {
    hide Calls;
    assert (items + [t])[..|items|] == items;
  }

  lemma MembersCallsLast(members: seq<Member>, e: Member)
    ensures MembersCalls(members + [e]) == MembersCalls(members) + MemberCalls(e)
  {
    hide MemberCalls;
    assert (members + [e])[..|members|] == members;
  }

  lemma WithValueCalls(p: Partial, t: Json)
    requires TakesValue(p)
    ensures PartialCalls(WithValue(p, t)) == PartialCalls(p) + Calls(t)
    ensures InnerFrame(WithValue(p, t)) == OuterFrame(p)
  {
    hide Calls, ItemCalls, MembersCalls;
    match p {
      case PartialArray(items) =>
        ItemCallsLast(items, t);
        CallsRegroup([BeginArray], ItemCalls(items), Calls(t), []);
      case PartialObject(members, pending) =>
        MembersCallsLast(members, Member(pending.value, t));
        CallsRegroup([BeginObject], MembersCalls(members), [Key(pending.value)], Calls(t));
    }
  }

  lemma OpenCallsLast(open: seq<Partial>, p: Partial)
    ensures OpenCalls(open + [p]) == OpenCalls(open) + PartialCalls(p)
  {
    hide PartialCalls;
    assert (open + [p])[..|open|] == open;
  }

  lemma FinishedCalls(p: Progress, t: Json)
    requires Sound(p) && (if p.open == [] then Container(t) else TakesValue(p.open[|p.open| - 1]))
    ensures Sound(Finished(p, t)) && ProgressCalls(Finished(p, t)) == ProgressCalls(p) + Calls(t)
    ensures |Finished(p, t).open| == |p.open|
    ensures Matches(OuterFrames(p.open), Finished(p, t).open)
  {
    hide Calls, PartialCalls, WithValue;
    if p.open == [] {
      assert (p.roots + [t])[..|p.roots|] == p.roots;
    } else {
      var n := |p.open| - 1;
      WithValueCalls(p.open[n], t);
      OpenCallsLast(p.open[..n], WithValue(p.open[n], t));
      CallsRegroup(ItemCalls(p.roots), OpenCalls(p.open[..n]), PartialCalls(p.open[n]), Calls(t));
    }
  }

  /** The next call, at a state with this progress. */
  lemma ProgressStep(m: Machine, p: Progress, c: Call) returns (q: Progress)
    requires Sound(p) && Matches(m.stack, p.open) && Step(m, c, true).Some?
    ensures Sound(q) && Matches(Step(m, c, true).value.stack, q.open)
    ensures ProgressCalls(q) == ProgressCalls(p) + [c]
  {
    hide ProgressCalls, TextOf, Quoted, Sound, Matches, Advance;
    match c {
      case BeginObject => q := Begun(m, p, c, PartialObject([], None));
      case BeginArray => q := Begun(m, p, c, PartialArray([]));
      case Key(k) => q := Keyed(m, p, k);
      case Scalar(t) =>
        AdvancedFrames(m, p);
        q := Finished(p, t);
        FinishedCalls(p, t);
      case EndObject => q := Ended(m, p, c);
      case EndArray => q := Ended(m, p, c);
    }
  }

  /** A value that may stand here advances the innermost frame past it. */
  lemma AdvancedFrames(m: Machine, p: Progress)
    requires Sound(p) && Matches(m.stack, p.open) && Advance(m).Some?
    ensures p.open != [] && TakesValue(p.open[|p.open| - 1])
    ensures Advance(m).value.stack == OuterFrames(p.open)
  {
  }

  lemma Begun(m: Machine, p: Progress, c: Call, empty: Partial) returns (q: Progress)
    requires Sound(p) && Matches(m.stack, p.open) && Step(m, c, true).Some?
    requires (c.BeginObject? && empty == PartialObject([], None)) || (c.BeginArray? && empty == PartialArray([]))
    ensures Sound(q) && Matches(Step(m, c, true).value.stack, q.open)
    ensures ProgressCalls(q) == ProgressCalls(p) + [c]
  {
    hide Advance, OpenCalls, ItemCalls, Sound, PartialCalls;
    q := Progress(p.roots, p.open + [empty]);
    OpenCallsLast(p.open, empty);
    EmptyCalls();
    if m.stack != [] {
      AdvancedFrames(m, p);
    }
    assert Step(m, c, true).value.stack == OuterFrames(p.open) + [InnerFrame(empty)];
    BegunSound(p, empty);
    assert ProgressCalls(q) == ItemCalls(p.roots) + OpenCalls(p.open) + [c];
  }

  lemma EmptyCalls()
    ensures PartialCalls(PartialArray([])) == [BeginArray] && PartialCalls(PartialObject([], None)) == [BeginObject]
  {
  }

  lemma BegunSound(p: Progress, inner: Partial)
    requires Sound(p) && (p.open != [] ==> TakesValue(p.open[|p.open| - 1]))
    ensures Sound(Progress(p.roots, p.open + [inner]))
    ensures Matches(OuterFrames(p.open) + [InnerFrame(inner)], p.open + [inner])
  {
    hide TakesValue, OuterFrame, InnerFrame;
  }

  lemma KeyedFrames(m: Machine, p: Progress, k: string)
    requires Sound(p) && Matches(m.stack, p.open) && WriteKey(m, k).Some?
    ensures p.open != []
    ensures var n := |p.open| - 1;
            && p.open[n].PartialObject? && p.open[n].pending.None?
            && var q := Progress(p.roots, p.open[..n] + [PartialObject(p.open[n].members, Some(k))]);
            Sound(q) && Matches(WriteKey(m, k).value.stack, q.open)
  {
    hide Quoted;
  }

  lemma Keyed(m: Machine, p: Progress, k: string) returns (q: Progress)
    requires Sound(p) && Matches(m.stack, p.open) && WriteKey(m, k).Some?
    ensures Sound(q) && Matches(WriteKey(m, k).value.stack, q.open)
    ensures ProgressCalls(q) == ProgressCalls(p) + [Key(k)]
  {
    hide MembersCalls, ItemCalls, WriteKey, Sound, Matches;
    KeyedFrames(m, p, k);
    var n := |p.open| - 1;
    var keyed := PartialObject(p.open[n].members, Some(k));
    q := Progress(p.roots, p.open[..n] + [keyed]);
    OpenCallsLast(p.open[..n], keyed);
    assert PartialCalls(keyed) == PartialCalls(p.open[n]) + [Key(k)];
    CallsRegroup(ItemCalls(p.roots), OpenCalls(p.open[..n]), PartialCalls(p.open[n]), [Key(k)]);
  }

  /** The container that an end call finishes. */
  function Completed(p: Partial): Json {
    if p.PartialArray? then Array(p.items) else Object(p.members)
  }

  lemma EndedFrames(m: Machine, p: Progress, c: Call)
    requires Sound(p) && Matches(m.stack, p.open) && Step(m, c, true).Some? && (c.EndObject? || c.EndArray?)
    ensures p.open != [] && Step(m, c, true).value.stack == OuterFrames(p.open[..|p.open| - 1])
    ensures PartialCalls(p.open[|p.open| - 1]) + [c] == Calls(Completed(p.open[|p.open| - 1]))
  {
    hide ItemCalls, MembersCalls, Sound;
    var n := |p.open| - 1;
    assert m.stack[..n] == OuterFrames(p.open[..n]);
  }

  lemma Ended(m: Machine, p: Progress, c: Call) returns (q: Progress)
    requires Sound(p) && Matches(m.stack, p.open) && Step(m, c, true).Some? && (c.EndObject? || c.EndArray?)
    ensures Sound(q) && Matches(Step(m, c, true).value.stack, q.open)
    ensures ProgressCalls(q) == ProgressCalls(p) + [c]
  {
    hide Step, ItemCalls, PartialCalls, Calls, Finished, Matches;
    EndedFrames(m, p, c);
    var n := |p.open| - 1;
    var outer := Progress(p.roots, p.open[..n]);
    FinishedCalls(outer, Completed(p.open[n]));
    q := Finished(outer, Completed(p.open[n]));
    CallsRegroup(ItemCalls(p.roots), OpenCalls(p.open[..n]), PartialCalls(p.open[n]), [c]);
  }

  lemma CallsRegroup(a: seq<Call>, b: seq<Call>, c: seq<Call>, d: seq<Call>)
    ensures (a + b) + (c + d) == (a + (b + c)) + d
    ensures a + (b + (c + d)) == a + b + c + d && a + (b + c) == a + b + c
  {
  }

  /** Every checked run is explained by the trees it has finished and the containers it has open. */
  lemma {:induction false} RunExplained(cs: seq<Call>) returns (p: Progress)
    requires Run(Machine("", []), cs, true).Some?
    ensures Sound(p) && Matches(Run(Machine("", []), cs, true).value.stack, p.open)
    ensures ProgressCalls(p) == cs
    decreases |cs|
  {
    hide Step;
    if cs == [] {
      p := Progress([], []);
    } else {
      var n := |cs| - 1;
      var before := RunExplained(cs[..n]);
      p := ProgressStep(Run(Machine("", []), cs[..n], true).value, before, cs[n]);
    }
  }

  predicate AllContainers(ts: seq<Json>) {
    forall i :: 0 <= i < |ts| ==> Container(ts[i])
  }

  /** The texts of several documents, one after the other. */
  function Documents(ts: seq<Json>): string {
    if ts == [] then "" else Documents(ts[..|ts| - 1]) + TextOf(ts[|ts| - 1])
  }

  lemma {:induction false} DocumentsDriven(ts: seq<Json>)
    requires AllContainers(ts)
    ensures Run(Machine("", []), ItemCalls(ts), true) == Some(Machine(Documents(ts), []))
    decreases |ts|
  {
    hide TextOf, Calls;
    if ts != [] {
      var n := |ts| - 1;
      DocumentsDriven(ts[..n]);
      RunAppend(Machine("", []), ItemCalls(ts[..n]), Calls(ts[n]), true);
      Driven(Machine(Documents(ts[..n]), []), ts[n], true);
    }
  }

  /**
   A call sequence with fitting end calls takes a fresh writer back to an empty stack exactly when
   it is the calls of a list of container trees, and then the output is the texts of those trees.
   */
  lemma CompleteIffDriven(cs: seq<Call>)
    ensures (exists out :: Run(Machine("", []), cs, true) == Some(Machine(out, []))) <==>
            (exists ts :: AllContainers(ts) && cs == ItemCalls(ts))
    ensures forall ts :: AllContainers(ts) && cs == ItemCalls(ts) ==>
              Run(Machine("", []), cs, false) == Some(Machine(Documents(ts), []))
  {
    hide Run, ItemCalls, Documents;
    var empty := Machine("", []);
    forall ts | AllContainers(ts) && cs == ItemCalls(ts)
      ensures Run(empty, cs, true) == Run(empty, cs, false) == Some(Machine(Documents(ts), []))
    {
      DocumentsDriven(ts);
      CheckedRuns(empty, cs);
    }
    if out :| Run(empty, cs, true) == Some(Machine(out, [])) {
      var p := RunExplained(cs);
      assert OpenCalls(p.open) == [];
      assert AllContainers(p.roots) && cs == ItemCalls(p.roots);
    }
  }
}
