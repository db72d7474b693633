/**
 Exactly when the writer leaves JSON behind.  Nothing stops a client from ending the wrong
 container, leaving a key without a value, or writing several roots; the writer completes all of
 these, and what it wrote is a JSON text in no such case.
 */
module JsonExact {
  import opened Basics
  import opened JsonWriter
  import opened JsonReader

  // ------------------------------------------------------------ the text of a run

  function Separator(empty: bool): string {
    if empty then "" else ","
  }

  /** What an open container has written so far. */
  function PartialText(p: Partial): string {
    match p
    case PartialArray(items) => "[" + ItemsText(items)
    case PartialObject(members, pending) =>
      var written := "{" + MembersText(members);
      if pending.Some? then written + Separator(members == []) + Quoted(pending.value) + ":" else written
  }

  /** What starting a value adds to the text of its container. */
  function Lead(p: Partial): string {
    if p.PartialArray? then Separator(p.items == []) else ""
  }

  /** The same, up to the point where the next value inside it starts. */
  function LeadText(p: Partial): string {
    PartialText(p) + Lead(p)
  }

  function LeadTexts(open: seq<Partial>): string {
    if open == [] then "" else LeadTexts(open[..|open| - 1]) + LeadText(open[|open| - 1])
  }

  function OpenText(open: seq<Partial>): string {
    if open == [] then "" else LeadTexts(open[..|open| - 1]) + PartialText(open[|open| - 1])
  }

  function ProgressText(p: Progress): string {
    Documents(p.roots) + OpenText(p.open)
  }

  /** Opening a container and writing its part. */
  lemma PartialDriven(m: Machine, p: Partial)
    requires Ready(m, Array([])).Some?
    ensures var m0 := Ready(m, Array([])).value;
            Run(m, PartialCalls(p), true) == Some(Machine(m0.out + PartialText(p), m0.stack + [InnerFrame(p)]))
  {
    hide Ready, Run, PartialText, PartialCalls;
    match p
    case PartialArray(items) => ArrayStarted(m, items);
    case PartialObject(members, None) => ObjectStarted(m, members);
    case PartialObject(members, Some(k)) => KeyStarted(m, members, k);
  }

  lemma ArrayStarted(m: Machine, items: seq<Json>)
    requires Ready(m, Array([])).Some?
    ensures var m0 := Ready(m, Array([])).value;
            var p := PartialArray(items);
            Run(m, PartialCalls(p), true) == Some(Machine(m0.out + PartialText(p), m0.stack + [InnerFrame(p)]))
  {
    hide Advance, Run, Step, Open, Ready, ItemsText, ItemCalls;
    var m0 := Ready(m, Array([])).value;
    BracketSteps(m, true);
    Opens(m, Array([]), '[', FirstItem);
    var m1 := Machine(m0.out + ['['], m0.stack + [FirstItem]);
    RunAppend(m, [BeginArray], ItemCalls(items), true);
    RunOne(m, BeginArray, true);
    ItemsDriven(m1, items, true);
    Assoc(m0.out, "[", ItemsText(items));
    WithTopLast(m0.stack, FirstItem, NextItem);
  }

  lemma ObjectStarted(m: Machine, members: seq<Member>)
    requires Ready(m, Array([])).Some?
    ensures var m0 := Ready(m, Array([])).value;
            var p := PartialObject(members, None);
            Run(m, PartialCalls(p), true) == Some(Machine(m0.out + PartialText(p), m0.stack + [InnerFrame(p)]))
  {
    SameReady(m);
    hide Advance, Run, Step, Open, Ready, MembersText, MembersCalls;
    var m0 := Ready(m, Array([])).value;
    BracketSteps(m, true);
    Opens(m, Object([]), '{', FirstKey);
    var m1 := Machine(m0.out + ['{'], m0.stack + [FirstKey]);
    RunAppend(m, [BeginObject], MembersCalls(members), true);
    RunOne(m, BeginObject, true);
    MembersDriven(m1, members, true);
    Assoc(m0.out, "{", MembersText(members));
    WithTopLast(m0.stack, FirstKey, NextKey);
  }

  lemma KeyStarted(m: Machine, members: seq<Member>, k: string)
    requires Ready(m, Array([])).Some?
    ensures var m0 := Ready(m, Array([])).value;
            var p := PartialObject(members, Some(k));
            Run(m, PartialCalls(p), true) == Some(Machine(m0.out + PartialText(p), m0.stack + [InnerFrame(p)]))
  {
    hide Advance, Run, Step, Ready, MembersText, MembersCalls, Quoted;
    var m0, p := Ready(m, Array([])).value, PartialObject(members, None);
    ObjectStarted(m, members);
    var out := m0.out + PartialText(p);
    RunAppend(m, PartialCalls(p), [Key(k)], true);
    RunOne(Machine(out, m0.stack + [InnerFrame(p)]), Key(k), true);
    KeyWritten(Machine(out, m0.stack + [InnerFrame(p)]), out, m0.stack, members == [], k);
    Assoc(m0.out, PartialText(p), Separator(members == []));
    Assoc(m0.out, PartialText(p) + Separator(members == []), Quoted(k));
    Assoc(m0.out, PartialText(p) + Separator(members == []) + Quoted(k), ":");
  }

  lemma Assoc(a: string, b: string, c: string)
    ensures a + (b + c) == a + b + c
  {
  }

  lemma SameReady(m: Machine)
    ensures Ready(m, Object([])) == Ready(m, Array([]))
  {
  }

  lemma WithTopLast(stack: seq<Frame>, f: Frame, g: Frame)
    ensures WithTop(stack + [f], g) == stack + [g]
  {
  }

  lemma KeyWritten(m: Machine, out: string, stack: seq<Frame>, first: bool, k: string)
    requires m == Machine(out, stack + [if first then FirstKey else NextKey])
    ensures Step(m, Key(k), true) == Some(Machine(out + Separator(first) + Quoted(k) + ":", stack + [KeyedValue]))
  {
    hide Quoted;
    WithTopLast(stack, if first then FirstKey else NextKey, KeyedValue);
    assert out + "" == out;
  }

  lemma AdvanceByTop(m: Machine, p: Partial)
    requires m.stack != [] && m.stack[|m.stack| - 1] == InnerFrame(p) && TakesValue(p)
    ensures Ready(m, Array([])) == Some(Machine(m.out + Lead(p), WithTop(m.stack, OuterFrame(p))))
  {
    assert m.out + "" == m.out;
    assert WithTop(m.stack, m.stack[|m.stack| - 1]) == m.stack;
  }

  /** Starting a value inside a container that takes one. */
  lemma AdvanceLeads(m: Machine, open: seq<Partial>)
    requires Matches(m.stack, open) && open != [] && TakesValue(open[|open| - 1])
    ensures Ready(m, Array([])) == Some(Machine(m.out + Lead(open[|open| - 1]), OuterFrames(open)))
  {
    hide Ready, OuterFrames, InnerFrame, OuterFrame;
    var n := |open| - 1;
    AdvanceByTop(m, open[n]);
    var r := WithTop(m.stack, OuterFrame(open[n]));
    forall i | 0 <= i < |open| ensures r[i] == OuterFrames(open)[i] {
      if i < n {
        assert r[i] == m.stack[i];
      }
    }
    assert r == OuterFrames(open);
  }

  lemma LeadTextsLast(open: seq<Partial>)
    requires open != []
    ensures var p := open[|open| - 1];
            LeadTexts(open) == OpenText(open) + Lead(p)
  {
    hide PartialText;
    var n := |open| - 1;
    var p := open[n];
    Assoc(LeadTexts(open[..n]), PartialText(p), Lead(p));
  }

  /** The state in which the next container inside `open` is about to start. */
  lemma ReadyInside(m: Machine, out: string, open: seq<Partial>)
    requires m.out == out + OpenText(open) && Matches(m.stack, open)
    requires open != [] ==> TakesValue(open[|open| - 1])
    ensures Ready(m, Array([])) == Some(Machine(out + LeadTexts(open), OuterFrames(open)))
  {
    hide Ready, Matches, OpenText, LeadTexts, TakesValue;
    if open == [] {
      NothingOpen(m);
      assert out + "" == out;
    } else {
      AdvanceLeads(m, open);
      LeadTextsLast(open);
      Assoc(out, OpenText(open), Lead(open[|open| - 1]));
    }
  }

  lemma NothingOpen(m: Machine)
    ensures OpenText([]) == LeadTexts([]) == "" && OuterFrames([]) == []
    ensures Matches(m.stack, []) ==> m.stack == [] && Ready(m, Array([])) == Some(m)
  {
  }

  lemma OpenTextLast(open: seq<Partial>, p: Partial)
    ensures OpenText(open + [p]) == LeadTexts(open) + PartialText(p)
  {
    hide LeadTexts, PartialText;
    assert (open + [p])[..|open|] == open;
  }

  lemma {:induction false} OpenDriven(out: string, open: seq<Partial>)
    requires forall i :: 0 <= i < |open| - 1 ==> TakesValue(open[i])
    ensures var m := Run(Machine(out, []), OpenCalls(open), true);
            m.Some? && m.value.out == out + OpenText(open) && Matches(m.value.stack, open)
    decreases |open|
  {
    hide Run, TakesValue, Matches, OpenCalls, OpenText;
    if open == [] {
      NothingDriven(out);
    } else {
      var n := |open| - 1;
      OpenDriven(out, open[..n]);
      OpenStep(out, open[..n], open[n], Run(Machine(out, []), OpenCalls(open[..n]), true).value);
      assert open[..n] + [open[n]] == open;
    }
  }

  lemma NothingDriven(out: string)
    ensures Run(Machine(out, []), OpenCalls([]), true) == Some(Machine(out, []))
    ensures out == out + OpenText([]) && Matches([], [])
  {
  }

  lemma OpenStep(out: string, before: seq<Partial>, p: Partial, m: Machine)
    requires Run(Machine(out, []), OpenCalls(before), true) == Some(m)
    requires m.out == out + OpenText(before) && Matches(m.stack, before)
    requires before != [] ==> TakesValue(before[|before| - 1])
    ensures var m' := Run(Machine(out, []), OpenCalls(before + [p]), true);
            m'.Some? && m'.value.out == out + OpenText(before + [p]) && Matches(m'.value.stack, before + [p])
  {
    hide Run, Ready, PartialText, PartialCalls, TakesValue, InnerFrame, LeadTexts, Matches, OpenCalls, OpenText, OuterFrames;
    RunAppend(Machine(out, []), OpenCalls(before), PartialCalls(p), true);
    ReadyInside(m, out, before);
    PartialDriven(m, p);
    Assoc(out, LeadTexts(before), PartialText(p));
    BegunMatches(before, p);
    OpenTextLast(before, p);
    OpenCallsLast(before, p);
  }

  lemma BegunMatches(before: seq<Partial>, p: Partial)
    ensures Matches(OuterFrames(before) + [InnerFrame(p)], before + [p])
  {
    hide OuterFrame, InnerFrame;
  }

  /** What a checked run has written is the text of its progress. */
  lemma ProgressDriven(p: Progress)
    requires Sound(p)
    ensures var m := Run(Machine("", []), ProgressCalls(p), true);
            m.Some? && m.value.out == ProgressText(p) && Matches(m.value.stack, p.open)
  {
    hide Run, OpenText, Matches;
    DocumentsDriven(p.roots);
    RunAppend(Machine("", []), ItemCalls(p.roots), OpenCalls(p.open), true);
    OpenDriven(Documents(p.roots), p.open);
  }

  /** Output is only ever appended. */
  lemma StepGrows(m: Machine, c: Call)
    requires Step(m, c, false).Some?
    ensures m.out <= Step(m, c, false).value.out
  {
    hide TextOf, Quoted, WithTop;
  }

  lemma {:induction false} OutputGrows(m: Machine, cs: seq<Call>)
    requires Run(m, cs, false).Some?
    ensures m.out <= Run(m, cs, false).value.out
    decreases |cs|
  {
    if cs != [] {
      hide Step;
      OutputGrows(m, cs[..|cs| - 1]);
      StepGrows(Run(m, cs[..|cs| - 1], false).value, cs[|cs| - 1]);
    }
  }

  // ------------------------------------------------------ texts that are not JSON

  /** Neither a value nor anything the reader skips starts here. */
  predicate Unreadable(x: string) {
    x != "" && SkipSpace(x) == x && ReadValue(x).Fail?
  }

  lemma BracketUnreadable(w: char, rest: string)
    requires w == ']' || w == '}'
    ensures Unreadable([w] + rest)
  {
    assert DigitCount([w] + rest) == 0;
  }

  lemma Separated(written: string, empty: bool, x: string)
    requires empty ==> written == ""
    ensures written + Separator(empty) + x == if empty then x else written + ("," + x)
  {
  }

  lemma {:induction false} ItemsBreak(ts: seq<Json>, x: string)
    requires Unreadable(x)
    ensures var s := ItemsText(ts) + Separator(ts == []) + x;
            s != "" && SkipSpace(s) == s && ReadItems(s).Fail? && (ts != [] || x[0] != ']' ==> s[0] != ']')
    decreases |ts|
  {
    hide TextOf, ReadValue, ItemsText;
    var s := ItemsText(ts) + Separator(ts == []) + x;
    if ts == [] {
      NothingInside();
      assert s == x;
    } else {
      var later := ItemsText(ts[1..]) + Separator(ts[1..] == []) + x;
      ItemsBreak(ts[1..], x);
      ItemsSplit(ts, "," + x);
      var after := "," + later;
      NothingInside();
      Separated(ItemsText(ts[1..]), ts[1..] == [], x);
      Separated(ItemsText(ts), false, x);
      assert s == TextOf(ts[0]) + after;
      assert after[1..] == later;
      ItemThenFailure(ts[0], after);
    }
  }

  /** An item followed by something that ends neither it nor its array. */
  lemma ItemThenFailure(t: Json, after: string)
    requires after != "" && (after[0] == '}' || (after[0] == ',' && ReadItems(SkipSpace(after[1..])).Fail?))
    ensures var s := TextOf(t) + after;
            s != "" && SkipSpace(s) == s && ReadItems(s).Fail? && s[0] != ']'
  {
    hide TextOf, ReadValue;
    TextStarts(t, after);
    TextReads(t, after);
    SkipIdle(after);
  }

  /** The first item and everything after it. */
  lemma ItemsSplit(ts: seq<Json>, x: string)
    requires ts != []
    ensures ItemsText(ts) + x ==
            TextOf(ts[0]) + (if |ts| == 1 then x else "," + (ItemsText(ts[1..]) + x))
  {
    hide TextOf, ItemsText;
    if |ts| == 1 {
      OneItem(ts);
    } else {
      ItemsTextFirst(ts);
    }
  }

  lemma {:induction false} ItemsEndBadly(ts: seq<Json>, rest: string)
    requires ts != []
    ensures var s := ItemsText(ts) + "}" + rest;
            s != "" && SkipSpace(s) == s && ReadItems(s).Fail? && s[0] != ']'
    decreases |ts|
  {
    hide TextOf, ReadValue, ReadItems, ItemsText;
    var x := "}" + rest;
    var s := ItemsText(ts) + "}" + rest;
    assert s == ItemsText(ts) + x;
    ItemsSplit(ts, x);
    var later := ItemsText(ts[1..]) + x;
    var after := if |ts| == 1 then x else "," + later;
    if |ts| > 1 {
      assert after[1..] == later == ItemsText(ts[1..]) + "}" + rest;
      ItemsEndBadly(ts[1..], rest);
    }
    ItemThenFailure(ts[0], after);
  }

  lemma MembersSplit(ms: seq<Member>, x: string)
    requires ms != []
    ensures MembersText(ms) + x ==
            MemberText(ms[0]) + (if |ms| == 1 then x else "," + (MembersText(ms[1..]) + x))
  {
    hide MemberText, MembersText;
    if |ms| == 1 {
      OneMember(ms);
    } else {
      MembersTextFirst(ms);
    }
  }

  /** A key whose value cannot be read. */
  lemma KeyBreaks(k: string, x: string)
    requires Unreadable(x)
    ensures var s := Quoted(k) + ":" + x;
            s != "" && SkipSpace(s) == s && ReadMembers(s).Fail? && s[0] == '"'
  {
    var s, colon := Quoted(k) + ":" + x, ":" + x;
    assert s[0] == '"';
    hide ReadValue, ReadString, Quoted;
    assert s == Quoted(k) + colon;
    QuotedReads(k, colon);
    SkipIdle(colon);
    assert colon[1..] == x;
    assert ReadMember(s).Fail?;
  }

  lemma {:induction false} MembersBreak(ms: seq<Member>, k: string, x: string)
    requires Unreadable(x)
    ensures var s := MembersText(ms) + Separator(ms == []) + (Quoted(k) + ":" + x);
            s != "" && SkipSpace(s) == s && ReadMembers(s).Fail? && s[0] == '"'
    decreases |ms|
  {
    hide MemberText, ReadMember, MembersText, Quoted, Unreadable;
    var key := Quoted(k) + ":" + x;
    var s := MembersText(ms) + Separator(ms == []) + key;
    if ms == [] {
      NothingInside();
      assert s == key;
      KeyBreaks(k, x);
    } else {
      var later := MembersText(ms[1..]) + Separator(ms[1..] == []) + key;
      MembersBreak(ms[1..], k, x);
      MembersSplit(ms, "," + key);
      var after := "," + later;
      NothingInside();
      Separated(MembersText(ms[1..]), ms[1..] == [], key);
      Separated(MembersText(ms), false, key);
      assert s == MemberText(ms[0]) + after;
      MemberReads(ms[0], after);
      MemberStarts(ms[0], after);
      SkipIdle(after);
      assert after[1..] == later;
    }
  }

  lemma MemberStarts(m: Member, rest: string)
    ensures var s := MemberText(m) + rest;
            s != "" && s[0] == '"' && SkipSpace(s) == s
  {
    hide TextOf, Escaped;
  }

  lemma {:induction false} MembersEndBadly(ms: seq<Member>, rest: string)
    requires ms != []
    ensures var s := MembersText(ms) + "]" + rest;
            s != "" && SkipSpace(s) == s && ReadMembers(s).Fail? && s[0] == '"'
    decreases |ms|
  {
    hide MemberText, ReadMember, MembersText;
    var x := "]" + rest;
    var s := MembersText(ms) + "]" + rest;
    assert s == MembersText(ms) + x;
    MembersSplit(ms, x);
    var later := MembersText(ms[1..]) + x;
    var after := if |ms| == 1 then x else "," + later;
    MemberReads(ms[0], after);
    MemberStarts(ms[0], after);
    SkipIdle(after);
    if |ms| > 1 {
      assert after[1..] == later == MembersText(ms[1..]) + "]" + rest;
      MembersEndBadly(ms[1..], rest);
    }
  }

  /** A container whose items or members cannot be read. */
  lemma ArrayFails(inner: string)
    requires inner != "" && SkipSpace(inner) == inner && inner[0] != ']' && ReadItems(inner).Fail?
    ensures Unreadable("[" + inner)
  {
    hide ReadItems;
    var s := "[" + inner;
    assert s[1..] == inner && s[0] == '[';
    assert ReadArray(SkipSpace(s[1..])).Fail?;
    SkipIdle(s);
  }

  lemma ObjectFails(inner: string)
    requires inner != "" && SkipSpace(inner) == inner && inner[0] != '}' && ReadMembers(inner).Fail?
    ensures Unreadable("{" + inner)
  {
    hide ReadMembers;
    var s := "{" + inner;
    assert s[1..] == inner && s[0] == '{';
    assert ReadObject(SkipSpace(s[1..])).Fail?;
    SkipIdle(s);
  }

  /** A container that takes a value is unreadable if that value is. */
  lemma LeadBreaks(p: Partial, x: string)
    requires TakesValue(p) && Unreadable(x) && (p.PartialArray? ==> x[0] != ']')
    ensures Unreadable(LeadText(p) + x) && (LeadText(p) + x)[0] != ']'
  {
    hide Unreadable, ItemsText, MembersText, Quoted, ReadItems, ReadMembers;
    match p
    case PartialArray(items) =>
      var inner := ItemsText(items) + Separator(items == []) + x;
      assert LeadText(p) + x == "[" + inner;
      NotEmpty(x);
      ItemsBreak(items, x);
      ArrayFails(inner);
    case PartialObject(members, pending) =>
      var inner := MembersText(members) + Separator(members == []) + (Quoted(pending.value) + ":" + x);
      assert LeadText(p) + x == "{" + inner;
      MembersBreak(members, pending.value, x);
      ObjectFails(inner);
  }

  lemma NotEmpty(x: string)
    requires Unreadable(x)
    ensures x != "" && SkipSpace(x) == x
  {
    hide ReadValue;
  }

  lemma {:induction false} LeadsBreak(open: seq<Partial>, x: string)
    requires forall i :: 0 <= i < |open| ==> TakesValue(open[i])
    requires Unreadable(x) && x[0] != ']'
    ensures Unreadable(LeadTexts(open) + x)
    decreases |open|
  {
    hide Unreadable, LeadText, TakesValue;
    if open == [] {
      assert "" + x == x;
    } else {
      var n := |open| - 1;
      NotEmpty(x);
      LeadBreaks(open[n], x);
      var y := LeadText(open[n]) + x;
      LeadsBreak(open[..n], y);
      Assoc(LeadTexts(open[..n]), LeadText(open[n]), x);
    }
  }

  /** A container followed by a bracket that does not close it. */
  lemma BadEnd(p: Partial, w: char, rest: string)
    requires (w == ']' || w == '}') && !Fits(InnerFrame(p), w)
    ensures var s := PartialText(p) + [w] + rest; Unreadable(s) && s[0] != ']'
  {
    hide Unreadable, ItemsText, MembersText, Quoted, ReadItems, ReadMembers, ReadValue;
    var s, x := PartialText(p) + [w] + rest, [w] + rest;
    BracketUnreadable(w, rest);
    if TakesValue(p) && (p.PartialObject? || p.items == []) {
      assert LeadText(p) + x == s;
      LeadBreaks(p, x);
    } else if p.PartialArray? {
      var inner := ItemsText(p.items) + "}" + rest;
      assert s == "[" + inner;
      ItemsEndBadly(p.items, rest);
      ArrayFails(inner);
    } else {
      var inner := MembersText(p.members) + "]" + rest;
      assert s == "{" + inner;
      if p.members == [] {
        NothingInside();
        assert inner == "]" + rest;
        NoMember(rest);
      } else {
        MembersEndBadly(p.members, rest);
      }
      ObjectFails(inner);
    }
  }

  lemma NoMember(rest: string)
    ensures var s := "]" + rest; SkipSpace(s) == s && ReadMembers(s).Fail?
  {
  }

  // --------------------------------------------------------------- the exact result

  lemma DocumentsFirst(ts: seq<Json>)
    requires ts != []
    ensures Documents(ts) == TextOf(ts[0]) + Documents(ts[1..])
    decreases |ts|
  {
    hide TextOf;
    var n := |ts| - 1;
    if n == 0 {
      assert Documents(ts[..0]) == "" && Documents(ts[1..]) == "";
      assert "" + TextOf(ts[0]) == TextOf(ts[0]) + "";
    } else {
      DocumentsFirst(ts[..n]);
      assert ts[..n][1..] == ts[1..][..n - 1];
      Assoc(TextOf(ts[0]), Documents(ts[1..n]), TextOf(ts[n]));
    }
  }

  /** Anything but space after the first root is one value too many. */
  lemma RootThenMore(ts: seq<Json>, more: string)
    requires ts != [] && Container(ts[0]) && SkipSpace(Documents(ts[1..]) + more) != ""
    ensures ReadDocument(Documents(ts) + more) == None
  {
    hide TextOf, ReadValue, Documents;
    var rest := Documents(ts[1..]) + more;
    DocumentsFirst(ts);
    Assoc(TextOf(ts[0]), Documents(ts[1..]), more);
    TextReads(ts[0], rest);
    TextStarts(ts[0], rest);
  }

  lemma UnreadableDocument(x: string)
    requires Unreadable(x)
    ensures ReadDocument(x) == None
  {
    hide ReadValue;
  }

  /** The text of a progress whose innermost container is ended by the wrong bracket is not JSON. */
  lemma MisfitUnreadable(p: Progress, w: char, rest: string)
    requires Sound(p) && p.open != []
    requires (w == ']' || w == '}') && !Fits(InnerFrame(p.open[|p.open| - 1]), w)
    ensures ReadDocument(ProgressText(p) + [w] + rest) == None
  {
    hide Unreadable, PartialText, LeadTexts, ReadDocument, Documents, Fits, InnerFrame, TakesValue;
    var n := |p.open| - 1;
    var x := PartialText(p.open[n]) + [w] + rest;
    BadEnd(p.open[n], w, rest);
    NotEmpty(x);
    LeadsBreak(p.open[..n], x);
    var broken := LeadTexts(p.open[..n]) + x;
    assert ProgressText(p) + [w] + rest == Documents(p.roots) + broken;
    if p.roots == [] {
      NoDocuments();
      assert "" + broken == broken;
      UnreadableDocument(broken);
    } else {
      NotEmpty(broken);
      LaterText(p.roots[1..], broken);
      RootThenMore(p.roots, broken);
    }
  }

  lemma NoDocuments()
    ensures Documents([]) == "" && ReadDocument("") == None
  {
  }

  /** Further roots, or a broken one, are not white space. */
  lemma LaterText(ts: seq<Json>, x: string)
    requires ts != [] || (x != "" && SkipSpace(x) == x)
    ensures SkipSpace(Documents(ts) + x) != ""
  {
    hide TextOf, Documents;
    if ts == [] {
      NoDocuments();
      assert "" + x == x;
    } else {
      DocumentsFirst(ts);
      Assoc(TextOf(ts[0]), Documents(ts[1..]), x);
      TextStarts(ts[0], Documents(ts[1..]) + x);
    }
  }

  /** The first end call that does not fit. */
  lemma {:induction false} FirstMisfit(cs: seq<Call>) returns (k: nat)
    requires Run(Machine("", []), cs, false).Some? && Run(Machine("", []), cs, true).None?
    ensures k < |cs| && Run(Machine("", []), cs[..k], true).Some? && Run(Machine("", []), cs[..k + 1], true).None?
    decreases |cs|
  {
    hide Step;
    var n := |cs| - 1;
    if Run(Machine("", []), cs[..n], true).Some? {
      assert cs[..n + 1] == cs;
      return n;
    }
    k := FirstMisfit(cs[..n]);
    assert cs[..n][..k] == cs[..k] && cs[..n][..k + 1] == cs[..k + 1];
  }

  function BracketOf(c: Call): char {
    if c.EndObject? then '}' else ']'
  }

  /** Only an unfitting end call separates the two machines. */
  lemma MisfitStep(m: Machine, c: Call)
    requires Step(m, c, false).Some? && Step(m, c, true).None?
    ensures (c.EndObject? || c.EndArray?) && m.stack != [] && !Fits(m.stack[|m.stack| - 1], BracketOf(c))
    ensures Step(m, c, false).value.out == m.out + [BracketOf(c)]
  {
    hide Advance, Quoted, TextOf;
  }

  lemma RunPrefix(m: Machine, cs: seq<Call>, k: nat)
    requires k <= |cs| && Run(m, cs, false).Some?
    ensures Run(m, cs[..k], false).Some? && Run(m, cs[..k], false).value.out <= Run(m, cs, false).value.out
  {
    hide Run;
    assert cs == cs[..k] + cs[k..];
    RunAppend(m, cs[..k], cs[k..], false);
    OutputGrows(Run(m, cs[..k], false).value, cs[k..]);
  }

  /** An unfitting end call anywhere leaves a text that is not JSON. */
  lemma MisfitRun(cs: seq<Call>)
    requires Run(Machine("", []), cs, false).Some? && Run(Machine("", []), cs, true).None?
    ensures ReadDocument(Run(Machine("", []), cs, false).value.out) == None
  {
    hide Step, ReadDocument, ProgressCalls, ProgressText, Sound, Matches, Fits;
    var start := Machine("", []);
    var k := FirstMisfit(cs);
    var m := Run(start, cs[..k], true).value;
    CheckedRuns(start, cs[..k]);
    RunPrefix(start, cs, k + 1);
    assert cs[..k + 1][..k] == cs[..k];
    MisfitStep(m, cs[k]);
    var p := RunExplained(cs[..k]);
    ProgressDriven(p);
    InnermostFrame(m.stack, p.open);
    var w := BracketOf(cs[k]);
    var out := Run(start, cs, false).value.out;
    assert ProgressText(p) + [w] <= out;
    MisfitUnreadable(p, w, out[|ProgressText(p)| + 1..]);
    assert ProgressText(p) + [w] + out[|ProgressText(p)| + 1..] == out;
  }

  lemma InnermostFrame(stack: seq<Frame>, open: seq<Partial>)
    requires Matches(stack, open) && stack != []
    ensures open != [] && stack[|stack| - 1] == InnerFrame(open[|open| - 1])
  {
    hide InnerFrame, OuterFrame;
  }

  /** Several roots, or none, are not a JSON text. */
  lemma RootsUnreadable(ts: seq<Json>)
    requires AllContainers(ts) && |ts| != 1
    ensures ReadDocument(Documents(ts)) == None
  {
    hide Documents, ReadDocument;
    NoDocuments();
    if ts != [] {
      assert Documents(ts[1..]) + "" == Documents(ts[1..]) && Documents(ts) + "" == Documents(ts);
      LaterText(ts[1..], "");
      RootThenMore(ts, "");
    }
  }

  /**
   For every call sequence that the writer completes: what it wrote is a JSON text exactly when the
   calls are those of one container tree, and the text read is then that tree.
   */
  lemma JsonIffOneTree(cs: seq<Call>, out: string)
    requires Run(Machine("", []), cs, false) == Some(Machine(out, []))
    ensures ReadDocument(out).Some? <==> exists t :: Container(t) && cs == Calls(t)
    ensures forall t :: Container(t) && cs == Calls(t) ==> ReadDocument(out) == Some(t)
  {
    hide Run, ReadDocument, Calls, ProgressCalls, Documents;
    forall t | Container(t) && cs == Calls(t) ensures ReadDocument(out) == Some(t) {
      WrittenReadsBack(t);
    }
    if Run(Machine("", []), cs, true).None? {
      MisfitRun(cs);
    } else {
      CheckedRuns(Machine("", []), cs);
      var p := RunExplained(cs);
      ProgressCallsClosed(p);
      DocumentsDriven(p.roots);
      if |p.roots| == 1 {
        OneRoot(p.roots);
      } else {
        RootsUnreadable(p.roots);
      }
    }
  }

  lemma ProgressCallsClosed(p: Progress)
    requires p.open == []
    ensures ProgressCalls(p) == ItemCalls(p.roots)
  {
    assert OpenCalls([]) == [];
  }

  lemma OneRoot(ts: seq<Json>)
    requires |ts| == 1
    ensures ItemCalls(ts) == Calls(ts[0])
  {
    hide Calls;
    assert ItemCalls(ts[..0]) == [];
  }

  // ------------------------------------------- the same condition, call by call

  /** Every end call fits, and the stack is empty at the start and at the end only. */
  predicate Balanced(cs: seq<Call>) {
    && cs != []
    && (forall k :: 0 < k < |cs| ==> InsideAt(cs, k))
    && Run(Machine("", []), cs, true).Some? && Run(Machine("", []), cs, true).value.stack == []
  }

  predicate InsideAt(cs: seq<Call>, k: nat)
    requires k <= |cs|
  {
    Run(Machine("", []), cs[..k], true).Some? && Run(Machine("", []), cs[..k], true).value.stack != []
  }

  lemma {:induction false} ItemCallsFirst(ts: seq<Json>)
    requires ts != []
    ensures ItemCalls(ts) == Calls(ts[0]) + ItemCalls(ts[1..])
    decreases |ts|
  {
    hide Calls;
    var n := |ts| - 1;
    if n == 0 {
      OneRoot(ts);
      assert ItemCalls(ts[1..]) == [];
    } else {
      ItemCallsFirst(ts[..n]);
      assert ts[..n][1..] == ts[1..][..n - 1];
      CallsRegroup(Calls(ts[0]), ItemCalls(ts[1..n]), Calls(ts[n]), []);
    }
  }

  /** The calls of a tree do not start with the calls of another one. */
  lemma NoTreeInside(t: Json, ts: seq<Json>, k: nat)
    requires Container(t) && AllContainers(ts) && ts != [] && k <= |Calls(t)| && Calls(t)[..k] == ItemCalls(ts)
    ensures k == |Calls(t)|
  {
    hide Calls, Documents, Run, TextOf, ReadValue, ItemCalls;
    var cs, start := Calls(t), Machine("", []);
    WritesWholeTree(t, false);
    DocumentsDriven(ts);
    CheckedRuns(start, ItemCalls(ts));
    RunPrefix(start, cs, k);
    DocumentsFirst(ts);
    ItemCallsFirst(ts);
    var rest := TextOf(t)[|TextOf(ts[0])|..];
    assert TextOf(t) == TextOf(ts[0]) + rest && TextOf(t) == TextOf(t) + "";
    TextReads(ts[0], rest);
    TextReads(t, "");
    assert ts[0] == t;
  }

  lemma TreeIsBalanced(t: Json)
    requires Container(t)
    ensures Balanced(Calls(t))
  {
    hide Run, ProgressCalls, Calls;
    var cs := Calls(t);
    WritesWholeTree(t, true);
    CallsNotEmpty(t);
    forall k | 0 < k < |cs| ensures InsideAt(cs, k) {
      assert cs == cs[..k] + cs[k..];
      RunAppend(Machine("", []), cs[..k], cs[k..], true);
      var p := RunExplained(cs[..k]);
      if p.open == [] {
        ProgressCallsClosed(p);
        NoCalls();
        NoTreeInside(t, p.roots, k);
        assert false;
      }
    }
  }

  lemma CallsNotEmpty(t: Json)
    ensures Calls(t) != []
  {
    hide ItemCalls, MembersCalls;
  }

  lemma NoCalls()
    ensures ItemCalls([]) == []
  {
  }

  /** Being the calls of one tree is a condition that a client can check call by call. */
  lemma OneTreeIffBalanced(cs: seq<Call>)
    ensures (exists t :: Container(t) && cs == Calls(t)) <==> Balanced(cs)
  {
    hide Run, ProgressCalls, Calls, ItemCalls;
    if t :| Container(t) && cs == Calls(t) {
      TreeIsBalanced(t);
    }
    if Balanced(cs) {
      var p := RunExplained(cs);
      ProgressCallsClosed(p);
      NoCalls();
      if |p.roots| == 1 {
        OneRoot(p.roots);
      } else {
        var ts := p.roots;
        ItemCallsFirst(ts);
        var k := |Calls(ts[0])|;
        CallsNotEmpty(ts[0]);
        CallsNotEmpty(ts[1]);
        ItemCallsFirst(ts[1..]);
        assert cs[..k] == Calls(ts[0]);
        assert InsideAt(cs, k);
        WritesWholeTree(ts[0], true);
        assert false;
      }
    }
  }
}
