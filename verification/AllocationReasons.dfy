/**
 Why a bracket is refused: every flag and the reported reason, read off the events alone.
 */
module AllocationReasons {
  import opened Basics
  import opened Accounting
  import opened AllocationRuns

  /** What one event does to the memory of a bounded table. */
  function Remember(capacity: nat, m: map<nat, Entry>, e: Event): map<nat, Entry> {
    if e.Allocated? && e.ptr !in m && |m| < capacity then m[e.ptr := e.entry]
    else if e.Deallocated? && e.ptr != 0 then m - {e.ptr}
    else m
  }

  /** What a table of this capacity remembers after the events. */
  function Kept(capacity: nat, es: seq<Event>): map<nat, Entry> {
    if es == [] then map[] else Remember(capacity, Kept(capacity, es[..|es| - 1]), es[|es| - 1])
  }

  predicate SuppliesWrongSize(m: map<nat, Entry>, e: Event) {
    e.Deallocated? && e.ptr != 0 && e.ptr in m && e.supplied.Some? && e.supplied.value != m[e.ptr].raw
  }

  datatype Fault = Reentry | Full | Stale | WrongSize | Wrap | Unknown

  /** Event `k` is a fault of this kind. */
  ghost predicate FaultAt(capacity: nat, es: seq<Event>, k: nat, f: Fault)
    requires k < |es|
  {
    var m, e := Kept(capacity, es[..k]), es[k];
    match f
    case Reentry => e.Reentered?
    case Full => e.Allocated? && e.ptr !in m && |m| >= capacity
    case Stale => e.Allocated? && e.ptr in m
    case WrongSize => SuppliesWrongSize(m, e)
    case Wrap => SumRaw(Kept(capacity, es[..k + 1])) > U64_MAX
    case Unknown => e.Deallocated? && e.ptr != 0 && e.ptr !in m
  }

  /** A fault of this kind lies among the events from `from` on. */
  ghost predicate Happens(capacity: nat, es: seq<Event>, from: nat, f: Fault) {
    exists k :: from <= k < |es| && FaultAt(capacity, es, k, f)
  }

  lemma HappensLast(capacity: nat, es: seq<Event>, e: Event, from: nat, f: Fault)
    requires from <= |es|
    ensures Happens(capacity, es + [e], from, f) <==>
            Happens(capacity, es, from, f) || FaultAt(capacity, es + [e], |es|, f)
  {
    hide Kept, SumRaw;
    var longer := es + [e];
    forall k | 0 <= k < |es| ensures FaultAt(capacity, longer, k, f) == FaultAt(capacity, es, k, f) {
      assert longer[..k] == es[..k] && longer[..k + 1] == es[..k + 1] && longer[k] == es[k];
    }
    if Happens(capacity, es, from, f) {
      var k :| from <= k < |es| && FaultAt(capacity, es, k, f);
      assert FaultAt(capacity, longer, k, f);
    }
  }

  /** The flag that a fault leaves behind. */
  function Flag(l: Ledger, f: Fault): bool {
    match f
    case Reentry => l.book.reentered
    case Full => l.book.tableOverflowed
    case Stale => l.book.staleCollision
    case WrongSize => l.book.sizedMismatch
    case Wrap => l.book.wrapped
    case Unknown => l.bracket.unknownDelete
  }

  /** The table holds what it should, and every flag that is never reset tells its fault. */
  ghost predicate Tells(b: Book, capacity: nat, es: seq<Event>) {
    && b.capacity == capacity && b.tracked == Kept(capacity, es)
    && (!b.wrapped ==> b.live == SumRaw(b.tracked))
    && (b.reentered <==> Happens(capacity, es, 0, Reentry))
    && (b.tableOverflowed <==> Happens(capacity, es, 0, Full))
    && (b.staleCollision <==> Happens(capacity, es, 0, Stale))
    && (b.sizedMismatch <==> Happens(capacity, es, 0, WrongSize))
    && (b.wrapped <==> Happens(capacity, es, 0, Wrap))
  }

  lemma KeptLast(capacity: nat, es: seq<Event>, e: Event)
    ensures Kept(capacity, es + [e]) == Remember(capacity, Kept(capacity, es), e)
  {
    hide Remember;
    assert (es + [e])[..|es|] == es;
  }

  /** The fault that the last event is, in terms of the table before and after it. */
  lemma FaultAtLast(capacity: nat, es: seq<Event>, e: Event, f: Fault)
    ensures var m := Kept(capacity, es);
            FaultAt(capacity, es + [e], |es|, f) <==>
            match f
            case Reentry => e.Reentered?
            case Full => e.Allocated? && e.ptr !in m && |m| >= capacity
            case Stale => e.Allocated? && e.ptr in m
            case WrongSize => SuppliesWrongSize(m, e)
            case Wrap => SumRaw(Kept(capacity, es + [e])) > U64_MAX
            case Unknown => e.Deallocated? && e.ptr != 0 && e.ptr !in m
  {
    hide Kept, SumRaw;
    assert (es + [e])[..|es|] == es && (es + [e])[..|es| + 1] == es + [e] && (es + [e])[|es|] == e;
  }

  /** One event on the book, without naming the functions that make it up. */
  ghost predicate BookMoves(b: Book, b': Book, e: Event) {
    && b'.capacity == b.capacity
    && b'.tracked == Remember(b.capacity, b.tracked, e)
    && (b'.reentered <==> (b.reentered || e.Reentered?))
    && (b'.tableOverflowed <==> (b.tableOverflowed || (e.Allocated? && e.ptr !in b.tracked && |b.tracked| >= b.capacity)))
    && (b'.staleCollision <==> (b.staleCollision || (e.Allocated? && e.ptr in b.tracked)))
    && (b'.sizedMismatch <==> (b.sizedMismatch || SuppliesWrongSize(b.tracked, e)))
    && (b'.wrapped <==> (b.wrapped || SumRaw(b'.tracked) > U64_MAX))
    && (!b'.wrapped ==> b'.live == SumRaw(b'.tracked))
  }

  lemma TrackMoves(b: Book, p: nat, entry: Entry)
    requires !b.wrapped ==> b.live == SumRaw(b.tracked)
    requires b.wrapped || SumRaw(b.tracked) <= U64_MAX
    ensures BookMoves(b, Track(b, p, entry), Allocated(p, entry))
  {
    hide SumRaw;
    if p !in b.tracked && |b.tracked| < b.capacity {
      SumInsert(b.tracked, p, entry);
    }
  }

  lemma UntrackMoves(b: Book, p: nat, supplied: Option<u64>)
    requires !b.wrapped ==> b.live == SumRaw(b.tracked)
    requires p != 0 && p in b.tracked
    ensures BookMoves(b, Untrack(b, p, supplied), Deallocated(p, supplied))
  {
    hide SumRaw;
    SumRemove(b.tracked, p);
  }

  lemma BookStep(l: Ledger, e: Event)
    requires !l.book.wrapped ==> l.book.live == SumRaw(l.book.tracked)
    ensures BookMoves(l.book, Apply(l, e).book, e)
  {
    hide SumRaw, Track, Untrack, BookMoves;
    match e
    case Allocated(p, entry) => TrackMoves(l.book, p, entry);
    case Deallocated(p, supplied) =>
      if p != 0 && p in l.book.tracked {
        UntrackMoves(l.book, p, supplied);
      } else {
        UntouchedMoves(l.book, e);
      }
    case _ => UntouchedMoves(l.book, e);
  }

  /** Events that leave the table alone. */
  lemma UntouchedMoves(b: Book, e: Event)
    requires !b.wrapped ==> b.live == SumRaw(b.tracked)
    requires !e.Allocated? && (e.Deallocated? ==> e.ptr == 0 || e.ptr !in b.tracked)
    ensures BookMoves(b, b.(reentered := b.reentered || e.Reentered?), e)
  {
    hide SumRaw;
    if e.Deallocated? && e.ptr != 0 {
      assert b.tracked - {e.ptr} == b.tracked;
    }
  }

  lemma TellsStep(l: Ledger, e: Event, capacity: nat, es: seq<Event>)
    requires Tells(l.book, capacity, es)
    ensures Tells(Apply(l, e).book, capacity, es + [e])
  {
    BookStep(l, e);
    KeptLast(capacity, es, e);
    hide Apply, Kept, SumRaw, FaultAt, Remember, SuppliesWrongSize;
    forall f: Fault
      ensures Happens(capacity, es + [e], 0, f) <==> Happens(capacity, es, 0, f) || FaultAt(capacity, es + [e], |es|, f)
    {
      HappensLast(capacity, es, e, 0, f);
    }
    FaultAtLast(capacity, es, e, Reentry);
    FaultAtLast(capacity, es, e, Full);
    FaultAtLast(capacity, es, e, Stale);
    FaultAtLast(capacity, es, e, WrongSize);
    FaultAtLast(capacity, es, e, Wrap);
    hide Happens;
  }

  lemma {:induction false} RunTells(capacity: nat, actions: seq<Action>)
    requires Run(capacity, actions).Some?
    ensures Tells(Run(capacity, actions).value.book, capacity, TrafficOf(actions))
  {
    hide Tells, Apply;
    if actions == [] {
      NothingToTell(capacity);
    } else {
      var init := actions[..|actions| - 1];
      RunTells(capacity, init);
      match actions[|actions| - 1]
      case Traffic(e) => TellsStep(Run(capacity, init).value, e, capacity, TrafficOf(init));
      case _ =>
        assert TrafficOf(init) + [] == TrafficOf(init);
    }
  }

  lemma NothingToTell(capacity: nat)
    ensures Tells(EmptyBook(capacity), capacity, [])
  {
  }

  /** The events of the body, after the history `h`, in a bracket that opened at `start`. */
  lemma {:induction false} PlayTells(capacity: nat, start: Ledger, h: seq<Event>, body: seq<Event>)
    requires Tells(start.book, capacity, h) && start.bracket.active && !start.bracket.unknownDelete
    ensures var l := Play(start, body);
            && Tells(l.book, capacity, h + body) && l.bracket.active
            && (l.bracket.unknownDelete <==> Happens(capacity, h + body, |h|, Unknown))
  {
    hide Apply, Tells, Happens, FaultAt, Kept;
    if body == [] {
      assert h + body == h;
      NothingInside(capacity, h);
    } else {
      var init, e := body[..|body| - 1], body[|body| - 1];
      PlayTells(capacity, start, h, init);
      var l := Play(start, init);
      TellsStep(l, e, capacity, h + init);
      assert h + body == (h + init) + [e];
      HappensLast(capacity, h + init, e, |h|, Unknown);
      FaultAtLast(capacity, h + init, e, Unknown);
      UnknownStep(l, e);
      TellsTracked(l.book, capacity, h + init);
    }
  }

  lemma NothingInside(capacity: nat, h: seq<Event>)
    ensures !Happens(capacity, h, |h|, Unknown)
  {
  }

  lemma TellsTracked(b: Book, capacity: nat, es: seq<Event>)
    requires Tells(b, capacity, es)
    ensures b.tracked == Kept(capacity, es)
  {
    hide Happens;
  }

  lemma UnknownStep(l: Ledger, e: Event)
    requires l.bracket.active
    ensures var k := Apply(l, e).bracket;
            && k.active
            && (k.unknownDelete <==> l.bracket.unknownDelete || (e.Deallocated? && e.ptr != 0 && e.ptr !in l.book.tracked))
  {
    hide Bump;
  }

  /** The fault lies in the whole history, or for unknown deletes inside the bracket. */
  ghost predicate Faulty(capacity: nat, h: seq<Event>, body: seq<Event>, f: Fault) {
    Happens(capacity, h + body, if f.Unknown? then |h| else 0, f)
  }

  /**
   For every history and body: the reported reason is the first, in this order, of a re-entered
   record call, an allocation that found the table full, one that found its pointer still stored, a
   sized delete with the wrong size, live bytes beyond 64 bits, and a delete inside the bracket of a
   pointer that the table does not hold; and the bracket is eligible exactly when there is none.
   */
  lemma ReasonIsFirstFault(capacity: nat, pre: seq<Action>, body: seq<Event>, aborted: bool)
    requires Run(capacity, pre).Some? && !Run(capacity, pre).value.bracket.active
    ensures
      var before := Run(capacity, pre).value.book.live;
      var l := AtClose(capacity, pre, body);
      var h := TrafficOf(pre);
      && before <= l.bracket.peak
      && var m := Report(l, before, aborted);
      && (m.eligible <==> forall f: Fault :: !Faulty(capacity, h, body, f))
      && m.reason == (if Faulty(capacity, h, body, Reentry) then InstrumentationError
                      else if Faulty(capacity, h, body, Full) then TableOverflow
                      else if Faulty(capacity, h, body, Stale) then StaleCollision
                      else if Faulty(capacity, h, body, WrongSize) then SizedMismatch
                      else if Faulty(capacity, h, body, Wrap) then LiveWrap
                      else if Faulty(capacity, h, body, Unknown) then UnknownDelete
                      else NoReason)
  {
    EligibleBracketIsExact(capacity, pre, body, aborted);
    RunTells(capacity, pre);
    PlayTells(capacity, Open(Run(capacity, pre).value).value, TrafficOf(pre), body);
    hide Run, Play, Kept, Happens, SumRaw;
    var l, h := AtClose(capacity, pre, body), TrafficOf(pre);
    forall f: Fault ensures Flag(l, f) <==> Faulty(capacity, h, body, f) {
    }
    hide Faulty;
    NoFaults(l);
    assert Flag(l, Reentry) == Faulty(capacity, h, body, Reentry) && Flag(l, Full) == Faulty(capacity, h, body, Full);
    assert Flag(l, Stale) == Faulty(capacity, h, body, Stale) && Flag(l, WrongSize) == Faulty(capacity, h, body, WrongSize);
    assert Flag(l, Wrap) == Faulty(capacity, h, body, Wrap) && Flag(l, Unknown) == Faulty(capacity, h, body, Unknown);
  }

  lemma NoFaults(l: Ledger)
    ensures Eligibility(l) == NoReason <==> forall f: Fault :: !Flag(l, f)
  {
    if forall f: Fault :: !Flag(l, f) {
      assert !Flag(l, Reentry) && !Flag(l, Full) && !Flag(l, Stale);
      assert !Flag(l, WrongSize) && !Flag(l, Wrap) && !Flag(l, Unknown);
    }
  }
}
