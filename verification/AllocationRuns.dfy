/**
 Whole runs of the instrumentation.  The reference is an ideal bookkeeper with an
 unbounded table and unbounded integers; a bracket that closes eligible is proved
 to report exactly what that bookkeeper would, for every history and every body.
 */
module AllocationRuns {
  import opened Basics
  import opened Accounting

  /** Traffic seen by the instrumentation. */
  datatype Event =
    | Allocated(ptr: nat, entry: Entry)
    | Deallocated(ptr: nat, supplied: Option<u64>)
    | Failed
    | Reentered

  /** Traffic interleaved with opening and closing measurement scopes. */
  datatype Action = Traffic(event: Event) | OpenScope | CloseScope

  function Apply(l: Ledger, e: Event): Ledger {
    match e
    case Allocated(p, entry) => RecordAllocation(l, p, entry)
    case Deallocated(p, supplied) => RecordDeallocation(l, p, supplied)
    case Failed => RecordFailure(l)
    case Reentered => Reenter(l)
  }

  function Play(l: Ledger, es: seq<Event>): Ledger {
    if es == [] then l else Apply(Play(l, es[..|es| - 1]), es[|es| - 1])
  }

  /** A whole run; `None` once a nested scope aborted the process. */
  function Run(capacity: nat, actions: seq<Action>): Option<Ledger> {
    if actions == [] then Some(Initial(capacity))
    else
      match Run(capacity, actions[..|actions| - 1])
      case None => None
      case Some(l) =>
        match actions[|actions| - 1]
        case Traffic(e) => Some(Apply(l, e))
        case OpenScope => Open(l)
        case CloseScope => Some(Close(l))
  }

  function TrafficOf(actions: seq<Action>): seq<Event> {
    if actions == [] then []
    else
      TrafficOf(actions[..|actions| - 1]) +
      match actions[|actions| - 1] { case Traffic(e) => [e] case _ => [] }
  }

  // ------------------------------------------------------- the ideal bookkeeper

  ghost function SumRaw(m: map<nat, Entry>): nat {
    if m == map[] then 0
    else var p :| p in m; m[p].raw + SumRaw(m - {p})
  }

  /** Pointers allocated and not yet deleted, with no limit on their number. */
  function Outstanding(es: seq<Event>): map<nat, Entry> {
    if es == [] then map[]
    else
      var m := Outstanding(es[..|es| - 1]);
      match es[|es| - 1]
      case Allocated(p, entry) => m[p := entry]
      case Deallocated(p, _) => if p == 0 then m else m - {p}
      case _ => m
  }

  ghost function IdealLive(es: seq<Event>): nat {
    SumRaw(Outstanding(es))
  }

  function AllocationCount(es: seq<Event>): nat {
    if es == [] then 0
    else AllocationCount(es[..|es| - 1]) + if es[|es| - 1].Allocated? then 1 else 0
  }

  function AllocatedTotal(es: seq<Event>): nat {
    if es == [] then 0
    else AllocatedTotal(es[..|es| - 1]) + match es[|es| - 1] { case Allocated(_, e) => e.raw as int case _ => 0 }
  }

  function BackingTotal(es: seq<Event>): nat {
    if es == [] then 0
    else BackingTotal(es[..|es| - 1]) + match es[|es| - 1] { case Allocated(_, e) => e.backing as int case _ => 0 }
  }

  /** The entry a delete event releases from the map `m`, if any. */
  function Releases(m: map<nat, Entry>, e: Event): Option<Entry> {
    if e.Deallocated? && e.ptr != 0 && e.ptr in m then Some(m[e.ptr]) else None
  }

  /** Number of deletes in `body` that hit an outstanding pointer, after history `h`. */
  function ReleaseCount(h: seq<Event>, body: seq<Event>): nat {
    if body == [] then 0
    else
      var init := body[..|body| - 1];
      ReleaseCount(h, init) + if Releases(Outstanding(h + init), body[|body| - 1]).Some? then 1 else 0
  }

  /** Bytes released by the deletes in `body`, after history `h`. */
  function ReleasedTotal(h: seq<Event>, body: seq<Event>): nat {
    if body == [] then 0
    else
      var init := body[..|body| - 1];
      ReleasedTotal(h, init) +
      match Releases(Outstanding(h + init), body[|body| - 1]) { case Some(e) => e.raw as int case None => 0 }
  }

  // ------------------------------------------------------------ sums over a map

  lemma {:induction false} SumRemove(m: map<nat, Entry>, p: nat)
    requires p in m
    ensures SumRaw(m) == m[p].raw + SumRaw(m - {p})
    decreases |m|
  {
    var q :| q in m && SumRaw(m) == m[q].raw + SumRaw(m - {q});
    if p != q {
      SumRemove(m - {q}, p);
      SumRemove(m - {p}, q);
      assert m - {q} - {p} == m - {p} - {q};
    }
  }

  lemma SumInsert(m: map<nat, Entry>, p: nat, e: Entry)
    requires p !in m
    ensures SumRaw(m[p := e]) == SumRaw(m) + e.raw
  {
    SumRemove(m[p := e], p);
    assert m[p := e] - {p} == m;
  }

  // ------------------------------------------------------- what every run keeps

  /** The live counter is the sum over the tracked pointers until the wrap flag is set. */
  ghost predicate Balanced(b: Book) {
    && |b.tracked| <= b.capacity
    && (b.wrapped || b.live == SumRaw(b.tracked))
  }

  predicate Clean(b: Book) {
    !b.tableOverflowed && !b.staleCollision && !b.reentered
  }

  /** A clean book tracks exactly the ideally outstanding pointers. */
  ghost predicate Faithful(b: Book, h: seq<Event>) {
    Clean(b) ==> b.tracked == Outstanding(h)
  }

  lemma TrackKeeps(b: Book, ptr: nat, e: Entry)
    requires Balanced(b)
    ensures Balanced(Track(b, ptr, e))
    ensures Clean(Track(b, ptr, e)) ==> Clean(b)
    ensures b.wrapped ==> Track(b, ptr, e).wrapped
    ensures Track(b, ptr, e).capacity == b.capacity
  {
    hide SumRaw;
    if Outcome(b, ptr).Inserted? {
      SumInsert(b.tracked, ptr, e);
    }
  }

  lemma UntrackKeeps(b: Book, ptr: nat, supplied: Option<u64>)
    requires Balanced(b) && ptr in b.tracked
    ensures Balanced(Untrack(b, ptr, supplied)) && Clean(Untrack(b, ptr, supplied)) == Clean(b)
    ensures b.wrapped ==> Untrack(b, ptr, supplied).wrapped
    ensures Untrack(b, ptr, supplied).capacity == b.capacity
    ensures !b.wrapped ==> b.tracked[ptr].raw <= b.live && !Untrack(b, ptr, supplied).wrapped
  {
    hide SumRaw;
    SumRemove(b.tracked, ptr);
  }

  lemma ApplyKeeps(l: Ledger, e: Event)
    requires Balanced(l.book)
    ensures Balanced(Apply(l, e).book)
    ensures Clean(Apply(l, e).book) ==> Clean(l.book)
    ensures l.book.wrapped ==> Apply(l, e).book.wrapped
    ensures Apply(l, e).book.capacity == l.book.capacity
  {
    hide SumRaw, Bump, Track, Untrack, Balanced;
    match e
    case Allocated(p, entry) => TrackKeeps(l.book, p, entry);
    case Deallocated(p, supplied) =>
      if p != 0 && p in l.book.tracked {
        UntrackKeeps(l.book, p, supplied);
      }
    case _ => NothingKept(l.book);
  }

  lemma NothingKept(b: Book)
    requires Balanced(b)
    ensures Balanced(b.(reentered := true))
  {
    hide SumRaw;
  }

  lemma ApplyFaithful(l: Ledger, e: Event, h: seq<Event>)
    requires Faithful(l.book, h)
    ensures Faithful(Apply(l, e).book, h + [e])
  {
    assert (h + [e])[..|h + [e]| - 1] == h;
  }

  lemma {:induction false} RunKeeps(capacity: nat, actions: seq<Action>)
    requires Run(capacity, actions).Some?
    ensures var b := Run(capacity, actions).value.book;
            Balanced(b) && Faithful(b, TrafficOf(actions)) && b.capacity == capacity
  {
    if actions != [] {
      var init := actions[..|actions| - 1];
      RunKeeps(capacity, init);
      var l := Run(capacity, init).value;
      match actions[|actions| - 1]
      case Traffic(e) =>
        ApplyKeeps(l, e);
        ApplyFaithful(l, e, TrafficOf(init));
      case _ =>
        assert TrafficOf(init) + [] == TrafficOf(init);
    }
  }

  /** In every reachable state, deleting a tracked pointer cannot underflow the live counter. */
  lemma UnderflowUnreachable(capacity: nat, actions: seq<Action>, ptr: nat)
    requires Run(capacity, actions).Some?
    requires ptr in Run(capacity, actions).value.book.tracked
    ensures var b := Run(capacity, actions).value.book;
            b.wrapped || b.tracked[ptr].raw <= b.live
  {
    RunKeeps(capacity, actions);
    SumRemove(Run(capacity, actions).value.book.tracked, ptr);
  }

  // ------------------------------------------------------------ traffic counters

  /** What a saturating counter shows after `total` was added since the bracket opened. */
  predicate Shows(c: Counter, start: Counter, total: nat) {
    && (c.overflowed <==> start.overflowed || total > U64_MAX)
    && c.value as int == if c.overflowed then U64_MAX else total
  }

  lemma BumpShows(c: Counter, start: Counter, total: nat, amount: u64)
    requires Shows(c, start, total)
    ensures Shows(Bump(c, amount), start, total + amount)
  {
  }

  /** Number of deletes in `body` that hit a pointer the table was tracking, starting from `l`. */
  function TrackedReleaseCount(l: Ledger, body: seq<Event>): nat {
    if body == [] then 0
    else
      var init := body[..|body| - 1];
      TrackedReleaseCount(l, init) +
      if Releases(Play(l, init).book.tracked, body[|body| - 1]).Some? then 1 else 0
  }

  /** Bytes recorded for those pointers. */
  function TrackedReleasedTotal(l: Ledger, body: seq<Event>): nat {
    if body == [] then 0
    else
      var init := body[..|body| - 1];
      TrackedReleasedTotal(l, init) +
      match Releases(Play(l, init).book.tracked, body[|body| - 1]) { case Some(e) => e.raw as int case None => 0 }
  }

  predicate CountsAllocations(c: Counts, start: Counts, body: seq<Event>) {
    && Shows(c.allocations, start.allocations, AllocationCount(body))
    && Shows(c.allocatedBytes, start.allocatedBytes, AllocatedTotal(body))
    && Shows(c.backingBytes, start.backingBytes, BackingTotal(body))
  }

  predicate CountsReleases(c: Counts, start: Ledger, body: seq<Event>) {
    && Shows(c.deallocations, start.bracket.counts.deallocations, TrackedReleaseCount(start, body))
    && Shows(c.deallocatedBytes, start.bracket.counts.deallocatedBytes, TrackedReleasedTotal(start, body))
  }

  lemma {:induction false} PlayCountsAllocations(start: Ledger, body: seq<Event>)
    requires start.bracket.active && CountsAllocations(start.bracket.counts, start.bracket.counts, [])
    ensures var k := Play(start, body).bracket;
            k.active && CountsAllocations(k.counts, start.bracket.counts, body)
  {
    if body != [] {
      var init, e := body[..|body| - 1], body[|body| - 1];
      PlayCountsAllocations(start, init);
      var c, s := Play(start, init).bracket.counts, start.bracket.counts;
      if e.Allocated? {
        BumpShows(c.allocations, s.allocations, AllocationCount(init), 1);
        BumpShows(c.allocatedBytes, s.allocatedBytes, AllocatedTotal(init), e.entry.raw);
        BumpShows(c.backingBytes, s.backingBytes, BackingTotal(init), e.entry.backing);
      }
    }
  }

  lemma {:induction false} PlayCountsReleases(start: Ledger, body: seq<Event>)
    requires start.bracket.active && CountsReleases(start.bracket.counts, start, [])
    ensures var k := Play(start, body).bracket;
            k.active && CountsReleases(k.counts, start, body)
  {
    if body != [] {
      var init, e := body[..|body| - 1], body[|body| - 1];
      PlayCountsReleases(start, init);
      var l, s := Play(start, init), start.bracket.counts;
      if Releases(l.book.tracked, e).Some? {
        BumpShows(l.bracket.counts.deallocations, s.deallocations, TrackedReleaseCount(start, init), 1);
        BumpShows(l.bracket.counts.deallocatedBytes, s.deallocatedBytes,
                  TrackedReleasedTotal(start, init), l.book.tracked[e.ptr].raw);
      }
    }
  }

  // ----------------------------------------------------------- live bytes and peak

  /** `p` is the maximum of the ideal live bytes over the open point and every later event. */
  ghost predicate IsIdealPeak(p: nat, h: seq<Event>, body: seq<Event>) {
    && (forall k :: 0 <= k <= |body| ==> IdealLive(h + body[..k]) <= p)
    && (exists k :: 0 <= k <= |body| && IdealLive(h + body[..k]) == p)
  }

  lemma PeakExtends(p: nat, h: seq<Event>, body: seq<Event>, e: Event)
    requires IsIdealPeak(p, h, body)
    ensures var live := IdealLive(h + (body + [e]));
            IsIdealPeak(if live > p then live else p, h, body + [e])
  {
    var longer := body + [e];
    assert forall k :: 0 <= k <= |body| ==> longer[..k] == body[..k];
    assert longer[..|longer|] == longer;
    var k :| 0 <= k <= |body| && IdealLive(h + body[..k]) == p;
    assert IdealLive(h + longer[..k]) == p;
  }

  /** While the table is clean, the ideal live bytes change by what each event moves. */
  lemma IdealStep(h: seq<Event>, e: Event)
    requires e.Allocated? ==> e.ptr !in Outstanding(h)
    ensures IdealLive(h + [e]) as int ==
            IdealLive(h)
            + (if e.Allocated? then e.entry.raw as int else 0)
            - match Releases(Outstanding(h), e) { case Some(r) => r.raw as int case None => 0 }
  {
    assert (h + [e])[..|h + [e]| - 1] == h;
    var m := Outstanding(h);
    match e
    case Allocated(p, entry) => SumInsert(m, p, entry);
    case Deallocated(p, _) =>
      if p in m {
        SumRemove(m, p);
      } else {
        assert m - {p} == m;
      }
    case _ =>
  }

  /** Only events that leave the live bytes alone leave the peak unexamined. */
  lemma PeakStep(l: Ledger, e: Event)
    requires l.bracket.active && !Apply(l, e).book.wrapped && l.book.live <= l.bracket.peak
    ensures Apply(l, e).bracket.peak == Max(l.bracket.peak, Apply(l, e).book.live)
  {
  }

  /** Everything that holds inside a bracket while the book is clean and unwrapped. */
  ghost predicate Exact(l: Ledger, start: Ledger, h: seq<Event>, body: seq<Event>) {
    && l.book.live == IdealLive(h + body)
    && l.book.live <= l.bracket.peak
    && IsIdealPeak(l.bracket.peak, h, body)
    && IdealLive(h) + AllocatedTotal(body) == IdealLive(h + body) + ReleasedTotal(h, body)
    && TrackedReleaseCount(start, body) == ReleaseCount(h, body)
    && TrackedReleasedTotal(start, body) == ReleasedTotal(h, body)
  }

  /** Bytes in equal bytes out, extended by one event. */
  lemma ConservationStep(h: seq<Event>, body: seq<Event>, e: Event)
    requires IdealLive(h) + AllocatedTotal(body) == IdealLive(h + body) + ReleasedTotal(h, body)
    requires e.Allocated? ==> e.ptr !in Outstanding(h + body)
    ensures IdealLive(h) + AllocatedTotal(body + [e]) == IdealLive(h + (body + [e])) + ReleasedTotal(h, body + [e])
  {
    IdealStep(h + body, e);
    hide IdealLive, Outstanding;
    var longer := body + [e];
    assert longer[..|longer| - 1] == body;
    assert h + longer == (h + body) + [e];
  }

  /** A clean table releases what the ideal bookkeeper releases. */
  lemma ReleaseStep(start: Ledger, h: seq<Event>, body: seq<Event>, e: Event)
    requires Play(start, body).book.tracked == Outstanding(h + body)
    requires TrackedReleaseCount(start, body) == ReleaseCount(h, body)
    requires TrackedReleasedTotal(start, body) == ReleasedTotal(h, body)
    ensures TrackedReleaseCount(start, body + [e]) == ReleaseCount(h, body + [e])
    ensures TrackedReleasedTotal(start, body + [e]) == ReleasedTotal(h, body + [e])
  {
    hide Play, Outstanding;
    var longer := body + [e];
    assert longer[..|longer| - 1] == body;
  }

  /** In a clean table an allocation is of a pointer that was not outstanding. */
  lemma CleanMeansNew(l: Ledger, e: Event)
    requires Clean(Apply(l, e).book) && e.Allocated?
    ensures e.ptr !in l.book.tracked
  {
  }

  lemma ExactStep(l: Ledger, start: Ledger, h: seq<Event>, body: seq<Event>, e: Event)
    requires Balanced(l.book) && Faithful(l.book, h + body) && l.bracket.active && l == Play(start, body)
    requires Clean(Apply(l, e).book) && !Apply(l, e).book.wrapped
    requires Exact(l, start, h, body)
    ensures Exact(Apply(l, e), start, h, body + [e])
  {
    hide Apply, Play, Outstanding, SumRaw, AllocatedTotal, ReleasedTotal, IsIdealPeak;
    hide TrackedReleaseCount, TrackedReleasedTotal, ReleaseCount;
    ApplyKeeps(l, e);
    ApplyFaithful(l, e, h + body);
    if e.Allocated? {
      CleanMeansNew(l, e);
    }
    ConservationStep(h, body, e);
    ReleaseStep(start, h, body, e);
    PeakStep(l, e);
    PeakExtends(l.bracket.peak, h, body, e);
    assert h + (body + [e]) == (h + body) + [e];
  }

  lemma PeakNeverFalls(l: Ledger, e: Event)
    ensures Apply(l, e).bracket.active == l.bracket.active && l.bracket.peak <= Apply(l, e).bracket.peak
  {
    hide Bump;
  }

  /** What holds after `body` was played in a bracket opened at `start`. */
  ghost predicate InBracket(l: Ledger, start: Ledger, h: seq<Event>, body: seq<Event>) {
    && Balanced(l.book) && Faithful(l.book, h + body) && l.bracket.active
    && start.book.live <= l.bracket.peak
    && (Clean(l.book) && !l.book.wrapped ==>
          Clean(start.book) && !start.book.wrapped && Exact(l, start, h, body))
  }

  lemma AtOpen(start: Ledger, h: seq<Event>)
    requires Balanced(start.book) && Faithful(start.book, h)
    requires start.bracket.active && start.bracket.peak == start.book.live
    ensures InBracket(start, start, h, [])
  {
    assert h + [] == h;
    assert h + [][..0] == h;
  }

  lemma BracketStep(l: Ledger, start: Ledger, h: seq<Event>, body: seq<Event>, e: Event)
    requires l == Play(start, body) && InBracket(l, start, h, body)
    ensures InBracket(Apply(l, e), start, h, body + [e])
  {
    hide Apply, Outstanding, Exact, Play;
    assert h + (body + [e]) == (h + body) + [e];
    ApplyKeeps(l, e);
    ApplyFaithful(l, e, h + body);
    PeakNeverFalls(l, e);
    if Clean(Apply(l, e).book) && !Apply(l, e).book.wrapped {
      ExactStep(l, start, h, body, e);
    }
  }

  lemma {:induction false} PlayKeeps(start: Ledger, h: seq<Event>, body: seq<Event>)
    requires Balanced(start.book) && Faithful(start.book, h)
    requires start.bracket.active && start.bracket.peak == start.book.live
    ensures InBracket(Play(start, body), start, h, body)
  {
    hide Apply, InBracket, Balanced, Faithful;
    if body == [] {
      AtOpen(start, h);
    } else {
      var init, e := body[..|body| - 1], body[|body| - 1];
      PlayKeeps(start, h, init);
      BracketStep(Play(start, init), start, h, init, e);
      assert init + [e] == body;
    }
  }

  // --------------------------------------------------------- theorems on brackets

  /** The state just before the close of a bracket that was opened after `pre`. */
  function AtClose(capacity: nat, pre: seq<Action>, body: seq<Event>): Ledger
    requires Run(capacity, pre).Some? && !Run(capacity, pre).value.bracket.active
  {
    Play(Open(Run(capacity, pre).value).value, body)
  }

  /**
   For every history and body: both transient subtractions of the close are safe, and if the
   bracket closes eligible then A, P and B are the ideal live bytes at the open point, their
   maximum over the bracket, and at the close point; and valid byte counters balance.
   */
  lemma EligibleBracketIsExact(capacity: nat, pre: seq<Action>, body: seq<Event>, aborted: bool)
    requires Run(capacity, pre).Some? && !Run(capacity, pre).value.bracket.active
    ensures
      var before := Run(capacity, pre).value.book.live;
      var l := AtClose(capacity, pre, body);
      var h := TrafficOf(pre);
      && before <= l.bracket.peak
      && var m := Report(l, before, aborted);
      && m.before <= m.peak && m.after <= m.peak
      && (m.eligible ==>
            && m.before == IdealLive(h)
            && m.after == IdealLive(h + body)
            && IsIdealPeak(m.peak, h, body)
            && (m.AllocatedBytesValid() && m.deallocatedBytesValid ==>
                  m.before + m.counts.allocatedBytes.value == m.after + m.counts.deallocatedBytes.value))
  {
    RunKeeps(capacity, pre);
    var start := Open(Run(capacity, pre).value).value;
    PlayKeeps(start, TrafficOf(pre), body);
    PlayCountsAllocations(start, body);
    PlayCountsReleases(start, body);
  }

  /**
   For every history and body, eligible or not: each reported counter is valid exactly when its
   class had not overflowed before and its true total fits 64 bits; valid counters show the true
   total and invalid ones stay at the maximum.
   */
  lemma CountersAreExactOrSaturated(capacity: nat, pre: seq<Action>, body: seq<Event>, aborted: bool)
    requires Run(capacity, pre).Some? && !Run(capacity, pre).value.bracket.active
    ensures
      var start := Run(capacity, pre).value;
      var l := AtClose(capacity, pre, body);
      var h := TrafficOf(pre);
      && start.book.live <= l.bracket.peak
      && var m := Report(l, start.book.live, aborted);
      && CountsAllocations(m.counts, start.bracket.counts, body)
      && CountsReleases(m.counts, Open(start).value, body)
      && (m.eligible ==>
            && TrackedReleaseCount(Open(start).value, body) == ReleaseCount(h, body)
            && TrackedReleasedTotal(Open(start).value, body) == ReleasedTotal(h, body))
  {
    RunKeeps(capacity, pre);
    var start := Open(Run(capacity, pre).value).value;
    PlayCountsAllocations(start, body);
    PlayCountsReleases(start, body);
    PlayKeeps(start, TrafficOf(pre), body);
  }

  /**
   How the numbers of every report hang together, eligible or not: the signed delta leads from A to
   B, both transient metrics are measured down from P, and released bytes are valid exactly in an
   eligible bracket whose counter did not overflow.
   */
  lemma ReportHangsTogether(capacity: nat, pre: seq<Action>, body: seq<Event>, aborted: bool)
    requires Run(capacity, pre).Some? && !Run(capacity, pre).value.bracket.active
    ensures
      var before := Run(capacity, pre).value.book.live;
      var l := AtClose(capacity, pre, body);
      && before <= l.bracket.peak
      && var m := Report(l, before, aborted);
      && m.before == before && m.after == l.book.live && m.peak >= l.bracket.peak
      && (m.delta.sign == Positive ==> m.after == m.before + m.delta.magnitude && m.delta.magnitude > 0)
      && (m.delta.sign == Negative ==> m.before == m.after + m.delta.magnitude && m.delta.magnitude > 0)
      && (m.delta.sign == Zero ==> m.after == m.before && m.delta.magnitude == 0)
      && m.before + m.peakAboveEntry == m.peak
      && (if m.before >= m.after then m.before else m.after) + m.transientExcess == m.peak
      && (m.eligible <==> m.reason == NoReason)
      && (m.deallocatedBytesValid <==> m.eligible && !m.counts.deallocatedBytes.overflowed)
      && m.aborted == aborted
  {
    EligibleBracketIsExact(capacity, pre, body, aborted);
    hide AtClose, Run;
  }

  // ------------------------------------------------------------- backing failures

  predicate HasFailure(body: seq<Event>) {
    exists i :: 0 <= i < |body| && body[i].Failed?
  }

  lemma {:induction false} FailureFollows(start: Ledger, body: seq<Event>)
    requires start.bracket.active && !start.bracket.failure
    ensures var k := Play(start, body).bracket;
            k.active && (k.failure <==> HasFailure(body))
  {
    if body != [] {
      hide Apply, HasFailure;
      var init, e := body[..|body| - 1], body[|body| - 1];
      FailureFollows(start, init);
      FailureStep(Play(start, init), e);
      FailureLast(body);
    }
  }

  lemma FailureLast(body: seq<Event>)
    requires body != []
    ensures HasFailure(body) <==> HasFailure(body[..|body| - 1]) || body[|body| - 1].Failed?
  {
    var init := body[..|body| - 1];
    if i :| 0 <= i < |init| && init[i].Failed? {
      assert body[i].Failed?;
    }
    if i :| 0 <= i < |body| && body[i].Failed? {
      assert i < |init| ==> init[i].Failed?;
    }
  }

  lemma FailureStep(l: Ledger, e: Event)
    requires l.bracket.active
    ensures var k := Apply(l, e).bracket;
            k.active && (k.failure <==> l.bracket.failure || e.Failed?)
  {
    hide Bump;
  }

  /** A bracket reports a backing failure exactly when one happened inside it, whatever came before. */
  lemma FailureObservedIff(capacity: nat, pre: seq<Action>, body: seq<Event>, aborted: bool)
    requires Run(capacity, pre).Some? && !Run(capacity, pre).value.bracket.active
    ensures var before := Run(capacity, pre).value.book.live;
            var l := AtClose(capacity, pre, body);
            && before <= l.bracket.peak
            && (Report(l, before, aborted).failureObserved <==> HasFailure(body))
  {
    hide Play, HasFailure;
    EligibleBracketIsExact(capacity, pre, body, aborted);
    FailureFollows(Open(Run(capacity, pre).value).value, body);
  }
}
