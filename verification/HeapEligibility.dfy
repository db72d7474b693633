/**
 Allocator and instrumentation together: when does a program that uses new and delete
 lawfully get an eligible measurement?
 */
module HeapEligibility {
  import opened Basics
  import opened Accounting
  import opened AllocationRuns
  import Heap = AlignedHeap

  // ---------------------------------------------------- disjoint payloads fit memory

  /** Recorded payloads, each with its header word, lie apart from each other below `limit`. */
  ghost predicate Packed(m: map<nat, Entry>, limit: nat) {
    && (forall p: nat :: p in m ==> Heap.WORD <= p && p + m[p].raw <= limit)
    && (forall p: nat, q: nat :: p in m && q in m && p < q ==> p + m[p].raw + Heap.WORD <= q)
  }

  lemma {:induction false} TopKey(m: map<nat, Entry>) returns (top: nat)
    requires m != map[]
    ensures top in m && forall p: nat :: p in m ==> p <= top
    decreases |m|
  {
    top :| top in m;
    var rest := m - {top};
    if rest != map[] {
      var other := TopKey(rest);
      assert forall p: nat :: p in m ==> p == top || p in rest;
      if other > top {
        top := other;
      }
    }
  }

  lemma RestPacked(m: map<nat, Entry>, limit: nat, top: nat)
    requires Packed(m, limit) && top in m && forall p: nat :: p in m ==> p <= top
    ensures Heap.WORD <= top && top + m[top].raw <= limit && Packed(m - {top}, top - Heap.WORD)
  {
    var rest := m - {top};
    forall p: nat | p in rest ensures Heap.WORD <= p && p + rest[p].raw <= top - Heap.WORD {
      assert p in m && p < top;
    }
  }

  lemma {:induction false} PackedSum(m: map<nat, Entry>, limit: nat)
    requires Packed(m, limit)
    ensures m == map[] || SumRaw(m) + Heap.WORD <= limit
    decreases |m|
  {
    if m != map[] {
      var top := TopKey(m);
      SumRemove(m, top);
      RestPacked(m, limit, top);
      hide Packed, SumRaw;
      PackedSum(m - {top}, top - Heap.WORD);
    }
  }

  lemma SafeIsPacked(s: Heap.Store, m: map<nat, Entry>)
    requires Heap.Layout(s) && InSpace(s)
    requires forall p: nat :: p in m ==> p in s.grants && m[p].raw == s.grants[p].raw
    ensures Packed(m, TWO_64)
  {
    forall p: nat | p in m ensures Heap.WORD <= p && p + m[p].raw <= TWO_64 {
      assert Heap.Housed(s, p);
    }
    forall p: nat, q: nat | p in m && q in m && p < q ensures p + m[p].raw + Heap.WORD <= q {
      assert Heap.Housed(s, p) && Heap.Housed(s, q);
      assert Heap.Apart(s.grants[p].base, s.blocks[s.grants[p].base], s.grants[q].base, s.blocks[s.grants[q].base]);
    }
  }

  // ------------------------------------------------------------------- invariant

  predicate InSpace(s: Heap.Store) {
    forall b: nat :: b in s.blocks ==> b + s.blocks[b] <= TWO_64
  }

  /** The counter is exact and an unknown delete implies a full table. */
  ghost predicate Sane(h: Heap.Heap, capacity: nat) {
    && Heap.Safe(h) && InSpace(h.store)
    && Balanced(h.ledger.book) && !h.ledger.book.wrapped && h.ledger.book.capacity == capacity
    && !h.ledger.book.reentered
    && (h.ledger.bracket.unknownDelete ==> h.ledger.book.tableOverflowed)
  }

  /** A sized delete names the size that its payload was requested with. */
  predicate Honest(h: Heap.Heap, c: Heap.Call) {
    c.DeleteCall? && c.supplied.Some? && c.ptr in h.store.grants ==> c.supplied.value == h.store.grants[c.ptr].raw
  }

  lemma TrackNeverWraps(b: Book, p: nat, e: Entry, s: Heap.Store)
    requires Balanced(b) && !b.wrapped
    requires Heap.Layout(s) && InSpace(s) && Heap.TableAgrees(Track(b, p, e), s.grants)
    ensures Balanced(Track(b, p, e)) && !Track(b, p, e).wrapped
  {
    TrackKeeps(b, p, e);
    if Outcome(b, p).Inserted? {
      SafeIsPacked(s, Track(b, p, e).tracked);
      PackedSum(Track(b, p, e).tracked, TWO_64);
      SumInsert(b.tracked, p, e);
    }
  }

  lemma NewKeepsSane(h: Heap.Heap, capacity: nat, raw: u64, alignment: u64, block: nat)
    requires Sane(h, capacity) && Heap.Allowed(h, Heap.NewCall(raw, alignment, block)) && alignment > 0
    ensures Sane(Heap.New(h, raw, alignment, block), capacity)
  {
    hide Heap.PayloadOf, Heap.Layout, Heap.TableAgrees, Balanced, Heap.StoreWord;
    var c := Heap.NewCall(raw, alignment, block);
    Heap.StepKeepsSafe(h, c);
    var h' := Heap.New(h, raw, alignment, block);
    if Heap.BackingSize(raw, alignment).Some? && block != 0 {
      var size := Heap.BackingSize(raw, alignment).value;
      TrackNeverWraps(h.ledger.book, Heap.PayloadOf(block, alignment), Entry(raw, size), h'.store);
    }
  }

  lemma DeleteKeepsSane(h: Heap.Heap, capacity: nat, p: nat, supplied: Option<u64>)
    requires Sane(h, capacity) && Heap.Allowed(h, Heap.DeleteCall(p, supplied))
    ensures Heap.Delete(h, p, supplied).Some? && Sane(Heap.Delete(h, p, supplied).value, capacity)
  {
    hide Heap.Layout, Heap.LoadWord;
    Heap.StepKeepsSafe(h, Heap.DeleteCall(p, supplied));
    if p in h.ledger.book.tracked {
      UntrackKeeps(h.ledger.book, p, supplied);
    }
  }

  lemma StepKeepsSane(h: Heap.Heap, capacity: nat, c: Heap.Call)
    requires Sane(h, capacity) && Heap.Allowed(h, c)
    ensures Heap.Step(h, c).Some? && Sane(Heap.Step(h, c).value, capacity)
  {
    hide Heap.New, Heap.Delete, Heap.Safe, Heap.Free, Balanced;
    Heap.StepKeepsSafe(h, c);
    match c
    case NewCall(raw, alignment, block) => NewKeepsSane(h, capacity, raw, alignment, block);
    case DeleteCall(p, supplied) => DeleteKeepsSane(h, capacity, p, supplied);
    case _ =>
  }

  // -------------------------------------------------------------------- capacity

  /** The number of live payloads never exceeded the capacity. */
  predicate WithinCapacity(capacity: nat, calls: seq<Heap.Call>) {
    calls == [] ||
    (&& WithinCapacity(capacity, calls[..|calls| - 1])
     && Heap.Run(capacity, calls).Some?
     && |Heap.Run(capacity, calls).value.store.grants| <= capacity)
  }

  ghost predicate AllHonest(capacity: nat, calls: seq<Heap.Call>) {
    calls == [] ||
    (var init := calls[..|calls| - 1];
     && AllHonest(capacity, init)
     && (Heap.Run(capacity, init).Some? ==> Honest(Heap.Run(capacity, init).value, calls[|calls| - 1])))
  }

  lemma SameKeys(b: Book, grants: map<nat, Heap.Grant>)
    requires Heap.TableAgrees(b, grants) && !b.tableOverflowed
    ensures b.tracked.Keys == grants.Keys && |b.tracked| == |grants|
  {
    assert forall p: nat :: p in grants ==> !grants[p].missed;
    assert b.tracked.Keys == grants.Keys;
    assert |b.tracked| == |b.tracked.Keys| && |grants| == |grants.Keys|;
  }

  /** The table overflows at exactly the request that makes the live payloads too many. */
  lemma OverflowStep(h: Heap.Heap, capacity: nat, c: Heap.Call)
    requires Sane(h, capacity) && Heap.Allowed(h, c) && !h.ledger.book.tableOverflowed
    ensures Heap.Step(h, c).Some?
    ensures var h' := Heap.Step(h, c).value;
            h'.ledger.book.tableOverflowed <==> |h'.store.grants| > capacity
  {
    StepKeepsSane(h, capacity, c);
    SameKeys(h.ledger.book, h.store.grants);
    var h' := Heap.Step(h, c).value;
    if h'.ledger.book.tableOverflowed {
      OverflowingRequest(h, c);
    } else {
      SameKeys(h'.ledger.book, h'.store.grants);
    }
  }

  lemma OneMoreGrant(m: map<nat, Heap.Grant>, p: nat, g: Heap.Grant)
    requires p !in m
    ensures |m[p := g]| == |m| + 1
  {
    assert m[p := g].Keys == m.Keys + {p};
    assert |m[p := g]| == |m[p := g].Keys| && |m| == |m.Keys|;
  }

  lemma OverflowingRequest(h: Heap.Heap, c: Heap.Call)
    requires Heap.Safe(h) && Heap.Allowed(h, c) && Heap.Step(h, c).Some?
    requires !h.ledger.book.tableOverflowed && Heap.Step(h, c).value.ledger.book.tableOverflowed
    ensures |h.ledger.book.tracked| >= h.ledger.book.capacity
    ensures |Heap.Step(h, c).value.store.grants| == |h.store.grants| + 1
  {
    hide Heap.Layout, Heap.TableAgrees, Heap.PayloadOf, Heap.StoreWord;
    match c
    case NewCall(raw, alignment, block) =>
      var p, size := Heap.PayloadOf(block, alignment), Heap.BackingSize(raw, alignment).value;
      Heap.PayloadInsideBlock(block, raw, alignment);
      Heap.PayloadAligned(block, raw, alignment);
      Heap.BlockIsNew(h.store, p, size, Heap.GrantFor(h.ledger.book, raw, alignment, block));
      OneMoreGrant(h.store.grants, p, Heap.GrantFor(h.ledger.book, raw, alignment, block));
    case _ =>
  }

  lemma HonestStep(h: Heap.Heap, capacity: nat, c: Heap.Call)
    requires Sane(h, capacity) && Heap.Allowed(h, c) && Honest(h, c) && !h.ledger.book.sizedMismatch
    ensures Heap.Step(h, c).Some? && !Heap.Step(h, c).value.ledger.book.sizedMismatch
  {
    hide Heap.Layout, Heap.PayloadOf, Heap.Free;
    Heap.StepKeepsSafe(h, c);
  }

  lemma OverflowSticks(h: Heap.Heap, c: Heap.Call)
    requires h.ledger.book.tableOverflowed && Heap.Step(h, c).Some?
    ensures Heap.Step(h, c).value.ledger.book.tableOverflowed
  {
    hide Heap.PayloadOf, Heap.Free, Heap.Place;
  }

  // -------------------------------------------------------------------- theorems

  /** In a lawful run the live counter never wraps and the table overflows exactly past the capacity. */
  lemma {:induction false} LawfulRunsAreSane(capacity: nat, calls: seq<Heap.Call>)
    requires Heap.Lawful(capacity, calls)
    ensures Heap.Run(capacity, calls).Some? && Sane(Heap.Run(capacity, calls).value, capacity)
    ensures Heap.Run(capacity, calls).value.ledger.book.tableOverflowed <==> !WithinCapacity(capacity, calls)
    ensures AllHonest(capacity, calls) ==> !Heap.Run(capacity, calls).value.ledger.book.sizedMismatch
    decreases |calls|
  {
    hide Heap.Step, Sane, Heap.Allowed, Honest;
    if calls == [] {
      InitialIsSane(capacity);
    } else {
      var init, c := calls[..|calls| - 1], calls[|calls| - 1];
      LawfulRunsAreSane(capacity, init);
      var h := Heap.Run(capacity, init).value;
      StepKeepsSane(h, capacity, c);
      if h.ledger.book.tableOverflowed {
        OverflowSticks(h, c);
      } else {
        OverflowStep(h, capacity, c);
      }
      if AllHonest(capacity, calls) {
        HonestStep(h, capacity, c);
      }
    }
  }

  lemma InitialIsSane(capacity: nat)
    ensures Sane(Heap.InitialHeap(capacity), capacity)
  {
  }

  /**
   Whenever a lawful program closes a bracket, the only possible complaints are a full table and a
   sized delete with the wrong size: live bytes cannot wrap, no entry is stale, and an unknown
   delete is always reported as the table overflow that caused it.
   */
  lemma LawfulComplaints(capacity: nat, calls: seq<Heap.Call>)
    requires Heap.Lawful(capacity, calls)
    ensures Heap.Run(capacity, calls).Some?
    ensures var r := Eligibility(Heap.Run(capacity, calls).value.ledger);
            r == NoReason || r == TableOverflow || r == SizedMismatch
  {
    LawfulRunsAreSane(capacity, calls);
  }

  /**
   With honest sized deletes, a bracket is eligible exactly when the number of live payloads has
   never exceeded the table's capacity.
   */
  lemma EligibleIffWithinCapacity(capacity: nat, calls: seq<Heap.Call>)
    requires Heap.Lawful(capacity, calls) && AllHonest(capacity, calls)
    ensures Heap.Run(capacity, calls).Some?
    ensures Eligibility(Heap.Run(capacity, calls).value.ledger) == NoReason <==> WithinCapacity(capacity, calls)
  {
    LawfulRunsAreSane(capacity, calls);
  }

  // ----------------------------------------------------------- what a bracket reports

  function Sizes(grants: map<nat, Heap.Grant>): map<nat, Entry> {
    map p | p in grants :: Entry(grants[p].raw, 0)
  }

  /** The bytes that the program has requested and not yet deleted. */
  ghost function Requested(h: Heap.Heap): nat {
    SumRaw(Sizes(h.store.grants))
  }

  lemma {:induction false} SumDependsOnRaw(m: map<nat, Entry>, n: map<nat, Entry>)
    requires m.Keys == n.Keys && forall p: nat :: p in m ==> m[p].raw == n[p].raw
    ensures SumRaw(m) == SumRaw(n)
    decreases |m|
  {
    if p :| p in m {
      SumRemove(m, p);
      SumRemove(n, p);
      SumDependsOnRaw(m - {p}, n - {p});
    }
  }

  lemma LiveIsRequested(h: Heap.Heap, capacity: nat)
    requires Sane(h, capacity) && !h.ledger.book.tableOverflowed
    ensures h.ledger.book.live == Requested(h)
  {
    SameKeys(h.ledger.book, h.store.grants);
    SumDependsOnRaw(h.ledger.book.tracked, Sizes(h.store.grants));
  }

  /** A program that keeps the rules up to here. */
  ghost predicate WellBehaved(capacity: nat, calls: seq<Heap.Call>) {
    Heap.Lawful(capacity, calls) && AllHonest(capacity, calls) && WithinCapacity(capacity, calls)
  }

  ghost function After(capacity: nat, calls: seq<Heap.Call>): Heap.Heap
    requires WellBehaved(capacity, calls)
  {
    LawfulRunsAreSane(capacity, calls);
    Heap.Run(capacity, calls).value
  }

  predicate IsScopeCall(c: Heap.Call) {
    c.OpenScope? || c.CloseScope?
  }

  /** What the instrumentation sees of a call. */
  function EventOf(c: Heap.Call): Option<Event> {
    match c
    case NewCall(raw, alignment, block) =>
      if alignment == 0 || Heap.BackingSize(raw, alignment).None? || block == 0 then Some(Failed)
      else Some(Allocated(Heap.PayloadOf(block, alignment), Entry(raw, Heap.BackingSize(raw, alignment).value)))
    case DeleteCall(p, supplied) => Some(Deallocated(p, supplied))
    case _ => None
  }

  lemma StepLedger(h: Heap.Heap, c: Heap.Call)
    requires !IsScopeCall(c) && Heap.Step(h, c).Some?
    ensures Heap.Step(h, c).value.ledger == if EventOf(c).None? then h.ledger else Apply(h.ledger, EventOf(c).value)
  {
    hide Heap.PayloadOf, Heap.Free, Heap.Place, RecordAllocation, RecordFailure;
  }

  lemma PeakFollows(h: Heap.Heap, capacity: nat, c: Heap.Call)
    requires Sane(h, capacity) && Heap.Allowed(h, c) && !IsScopeCall(c)
    requires h.ledger.bracket.active && h.ledger.book.live <= h.ledger.bracket.peak
    ensures Heap.Step(h, c).Some?
    ensures var l := Heap.Step(h, c).value.ledger;
            l.bracket.active && l.bracket.peak == Max(h.ledger.bracket.peak, l.book.live)
  {
    hide Heap.Allowed, Heap.Step, Heap.Safe, Balanced, InSpace, EventOf;
    StepKeepsSane(h, capacity, c);
    StepLedger(h, c);
    if EventOf(c).Some? {
      PeakStep(h.ledger, EventOf(c).value);
    }
  }

  /** `peak` is the largest number of requested bytes at any point of the bracket. */
  ghost predicate IsRequestedPeak(capacity: nat, start: seq<Heap.Call>, body: seq<Heap.Call>, peak: nat) {
    && (forall k :: 0 <= k <= |body| ==>
          WellBehaved(capacity, start + body[..k]) && Requested(After(capacity, start + body[..k])) <= peak)
    && (exists k :: 0 <= k <= |body| &&
          WellBehaved(capacity, start + body[..k]) && Requested(After(capacity, start + body[..k])) == peak)
  }

  lemma RequestedPeakExtends(capacity: nat, start: seq<Heap.Call>, body: seq<Heap.Call>, peak: u64, live: u64)
    requires body != [] && IsRequestedPeak(capacity, start, body[..|body| - 1], peak)
    requires WellBehaved(capacity, start + body) && live == Requested(After(capacity, start + body))
    ensures IsRequestedPeak(capacity, start, body, Max(peak, live))
  {
    hide WellBehaved, After, Requested;
    var init := body[..|body| - 1];
    assert body[..|body|] == body;
    forall k | 0 <= k <= |body|
      ensures WellBehaved(capacity, start + body[..k]) && Requested(After(capacity, start + body[..k])) <= Max(peak, live)
    {
      assert k < |body| ==> init[..k] == body[..k];
    }
    var k :| 0 <= k <= |init| && WellBehaved(capacity, start + init[..k])
             && Requested(After(capacity, start + init[..k])) == peak;
    assert init[..k] == body[..k];
  }

  lemma {:induction false} BracketPeak(capacity: nat, pre: seq<Heap.Call>, body: seq<Heap.Call>)
    requires WellBehaved(capacity, pre + [Heap.OpenScope] + body)
    requires forall i :: 0 <= i < |body| ==> !IsScopeCall(body[i])
    ensures WellBehaved(capacity, pre)
    ensures var start := pre + [Heap.OpenScope];
            var l := After(capacity, start + body).ledger;
            && l.bracket.active && l.book.live <= l.bracket.peak
            && After(capacity, pre).ledger.book.live <= l.bracket.peak
            && IsRequestedPeak(capacity, start, body, l.bracket.peak)
    decreases |body|
  {
    hide Sane, Heap.Allowed, Heap.Step, Honest, IsRequestedPeak;
    var start := pre + [Heap.OpenScope];
    var calls := start + body;
    LawfulRunsAreSane(capacity, calls);
    LiveIsRequested(After(capacity, calls), capacity);
    if body == [] {
      assert calls == start && start[..|start| - 1] == pre;
      LawfulRunsAreSane(capacity, pre);
      OpenedPeak(capacity, pre);
      assert start + body[..0] == start;
      PeakAtOpen(capacity, start, After(capacity, start).ledger.bracket.peak);
    } else {
      var init, c := body[..|body| - 1], body[|body| - 1];
      assert calls[..|calls| - 1] == start + init;
      BracketPeak(capacity, pre, init);
      LawfulRunsAreSane(capacity, start + init);
      var h := After(capacity, start + init);
      PeakFollows(h, capacity, c);
      RequestedPeakExtends(capacity, start, body, h.ledger.bracket.peak, After(capacity, calls).ledger.book.live);
    }
  }

  lemma OpenedPeak(capacity: nat, pre: seq<Heap.Call>)
    requires WellBehaved(capacity, pre) && Heap.Allowed(After(capacity, pre), Heap.OpenScope)
    ensures var l := Heap.Step(After(capacity, pre), Heap.OpenScope).value.ledger;
            l.bracket.active && l.bracket.peak == l.book.live == After(capacity, pre).ledger.book.live
  {
    hide WellBehaved, After;
  }

  lemma PeakAtOpen(capacity: nat, start: seq<Heap.Call>, peak: nat)
    requires WellBehaved(capacity, start) && peak == Requested(After(capacity, start))
    ensures IsRequestedPeak(capacity, start, [], peak)
  {
    hide WellBehaved, After, Requested;
    assert start + [][..0] == start;
  }

  /**
   A measurement of a program that keeps the rules and never holds more payloads than the table has
   slots: it is eligible, and A, P and B are the bytes the program holds when the bracket opens, the
   most it holds at any point inside, and the bytes it holds when the bracket closes.
   */
  lemma MeasuresTheProgram(capacity: nat, pre: seq<Heap.Call>, body: seq<Heap.Call>, aborted: bool)
    requires WellBehaved(capacity, pre + [Heap.OpenScope] + body)
    requires forall i :: 0 <= i < |body| ==> !IsScopeCall(body[i])
    ensures WellBehaved(capacity, pre)
    ensures var start := pre + [Heap.OpenScope];
            var before := After(capacity, pre).ledger.book.live;
            var l := After(capacity, start + body).ledger;
            && before <= l.bracket.peak
            && var m := Report(l, before, aborted);
            && m.eligible
            && m.before == Requested(After(capacity, pre))
            && m.after == Requested(After(capacity, start + body))
            && IsRequestedPeak(capacity, start, body, m.peak)
  {
    hide IsRequestedPeak, Requested, Heap.Lawful, AllHonest, WithinCapacity, Heap.Run, Heap.Safe;
    var start := pre + [Heap.OpenScope];
    BracketPeak(capacity, pre, body);
    LawfulRunsAreSane(capacity, pre);
    LiveIsRequested(After(capacity, pre), capacity);
    LawfulRunsAreSane(capacity, start + body);
    LiveIsRequested(After(capacity, start + body), capacity);
    var l := After(capacity, start + body).ledger;
    EligibleIffWithinCapacity(capacity, start + body);
    assert Max(l.bracket.peak, l.book.live) == l.bracket.peak;
  }
}
