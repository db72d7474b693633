/**
 The meaning of the allocation instrumentation, independent of the hash table
 that stores it: a bounded map of tracked pointers, one live-byte counter,
 saturating traffic counters with sticky overflow flags, and the measurement
 bracket.  Every operation of the instrumentation class is proved equal to one
 function of this module.
 */
module Accounting {
  import opened Basics

  /** What the provenance table remembers about one pointer. */
  datatype Entry = Entry(raw: u64, backing: u64)

  /** A counter together with its sticky overflow flag. */
  datatype Counter = Counter(value: u64, overflowed: bool)

  function CheckedAdd(lhs: u64, rhs: u64): (r: Counter)
    ensures r.overflowed <==> lhs + rhs > U64_MAX
    ensures r.value as int == if lhs + rhs > U64_MAX then U64_MAX else lhs + rhs
  {
    if rhs > U64_MAX - lhs then Counter(U64_MAX, true) else Counter(lhs + rhs, false)
  }

  /** Adds to a traffic counter unless its class has already overflowed. */
  function Bump(c: Counter, amount: u64): Counter {
    if c.overflowed then c else CheckedAdd(c.value, amount)
  }

  /** The value a counter starts a bracket with: frozen once its class overflowed. */
  function Restart(c: Counter): Counter {
    Counter(if c.overflowed then U64_MAX else 0, c.overflowed)
  }

  // ---------------------------------------------------------- the whole-run book

  /** The state that brackets never reset: tracked pointers, live bytes, sticky flags. */
  datatype Book = Book(
    capacity: nat,
    tracked: map<nat, Entry>,
    live: u64,
    wrapped: bool,
    tableOverflowed: bool,
    staleCollision: bool,
    sizedMismatch: bool,
    reentered: bool)

  function EmptyBook(capacity: nat): Book {
    Book(capacity, map[], 0, false, false, false, false, false)
  }

  function AddLive(b: Book, size: u64): Book {
    if b.wrapped then b
    else
      var sum := CheckedAdd(b.live, size);
      b.(live := sum.value, wrapped := sum.overflowed)
  }

  function SubtractLive(b: Book, size: u64): Book {
    if b.wrapped then b
    else if size > b.live then b.(live := 0, wrapped := true)
    else b.(live := b.live - size)
  }

  /** The table's verdict on a new pointer: stored, already there, or no room. */
  datatype InsertOutcome = Inserted | Collision | Overflow

  function Outcome(b: Book, ptr: nat): InsertOutcome {
    if ptr in b.tracked then Collision
    else if |b.tracked| >= b.capacity then Overflow
    else Inserted
  }

  function Track(b: Book, ptr: nat, e: Entry): Book {
    match Outcome(b, ptr)
    case Collision => b.(staleCollision := true)
    case Overflow => b.(tableOverflowed := true)
    case Inserted => AddLive(b.(tracked := b.tracked[ptr := e]), e.raw)
  }

  function Untrack(b: Book, ptr: nat, supplied: Option<u64>): Book
    requires ptr in b.tracked
  {
    var size := b.tracked[ptr].raw;
    var mismatch := supplied.Some? && supplied.value != size;
    SubtractLive(b.(tracked := b.tracked - {ptr}, sizedMismatch := b.sizedMismatch || mismatch), size)
  }

  // ------------------------------------------------------------------ the bracket

  /** The traffic counters of the current bracket. */
  datatype Counts = Counts(
    allocations: Counter,
    allocatedBytes: Counter,
    backingBytes: Counter,
    deallocations: Counter,
    deallocatedBytes: Counter)
  {
    function Allocate(e: Entry): Counts {
      Counts(Bump(allocations, 1), Bump(allocatedBytes, e.raw), Bump(backingBytes, e.backing),
             deallocations, deallocatedBytes)
    }

    function Deallocate(size: u64): Counts {
      Counts(allocations, allocatedBytes, backingBytes,
             Bump(deallocations, 1), Bump(deallocatedBytes, size))
    }

    function Reopen(): Counts {
      Counts(Restart(allocations), Restart(allocatedBytes), Restart(backingBytes),
             Restart(deallocations), Restart(deallocatedBytes))
    }
  }

  /** The state a bracket resets when it opens. */
  datatype Bracket = Bracket(
    active: bool,
    counts: Counts,
    peak: u64,
    unknownDelete: bool,
    failure: bool)

  function IdleBracket(): Bracket {
    var zero := Counter(0, false);
    Bracket(false, Counts(zero, zero, zero, zero, zero), 0, false, false)
  }

  function UpdatePeak(k: Bracket, b: Book): Bracket {
    if !b.wrapped && k.active && b.live > k.peak then k.(peak := b.live) else k
  }

  function CountAllocation(k: Bracket, b: Book, e: Entry): Bracket {
    if k.active then UpdatePeak(k.(counts := k.counts.Allocate(e)), b) else k
  }

  function CountDeallocation(k: Bracket, b: Book, size: u64): Bracket {
    if k.active then UpdatePeak(k.(counts := k.counts.Deallocate(size)), b) else k
  }

  // ------------------------------------------------------------------ operations

  datatype Ledger = Ledger(book: Book, bracket: Bracket)

  function Initial(capacity: nat): Ledger {
    Ledger(EmptyBook(capacity), IdleBracket())
  }

  function RecordAllocation(l: Ledger, ptr: nat, e: Entry): Ledger {
    var b := Track(l.book, ptr, e);
    Ledger(b, CountAllocation(l.bracket, b, e))
  }

  function RecordDeallocation(l: Ledger, ptr: nat, supplied: Option<u64>): Ledger {
    if ptr == 0 then l
    else if ptr !in l.book.tracked then
      if l.bracket.active then l.(bracket := l.bracket.(unknownDelete := true)) else l
    else
      var b := Untrack(l.book, ptr, supplied);
      Ledger(b, CountDeallocation(l.bracket, b, l.book.tracked[ptr].raw))
  }

  /** A record call that arrives while another one is at work is not recorded, only noted for good. */
  function Reenter(l: Ledger): Ledger {
    l.(book := l.book.(reentered := true))
  }

  function RecordFailure(l: Ledger): Ledger {
    if l.bracket.active then l.(bracket := l.bracket.(failure := true)) else l
  }

  /** Opens a bracket; a nested open is rejected (the process aborts). */
  function Open(l: Ledger): Option<Ledger> {
    if l.bracket.active then None
    else Some(l.(bracket := Bracket(true, l.bracket.counts.Reopen(), l.book.live, false, false)))
  }

  function Close(l: Ledger): Ledger {
    l.(bracket := l.bracket.(active := false))
  }

  // ---------------------------------------------------------------- bracket result

  datatype Sign = Negative | Zero | Positive
  datatype Delta = Delta(sign: Sign, magnitude: u64)

  datatype Reason =
    | NoReason | InstrumentationError | TableOverflow | UnknownDelete | StaleCollision | SizedMismatch | LiveWrap

  datatype Measurement = Measurement(
    before: u64,
    peak: u64,
    after: u64,
    counts: Counts,
    delta: Delta,
    peakAboveEntry: u64,
    transientExcess: u64,
    deallocatedBytesValid: bool,
    eligible: bool,
    reason: Reason,
    failureObserved: bool,
    aborted: bool)
  {
    // Each count class is invalidated only by its own overflow.
    predicate AllocatedBytesValid() { !counts.allocatedBytes.overflowed }
  }

  function SignedDelta(a: u64, b: u64): (d: Delta)
    ensures b as int == match d.sign
                        case Positive => a + d.magnitude
                        case Zero => a
                        case Negative => a - d.magnitude
    ensures d.sign == Zero <==> d.magnitude == 0
  {
    if b > a then Delta(Positive, b - a)
    else if b == a then Delta(Zero, 0)
    else Delta(Negative, a - b)
  }

  /** The first violated condition, in the fixed precedence order. */
  function Eligibility(l: Ledger): Reason {
    if l.book.reentered then InstrumentationError
    else if l.book.tableOverflowed then TableOverflow
    else if l.book.staleCollision then StaleCollision
    else if l.book.sizedMismatch then SizedMismatch
    else if l.book.wrapped then LiveWrap
    else if l.bracket.unknownDelete then UnknownDelete
    else NoReason
  }

  function Max(x: u64, y: u64): u64 {
    if x > y then x else y
  }

  /** The frozen result of a bracket that opened at `before` live bytes; `aborted` if an exception is leaving it. */
  function Report(l: Ledger, before: u64, aborted: bool): Measurement
    requires before <= l.bracket.peak
  {
    var after := l.book.live;
    var peak := Max(l.bracket.peak, after);
    var reason := Eligibility(l);
    Measurement(
      before, peak, after, l.bracket.counts,
      SignedDelta(before, after), peak - before, peak - Max(before, after),
      reason == NoReason && !l.bracket.counts.deallocatedBytes.overflowed,
      reason == NoReason, reason, l.bracket.failure, aborted)
  }
}
