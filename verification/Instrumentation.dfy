/**
 The instrumentation state and the measurement scope, in the imperative form of
 the C++: slots probed in place, counters and sticky flags updated field by
 field.  Each method is proved equal to its function in `Accounting`.
 */
module Instrumentation {
  import opened Basics
  import opened Accounting
  import opened ProvenanceTable

  class State {
    const slots: array<Slot>
    /** The finite map that the slots represent. */
    ghost var tracked: map<nat, Entry>
    var live: u64
    var wrapped: bool
    var tableOverflowed: bool
    var staleCollision: bool
    var sizedMismatch: bool
    var recursionObserved: bool
    /** The recursion guard: a record call is at work. */
    var guarded: bool
    var active: bool
    var allocations: Counter
    var allocatedBytes: Counter
    var deallocations: Counter
    var deallocatedBytes: Counter
    var backingBytes: Counter
    var peak: u64
    var unknownDelete: bool
    var failure: bool

    ghost predicate Valid()
      reads this, slots
    {
      Represents(slots[..], tracked)
    }

    ghost function BookView(): Book
      reads this
    {
      Book(slots.Length, tracked, live, wrapped, tableOverflowed, staleCollision, sizedMismatch, recursionObserved)
    }

    ghost function BracketView(): Bracket
      reads this
    {
      Bracket(active, Counts(allocations, allocatedBytes, backingBytes, deallocations, deallocatedBytes),
              peak, unknownDelete, failure)
    }

    ghost function View(): Ledger
      reads this
    {
      Ledger(BookView(), BracketView())
    }

    constructor (capacity: nat)
      requires capacity > 0
      ensures Valid() && fresh(slots) && !guarded
      ensures View() == Initial(capacity)
    {
      slots := new Slot[capacity](_ => Empty);
      tracked := map[];
      live, wrapped, peak := 0, false, 0;
      tableOverflowed, staleCollision, sizedMismatch := false, false, false;
      recursionObserved, guarded := false, false;
      active, unknownDelete, failure := false, false, false;
      allocations, allocatedBytes := Counter(0, false), Counter(0, false);
      deallocations, deallocatedBytes := Counter(0, false), Counter(0, false);
      backingBytes := Counter(0, false);
      new;
      EmptyRepresents(capacity);
      assert slots[..] == seq(capacity, _ => Empty);
    }

    /** Bounded linear probe: succeeds exactly on the non-null keys of the map. */
    method FindSlot(ptr: nat) returns (found: Option<nat>)
      requires Valid()
      ensures found.Some? <==> ptr != 0 && ptr in tracked
      ensures found.Some? ==> Holds(slots[..], found.value, ptr)
    {
      if ptr == 0 {
        return None;
      }
      var capacity := slots.Length;
      ghost var home := Home(ptr, capacity);
      var index := Home(ptr, capacity);
      for probes := 0 to capacity
        invariant index == Probe(home, probes, capacity)
        invariant forall j: nat :: j < probes ==> !Holds(slots[..], Probe(home, j, capacity), ptr)
      {
        if slots[index].Empty? {
          EmptyMeansAbsent(slots[..], tracked, ptr, probes);
          return None;
        }
        if slots[index].Occupied? && slots[index].ptr == ptr {
          return Some(index);
        }
        index := Advance(index, capacity);
      }
      ExhaustedMeansAbsent(slots[..], tracked, ptr);
      return None;
    }

    /** Stores an absent pointer in a free slot that ends an unbroken probe path. */
    method Occupy(target: nat, ptr: nat, e: Entry, ghost k: nat)
      requires Valid() && ptr !in tracked
      requires k < slots.Length && target == Probe(Home(ptr, slots.Length), k, slots.Length)
      requires Unbroken(slots[..], ptr, k) && !slots[target].Occupied?
      modifies slots, this`tracked
      ensures Valid() && tracked == old(tracked)[ptr := e]
      ensures |old(tracked)| < slots.Length
    {
      StoreRepresents(slots[..], tracked, ptr, e, k);
      FullIffAllOccupied(slots[..], tracked);
      assert !slots[..][target].Occupied?;
      slots[target] := Occupied(ptr, e);
      tracked := tracked[ptr := e];
      assert slots[..] == old(slots[..])[target := Occupied(ptr, e)];
    }

    /** The probe loop of an insert: remembers the first tombstone as the place to store the pointer. */
    method FindPlace(ptr: nat) returns (collision: bool, place: Option<nat>, ghost at: nat)
      requires Valid()
      ensures collision ==> exists i :: Holds(slots[..], i, ptr)
      ensures !collision ==> ptr !in tracked
      ensures !collision && place.Some? ==>
                && at < slots.Length && place.value == Probe(Home(ptr, slots.Length), at, slots.Length)
                && Unbroken(slots[..], ptr, at) && !slots[place.value].Occupied?
      ensures !collision && place.None? ==>
                forall i :: 0 <= i < slots.Length ==> slots[i].Occupied? && slots[i].ptr != ptr
    {
      var capacity := slots.Length;
      assert capacity > 0;
      hide Represents, Home;
      ghost var home := Home(ptr, capacity);
      var index := Home(ptr, capacity);
      collision, place, at := false, None, 0;
      for probes := 0 to capacity
        invariant index == Probe(home, probes, capacity)
        invariant Unbroken(slots[..], ptr, probes)
        invariant forall j: nat :: j < probes ==> !Holds(slots[..], Probe(home, j, capacity), ptr)
        invariant place.None? ==> forall j: nat :: j < probes ==> slots[Probe(home, j, capacity)].Occupied?
        invariant place.Some? ==> at < probes && place.value == Probe(home, at, capacity)
                                  && slots[place.value].Tombstone?
      {
        if slots[index].Occupied? {
          if slots[index].ptr == ptr {
            assert Holds(slots[..], index, ptr);
            return true, None, 0;
          }
        } else if slots[index].Empty? {
          EmptyMeansAbsent(slots[..], tracked, ptr, probes);
          if place.None? {
            place, at := Some(index), probes;
          }
          return;
        } else if place.None? {
          place, at := Some(index), probes;
        }
        index := Advance(index, capacity);
      }
      ExhaustedMeansAbsent(slots[..], tracked, ptr);
      forall i: nat | place.None? && i < capacity ensures slots[i].Occupied? && slots[i].ptr != ptr {
        assert Probe(home, Distance(home, i, capacity), capacity) == i;
        assert !Holds(slots[..], i, ptr);
      }
    }

    /** Stores the pointer at the place found, unless it is stored already or there is no place. */
    method InsertSlot(ptr: nat, e: Entry) returns (outcome: InsertOutcome)
      requires Valid()
      modifies slots, this`tracked
      ensures Valid()
      ensures outcome == Outcome(old(BookView()), ptr)
      ensures tracked == if outcome.Inserted? then old(tracked)[ptr := e] else old(tracked)
      ensures outcome.Overflow? <==>
              forall i :: 0 <= i < slots.Length ==> old(slots[i]).Occupied? && old(slots[i]).ptr != ptr
    {
      var collision, place, at := FindPlace(ptr);
      if collision {
        return Collision;
      }
      if place.Some? {
        assert !old(slots[place.value]).Occupied?;
        Occupy(place.value, ptr, e, at);
        return Inserted;
      }
      FullIffAllOccupied(slots[..], tracked);
      return Overflow;
    }

    method AddLiveBytes(size: u64)
      modifies `live, `wrapped
      ensures BookView() == AddLive(old(BookView()), size)
    {
      if wrapped {
        return;
      }
      var sum := CheckedAdd(live, size);
      if sum.overflowed {
        wrapped := true;
      }
      live := sum.value;
    }

    method SubtractLiveBytes(size: u64)
      modifies `live, `wrapped
      ensures BookView() == SubtractLive(old(BookView()), size)
    {
      if wrapped {
        return;
      }
      if size > live {
        wrapped := true;
        live := 0;
        return;
      }
      live := live - size;
    }

    method RaisePeak()
      modifies `peak
      ensures BracketView() == UpdatePeak(old(BracketView()), BookView())
    {
      if !wrapped && active && live > peak {
        peak := live;
      }
    }

    /** Stores the pointer and, only when it was stored, adds it to the live bytes. */
    method TrackPointer(ptr: nat, e: Entry)
      requires Valid()
      modifies slots, `tracked, `live, `wrapped, `tableOverflowed, `staleCollision
      ensures Valid()
      ensures BookView() == Track(old(BookView()), ptr, e)
    {
      hide Represents;
      var outcome := InsertSlot(ptr, e);
      if outcome.Collision? {
        staleCollision := true;
      } else if outcome.Overflow? {
        tableOverflowed := true;
      }
      if outcome.Inserted? {
        AddLiveBytes(e.raw);
      }
    }

    /** The traffic counters and the peak of an open bracket. */
    method CountAllocated(e: Entry)
      modifies `allocations, `allocatedBytes, `backingBytes, `peak
      ensures BracketView() == CountAllocation(old(BracketView()), BookView(), e)
    {
      hide Bump;
      if active {
        allocations := Bump(allocations, 1);
        allocatedBytes := Bump(allocatedBytes, e.raw);
        backingBytes := Bump(backingBytes, e.backing);
        RaisePeak();
      }
    }

    method RecordSuccessfulAllocation(ptr: nat, e: Entry)
      requires Valid()
      modifies this, slots
      ensures Valid() && guarded == old(guarded)
      ensures View() == if old(guarded) then Reenter(old(View())) else RecordAllocation(old(View()), ptr, e)
    {
      hide Represents, Track, CountAllocation;
      if guarded {
        recursionObserved := true;
        return;
      }
      guarded := true;
      TrackPointer(ptr, e);
      CountAllocated(e);
      guarded := false;
    }

    /** Leaves a tombstone where the pointer was stored. */
    method Erase(index: nat, ptr: nat)
      requires Valid() && Holds(slots[..], index, ptr)
      modifies slots, this`tracked
      ensures Valid() && tracked == old(tracked) - {ptr}
    {
      EraseRepresents(slots[..], tracked, index);
      slots[index] := Tombstone;
      tracked := tracked - {ptr};
      assert slots[..] == old(slots[..])[index := Tombstone];
    }

    /** Checks a supplied size against the recorded one, which is what leaves the live bytes. */
    method Settle(recorded: u64, supplied: Option<u64>)
      modifies `sizedMismatch, `live, `wrapped
      ensures BookView() ==
              SubtractLive(old(BookView()).(sizedMismatch := old(sizedMismatch) || (supplied.Some? && supplied.value != recorded)), recorded)
    {
      if supplied.Some? && supplied.value != recorded {
        sizedMismatch := true;
      }
      SubtractLiveBytes(recorded);
    }

    /** Settles the accounts of a stored pointer and removes it. */
    method Release(index: nat, ptr: nat, supplied: Option<u64>) returns (recorded: u64)
      requires Valid() && Holds(slots[..], index, ptr)
      modifies slots, `tracked, `live, `wrapped, `sizedMismatch
      ensures Valid() && ptr in old(tracked) && recorded == old(tracked)[ptr].raw
      ensures BookView() == Untrack(old(BookView()), ptr, supplied)
    {
      RepresentsAt(slots[..], tracked, index);
      hide Represents;
      recorded := slots[index].entry.raw;
      Settle(recorded, supplied);
      Erase(index, ptr);
    }

    method CountReleased(recorded: u64)
      modifies `deallocations, `deallocatedBytes, `peak
      ensures BracketView() == CountDeallocation(old(BracketView()), BookView(), recorded)
    {
      hide Bump;
      if active {
        deallocations := Bump(deallocations, 1);
        deallocatedBytes := Bump(deallocatedBytes, recorded);
        RaisePeak();
      }
    }

    /** Everything a delete of a non-null pointer does under the guard. */
    method Forget(ptr: nat, supplied: Option<u64>)
      requires Valid() && ptr != 0
      modifies slots, `tracked, `live, `wrapped, `sizedMismatch, `deallocations, `deallocatedBytes, `peak, `unknownDelete
      ensures Valid()
      ensures View() == RecordDeallocation(old(View()), ptr, supplied)
    {
      hide Represents, Untrack, CountDeallocation;
      var found := FindSlot(ptr);
      if found.None? {
        if active {
          unknownDelete := true;
        }
        return;
      }
      var recorded := Release(found.value, ptr, supplied);
      CountReleased(recorded);
    }

    method RecordDeallocated(ptr: nat, supplied: Option<u64>)
      requires Valid()
      modifies this, slots
      ensures Valid() && guarded == old(guarded)
      ensures View() == if old(guarded) && ptr != 0 then Reenter(old(View())) else RecordDeallocation(old(View()), ptr, supplied)
    {
      hide Represents, Untrack, CountDeallocation;
      if ptr == 0 {
        return;
      }
      if guarded {
        recursionObserved := true;
        return;
      }
      guarded := true;
      Forget(ptr, supplied);
      guarded := false;
    }

    method RecordBackingFailure()
      modifies `failure
      ensures View() == RecordFailure(old(View()))
    {
      if active {
        failure := true;
      }
    }
  }

  /** The bracket object: constructing it opens the bracket, `Finish` closes it once. */
  class MeasurementScope {
    const state: State
    /** The number of exceptions in flight when the bracket opened. */
    const uncaughtAtEntry: nat
    var before: u64
    var closed: bool
    var result: Option<Measurement>

    constructor (state: State, uncaught: nat)
      requires !state.active
      modifies state
      ensures this.state == state && uncaughtAtEntry == uncaught && !closed && before == state.live
      ensures Some(state.View()) == Open(old(state.View()))
    {
      this.state, uncaughtAtEntry := state, uncaught;
      closed, result := false, None;
      before := state.live;
      new;
      state.allocations := Restart(state.allocations);
      state.allocatedBytes := Restart(state.allocatedBytes);
      state.deallocations := Restart(state.deallocations);
      state.deallocatedBytes := Restart(state.deallocatedBytes);
      state.backingBytes := Restart(state.backingBytes);
      state.unknownDelete := false;
      state.failure := false;
      state.peak := state.live;
      state.active := true;
    }

    /** The first violated condition, in the fixed precedence order. */
    method FirstReason() returns (reason: Reason)
      ensures reason == Eligibility(state.View())
    {
      if state.recursionObserved {
        return InstrumentationError;
      } else if state.tableOverflowed {
        return TableOverflow;
      } else if state.staleCollision {
        return StaleCollision;
      } else if state.sizedMismatch {
        return SizedMismatch;
      } else if state.wrapped {
        return LiveWrap;
      } else if state.unknownDelete {
        return UnknownDelete;
      }
      return NoReason;
    }

    /** Idempotent close: freezes the report of the bracket and deactivates counting. */
    method Finish(uncaught: nat)
      requires !closed ==> before <= state.peak
      modifies this, state
      ensures closed && before == old(before)
      ensures old(closed) ==> result == old(result) && state.View() == old(state.View())
      ensures !old(closed) ==> state.View() == Close(old(state.View()))
      ensures !old(closed) ==> result == Some(Report(old(state.View()), before, uncaught != uncaughtAtEntry))
    {
      if closed {
        return;
      }
      closed := true;
      state.active := false;
      var after := state.live;
      var peak := if state.peak > after then state.peak else after;
      var reason := FirstReason();
      var eligible, deallocatedBytesValid := true, true;
      if reason != NoReason {
        eligible, deallocatedBytesValid := false, false;
      }
      if state.deallocatedBytes.overflowed {
        deallocatedBytesValid := false;
      }
      var counts := Counts(state.allocations, state.allocatedBytes, state.backingBytes,
                           state.deallocations, state.deallocatedBytes);
      result := Some(Measurement(
        before, peak, after, counts,
        SignedDelta(before, after), peak - before, peak - Max(before, after),
        deallocatedBytesValid, eligible, reason, state.failure, uncaught != uncaughtAtEntry));
    }
  }
}
