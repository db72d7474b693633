/**
 `allocate` and `deallocate` in their imperative form: they write and read the
 header word in memory and drive the instrumentation state.
 */
module Allocator {
  import opened Basics
  import opened Accounting
  import opened AlignedHeap
  import opened Instrumentation

  /** What an allocation form hands back: a pointer (null included) or `std::bad_alloc`. */
  datatype Handed = Pointer(ptr: nat) | BadAlloc

  class Allocator {
    const state: State
    var mem: Memory
    /** The blocks malloc still counts as ours, and the payloads clients still own. */
    ghost var blocks: map<nat, nat>
    ghost var grants: map<nat, Grant>

    ghost predicate Valid()
      reads this, state, state.slots
    {
      state.Valid() && !state.guarded && Safe(View())
    }

    ghost function View(): Heap
      reads this, state
    {
      Heap(Store(mem, blocks, grants), state.View())
    }

    constructor (capacity: nat)
      requires capacity > 0
      ensures Valid() && fresh(state) && fresh(state.slots)
      ensures View() == InitialHeap(capacity)
    {
      state := new State(capacity);
      mem, blocks, grants := map[], map[], map[];
      new;
      assert View() == InitialHeap(capacity);
      LawfulRunsAreSafe(capacity, []);
    }

    /** Every addition is checked before malloc or any pointer arithmetic. */
    method ComputeBacking(raw: u64, requested: u64) returns (backing: Option<u64>)
      requires requested > 0
      ensures backing == BackingSize(raw, requested)
      ensures var size := (if raw == 0 then 1 else raw as int) + (if requested < 8 then 8 else requested as int) - 1 + 8;
              backing == if size <= U64_MAX then Some(size) else None
    {
      var alignment := requested;
      if alignment < WORD {
        alignment := WORD;
      }
      var effective: u64 := if raw == 0 then 1 else raw;
      var padded := CheckedSizeAdd(effective, alignment - 1);
      if padded.None? {
        return None;
      }
      backing := CheckedSizeAdd(padded.value, WORD);
    }

    /** Stores the header word in front of the payload and records the allocation. */
    method Commit(payload: nat, block: nat, e: Entry, ghost g: Grant)
      requires state.Valid() && !state.guarded && payload >= WORD && g.base == block
      modifies this, state, state.slots
      ensures state.Valid() && !state.guarded
      ensures View() == Heap(Place(old(View()).store, payload, e.backing, g),
                             RecordAllocation(old(View()).ledger, payload, e))
    {
      mem := StoreWord(mem, payload - WORD, block);
      blocks, grants := blocks[block := e.backing], grants[payload := g];
      state.RecordSuccessfulAllocation(payload, e);
    }

    /** `block` is what malloc would return for the computed backing size. */
    method Allocate(raw: u64, requested: u64, nothrow: bool, block: nat) returns (r: Handed)
      requires Valid() && Allowed(View(), NewCall(raw, requested, block))
      modifies this, state, state.slots
      ensures Valid()
      ensures View() == New(old(View()), raw, requested, block)
      ensures BackingSize(raw, requested).None? || block == 0 ==> r == if nothrow then Pointer(0) else BadAlloc
      ensures BackingSize(raw, requested).Some? && block != 0 ==>
                r == Pointer(PayloadOf(block, requested)) && r.ptr in grants && r.ptr !in old(grants)
      ensures BackingSize(raw, requested).Some? && block != 0 ==>
                && r.ptr % requested == 0 && r.ptr % 8 == 0
                && block + 8 <= r.ptr && r.ptr + raw <= block + BackingSize(raw, requested).value
                && grants[r.ptr].raw == raw && grants[r.ptr].alignment == requested && grants[r.ptr].base == block
    {
      StepKeepsSafe(View(), NewCall(raw, requested, block));
      var backing := ComputeBacking(raw, requested);
      if backing.None? || block == 0 {
        state.RecordBackingFailure();
        return if nothrow then Pointer(0) else BadAlloc;
      }
      PayloadInsideBlock(block, raw, requested);
      PayloadAligned(block, raw, requested);
      var payload := PayloadOf(block, requested);
      ghost var g := GrantFor(state.BookView(), raw, requested, block);
      BlockIsNew(View().store, payload, backing.value, g);
      Commit(payload, block, Entry(raw, backing.value), g);
      return Pointer(payload);
    }

    /** Reads the header word and frees the block it names, exactly the one malloc returned. */
    method Deallocate(ptr: nat, supplied: Option<u64>) returns (freed: Option<nat>)
      requires Valid() && Allowed(View(), DeleteCall(ptr, supplied))
      modifies this, state, state.slots
      ensures Valid()
      ensures Some(View()) == Delete(old(View()), ptr, supplied)
      ensures freed == if ptr == 0 then None else Some(old(grants)[ptr].base)
      ensures freed.Some? ==> freed.value in old(blocks) && blocks == old(blocks) - {freed.value}
    {
      StepKeepsSafe(View(), DeleteCall(ptr, supplied));
      if ptr == 0 {
        return None;
      }
      assert Housed(View().store, ptr);
      state.RecordDeallocated(ptr, supplied);
      var block := LoadWord(mem, ptr - WORD);
      blocks, grants := blocks - {block}, grants - {ptr};
      return Some(block);
    }
  }
}
