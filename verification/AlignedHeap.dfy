/**
 The replacement allocator as a state machine over memory: `malloc` may return any
 block that is disjoint from the live ones, the client may write only into its own
 payloads, and everything outside live blocks may change at any time.
 */
module AlignedHeap {
  import opened Basics
  import opened Bytes
  import opened Accounting

  const WORD: nat := 8

  // -------------------------------------------------------- backing arithmetic

  function CheckedSizeAdd(lhs: u64, rhs: u64): (r: Option<u64>)
    ensures r == if lhs + rhs <= U64_MAX then Some(lhs + rhs) else None
  {
    if rhs > U64_MAX - lhs then None else Some(lhs + rhs)
  }

  /** The header word needs its own natural alignment. */
  function EffectiveAlignment(alignment: u64): u64 {
    if alignment < WORD then WORD else alignment
  }

  function EffectiveSize(raw: u64): u64 {
    if raw == 0 then 1 else raw
  }

  function BackingSize(raw: u64, alignment: u64): Option<u64>
    requires alignment > 0
  {
    match CheckedSizeAdd(EffectiveSize(raw), EffectiveAlignment(alignment) - 1)
    case None => None
    case Some(padded) => CheckedSizeAdd(padded, WORD)
  }

  /** The backing request in plain arithmetic: a byte at least, the padding, and the header word. */
  lemma BackingSizeIs(raw: u64, alignment: u64)
    requires alignment > 0
    ensures var size := (if raw == 0 then 1 else raw as int) + (if alignment < 8 then 8 else alignment as int) - 1 + 8;
            BackingSize(raw, alignment) == if size <= U64_MAX then Some(size) else None
  {
  }

  ghost predicate IsPow2(n: nat) {
    exists k :: n == Pow2(k)
  }

  /** Where the payload goes: past the header and the padding, masked down to the alignment. */
  function PayloadOf(block: nat, alignment: u64): nat
    requires alignment > 0
  {
    var a := EffectiveAlignment(alignment);
    BitAnd(block + WORD + (a - 1), U64_MAX - (a - 1))
  }

  lemma Pow2Of64()
    ensures Pow2(64) == TWO_64
  {
    assert Pow2(4) == 0x10 && Pow2(8) == 0x100 && Pow2(12) == 0x1000 && Pow2(16) == 0x1_0000;
    assert Pow2(20) == 0x10_0000 && Pow2(24) == 0x100_0000 && Pow2(28) == 0x1000_0000;
    assert Pow2(32) == 0x1_0000_0000 && Pow2(36) == 0x10_0000_0000 && Pow2(40) == 0x100_0000_0000;
    assert Pow2(44) == 0x1000_0000_0000 && Pow2(48) == 0x1_0000_0000_0000;
    assert Pow2(52) == 0x10_0000_0000_0000 && Pow2(56) == 0x100_0000_0000_0000;
    assert Pow2(60) == 0x1000_0000_0000_0000;
  }

  /** A multiple of the effective alignment is a multiple of the requested one and of the word. */
  lemma {:induction false} RequestedDivides(p: nat, alignment: u64)
    requires IsPow2(alignment) && p % EffectiveAlignment(alignment) == 0
    ensures p % alignment == 0 && p % 8 == 0
  {
    hide Pow2;
    var k :| alignment == Pow2(k);
    Pow2Of3();
    if k < 3 {
      SmallDivides(p);
    } else {
      PowMonotone(3, k);
      EightDivides(k);
      hide EffectiveAlignment;
      MultipleOfMultiple(p, Pow2(k), 8);
    }
  }

  lemma SmallDivides(p: nat)
    requires p % 8 == 0
    ensures p % 1 == 0 && p % 2 == 0 && p % 4 == 0
  {
    MultipleOfMultiple(p, 8, 2);
    MultipleOfMultiple(p, 8, 4);
  }

  lemma Pow2Of3()
    ensures Pow2(0) == 1 && Pow2(1) == 2 && Pow2(2) == 4 && Pow2(3) == 8
  {
  }

  lemma {:induction false} EightDivides(k: nat)
    requires k >= 3
    ensures Pow2(k) % 8 == 0
  {
    Pow2Of3();
    if k > 3 {
      EightDivides(k - 1);
    }
  }

  lemma MultipleOfMultiple(p: nat, a: nat, b: nat)
    requires a > 0 && b > 0 && p % a == 0 && a % b == 0
    ensures p % b == 0
  {
    DivMod(p, a);
    DivMod(a, b);
    var m, n := p / a, a / b;
    assert p == (m * n) * b by {
      assert m * (n * b) == (m * n) * b;
    }
    RemainderIs(p, b, m * n, 0);
  }

  /** The payload has the alignment that was asked for, and is the first such address past the header. */
  lemma PayloadAligned(block: nat, raw: u64, alignment: u64)
    requires IsPow2(alignment)
    requires BackingSize(raw, alignment).Some? && block + BackingSize(raw, alignment).value <= TWO_64
    ensures PayloadOf(block, alignment) % alignment == 0 && PayloadOf(block, alignment) % 8 == 0
    ensures PayloadOf(block, alignment) < block + 8 + (if alignment < 8 then 8 else alignment as int)
  {
    hide PayloadOf;
    PayloadInsideBlock(block, raw, alignment);
    RequestedDivides(PayloadOf(block, alignment), alignment);
  }

  /** The payload is aligned and lies, with its header word, inside the block. */
  lemma PayloadInsideBlock(block: nat, raw: u64, alignment: u64)
    requires IsPow2(alignment)
    requires BackingSize(raw, alignment).Some? && block + BackingSize(raw, alignment).value <= TWO_64
    ensures var p := PayloadOf(block, alignment);
            && p % EffectiveAlignment(alignment) == 0
            && block + WORD <= p < block + WORD + EffectiveAlignment(alignment)
            && p + EffectiveSize(raw) <= block + BackingSize(raw, alignment).value
  {
    var a := EffectiveAlignment(alignment);
    assert IsPow2(a) by {
      assert Pow2(3) == 8;
    }
    hide Pow2, BitAnd;
    var k :| a == Pow2(k);
    Pow2Of64();
    if k > 64 {
      PowMonotone(64, k);
      assert false;
    }
    var x := block + WORD + (a - 1);
    MaskRoundsDown(x, k, 64);
    RoundedDown(x, a);
  }

  // ------------------------------------------------------------------- memory

  type Memory = map<nat, byte>

  function ByteAt(m: Memory, a: nat): byte {
    if a in m then m[a] else 0
  }

  function WordAt(m: Memory, a: nat): seq<byte> {
    [ByteAt(m, a), ByteAt(m, a + 1), ByteAt(m, a + 2), ByteAt(m, a + 3),
     ByteAt(m, a + 4), ByteAt(m, a + 5), ByteAt(m, a + 6), ByteAt(m, a + 7)]
  }

  function LoadWord(m: Memory, a: nat): nat {
    FromBE(WordAt(m, a))
  }

  function StoreBytes(m: Memory, a: nat, bs: seq<byte>): Memory
    decreases |bs|
  {
    if bs == [] then m else StoreBytes(m[a := bs[0]], a + 1, bs[1..])
  }

  function StoreWord(m: Memory, a: nat, v: nat): Memory {
    StoreBytes(m, a, ToBE(v, WORD))
  }

  lemma {:induction false} StoredByte(m: Memory, a: nat, bs: seq<byte>, i: nat)
    ensures ByteAt(StoreBytes(m, a, bs), i) == if a <= i < a + |bs| then bs[i - a] else ByteAt(m, i)
    decreases |bs|
  {
    if bs != [] {
      StoredByte(m[a := bs[0]], a + 1, bs[1..], i);
    }
  }

  lemma LoadStored(m: Memory, a: nat, v: u64)
    ensures LoadWord(StoreWord(m, a, v), a) == v
  {
    var bs := ToBE(v, WORD);
    forall i: nat | i < WORD ensures WordAt(StoreWord(m, a, v), a)[i] == bs[i] {
      StoredByte(m, a, bs, a + i);
    }
    assert WordAt(StoreWord(m, a, v), a) == bs;
    PowersOf256();
    FromToBE(v, WORD);
  }

  /** A store leaves every word apart from it alone. */
  lemma LoadApartFromStore(m: Memory, a: nat, v: u64, b: nat)
    requires a + WORD <= b || b + WORD <= a
    ensures LoadWord(StoreWord(m, a, v), b) == LoadWord(m, b)
  {
    forall i: nat | b <= i < b + WORD ensures ByteAt(m, i) == ByteAt(StoreWord(m, a, v), i) {
      StoredByte(m, a, ToBE(v, WORD), i);
    }
    LoadDependsOnItsBytes(m, StoreWord(m, a, v), b);
  }

  lemma LoadDependsOnItsBytes(m: Memory, m': Memory, a: nat)
    requires forall i: nat :: a <= i < a + WORD ==> ByteAt(m, i) == ByteAt(m', i)
    ensures LoadWord(m, a) == LoadWord(m', a)
  {
  }

  // ------------------------------------------------------------------ machine

  /** A live payload as its owner asked for it, and whether the full table missed it. */
  datatype Grant = Grant(raw: u64, alignment: u64, base: nat, missed: bool)

  /** `blocks` are the blocks obtained from malloc and not yet freed, with their sizes. */
  datatype Store = Store(mem: Memory, blocks: map<nat, nat>, grants: map<nat, Grant>)

  datatype Heap = Heap(store: Store, ledger: Ledger)

  datatype Call =
    | NewCall(raw: u64, alignment: u64, block: nat)  // `block` is what malloc returns, 0 on failure
    | DeleteCall(ptr: nat, supplied: Option<u64>)
    | WriteByte(addr: nat, value: byte)
    | OpenScope
    | CloseScope

  function InitialHeap(capacity: nat): Heap {
    Heap(Store(map[], map[], map[]), Initial(capacity))
  }

  /** Writes the header word of payload `p` and hands the payload out. */
  function Place(s: Store, p: nat, size: nat, g: Grant): Store {
    Store(if p >= WORD then StoreWord(s.mem, p - WORD, g.base) else s.mem,
          s.blocks[g.base := size], s.grants[p := g])
  }

  /** The grant that a successful request leaves with its owner. */
  function GrantFor(b: Book, raw: u64, alignment: u64, block: nat): Grant
    requires alignment > 0
  {
    Grant(raw, alignment, block, Outcome(b, PayloadOf(block, alignment)) == Overflow)
  }

  function New(h: Heap, raw: u64, alignment: u64, block: nat): Heap
    requires alignment > 0
  {
    if BackingSize(raw, alignment).None? || block == 0 then h.(ledger := RecordFailure(h.ledger))
    else
      var p, size := PayloadOf(block, alignment), BackingSize(raw, alignment).value;
      Heap(Place(h.store, p, size, GrantFor(h.ledger.book, raw, alignment, block)),
           RecordAllocation(h.ledger, p, Entry(raw, size)))
  }

  /** Frees the block named by the header word: `None` if malloc does not owe us that block. */
  function Free(s: Store, ptr: nat): Option<Store> {
    var block := if ptr >= WORD then LoadWord(s.mem, ptr - WORD) else 0;
    if block !in s.blocks then None
    else Some(Store(s.mem, s.blocks - {block}, s.grants - {ptr}))
  }

  function Delete(h: Heap, ptr: nat, supplied: Option<u64>): Option<Heap> {
    if ptr == 0 then Some(h)
    else
      match Free(h.store, ptr)
      case None => None
      case Some(s) => Some(Heap(s, RecordDeallocation(h.ledger, ptr, supplied)))
  }

  function Write(s: Store, a: nat, v: byte): Store {
    s.(mem := s.mem[a := v])
  }

  /** One call; `None` is undefined behaviour or an abort. */
  function Step(h: Heap, c: Call): Option<Heap> {
    match c
    case NewCall(raw, alignment, block) => if alignment == 0 then None else Some(New(h, raw, alignment, block))
    case DeleteCall(p, supplied) => Delete(h, p, supplied)
    case WriteByte(a, v) => Some(h.(store := Write(h.store, a, v)))
    case OpenScope => (match Open(h.ledger) case None => None case Some(l) => Some(h.(ledger := l)))
    case CloseScope => Some(h.(ledger := Close(h.ledger)))
  }

  predicate Apart(base: nat, size: nat, base': nat, size': nat) {
    base + size <= base' || base' + size' <= base
  }

  /** The address lies in the part of a payload that its owner asked for. */
  predicate InPayload(s: Store, p: nat, a: nat) {
    p in s.grants && p <= a < p + s.grants[p].raw
  }

  predicate Outside(s: Store, b: nat, a: nat) {
    b in s.blocks ==> a < b || b + s.blocks[b] <= a
  }

  /** What malloc promises: null, or a block inside the address space apart from every live one. */
  ghost predicate MallocContract(s: Store, block: nat, size: nat) {
    block == 0 ||
    (&& block + size <= TWO_64
     && forall b: nat :: b in s.blocks ==> Apart(block, size, b, s.blocks[b]))
  }

  /** The owner of a payload writes into it, and anything outside live blocks may change. */
  ghost predicate WriteAllowed(s: Store, a: nat) {
    (exists p: nat :: InPayload(s, p, a)) || (forall b: nat :: Outside(s, b, a))
  }

  /** What the language and malloc promise about the next call. */
  ghost predicate Allowed(h: Heap, c: Call) {
    match c
    case NewCall(raw, alignment, block) =>
      && IsPow2(alignment)
      && (BackingSize(raw, alignment).Some? ==> MallocContract(h.store, block, BackingSize(raw, alignment).value))
    case DeleteCall(p, _) => p == 0 || p in h.store.grants
    case WriteByte(a, _) => WriteAllowed(h.store, a)
    case OpenScope => !h.ledger.bracket.active
    case CloseScope => true
  }

  function Run(capacity: nat, calls: seq<Call>): Option<Heap> {
    if calls == [] then Some(InitialHeap(capacity))
    else
      match Run(capacity, calls[..|calls| - 1])
      case None => None
      case Some(h) => Step(h, calls[|calls| - 1])
  }

  ghost predicate Lawful(capacity: nat, calls: seq<Call>) {
    calls == [] ||
    (var init := calls[..|calls| - 1];
     && Lawful(capacity, init)
     && (Run(capacity, init).Some? ==> Allowed(Run(capacity, init).value, calls[|calls| - 1])))
  }

  // ---------------------------------------------------------------- invariant

  /** A payload has the alignment asked for, fits its own block with its header word, and its header names the block. */
  predicate Housed(s: Store, p: nat) {
    p in s.grants ==>
      var g := s.grants[p];
      && g.alignment > 0 && p % g.alignment == 0 && p % 8 == 0
      && g.base in s.blocks
      && g.base + WORD <= p && p + EffectiveSize(g.raw) <= g.base + s.blocks[g.base]
      && LoadWord(s.mem, p - WORD) == g.base
  }

  predicate OwnedBy(s: Store, b: nat, p: nat) {
    p in s.grants && s.grants[p].base == b
  }

  ghost predicate Layout(s: Store) {
    && (forall b: nat, c: nat :: b in s.blocks && c in s.blocks && b != c ==> Apart(b, s.blocks[b], c, s.blocks[c]))
    && (forall p: nat :: Housed(s, p))
    && (forall p: nat, q: nat :: p in s.grants && q in s.grants && s.grants[p].base == s.grants[q].base ==> p == q)
    && (forall b: nat :: b in s.blocks ==> exists p :: OwnedBy(s, b, p))
  }

  /** The table tracks exactly the payloads it did not miss, with the size their owner asked for. */
  ghost predicate TableAgrees(book: Book, grants: map<nat, Grant>) {
    && !book.staleCollision
    && (forall p: nat :: p in book.tracked <==> p in grants && !grants[p].missed)
    && (forall p: nat :: p in book.tracked ==> book.tracked[p].raw == grants[p].raw)
    && (forall p: nat :: p in grants && grants[p].missed ==> book.tableOverflowed)
  }

  ghost predicate Safe(h: Heap) {
    Layout(h.store) && TableAgrees(h.ledger.book, h.store.grants)
  }

  // -------------------------------------------------------------- preservation

  /** The payload fits the block it was placed in. */
  predicate Fits(p: nat, size: nat, g: Grant) {
    && g.alignment > 0 && p % g.alignment == 0 && p % 8 == 0
    && g.base + WORD <= p && p + EffectiveSize(g.raw) <= g.base + size <= TWO_64
  }

  lemma BlockIsNew(s: Store, p: nat, size: nat, g: Grant)
    requires Layout(s) && g.base > 0 && MallocContract(s, g.base, size) && Fits(p, size, g)
    ensures g.base !in s.blocks && p !in s.grants
  {
    forall o: nat ensures g.base in s.blocks ==> !OwnedBy(s, g.base, o) {
      assert Housed(s, o);
    }
    assert Housed(s, p);
    assert p in s.grants ==> Apart(g.base, size, s.grants[p].base, s.blocks[s.grants[p].base]);
  }

  lemma PlaceKeepsHouse(s: Store, p: nat, size: nat, g: Grant, q: nat)
    requires Layout(s) && g.base > 0 && MallocContract(s, g.base, size) && Fits(p, size, g)
    ensures Housed(Place(s, p, size, g), q)
  {
    BlockIsNew(s, p, size, g);
    if q == p {
      LoadStored(s.mem, p - WORD, g.base);
    } else if q in s.grants {
      assert Housed(s, q);
      assert Apart(g.base, size, s.grants[q].base, s.blocks[s.grants[q].base]);
      LoadApartFromStore(s.mem, p - WORD, g.base, q - WORD);
    }
  }

  lemma PlaceKeepsLayout(s: Store, p: nat, size: nat, g: Grant)
    requires Layout(s) && g.base > 0 && MallocContract(s, g.base, size) && Fits(p, size, g)
    ensures p !in s.grants && Layout(Place(s, p, size, g))
  {
    var s' := Place(s, p, size, g);
    BlockIsNew(s, p, size, g);
    forall q: nat ensures Housed(s', q) {
      PlaceKeepsHouse(s, p, size, g, q);
    }
    forall q: nat | q in s.grants ensures s.grants[q].base != g.base {
      assert Housed(s, q);
    }
    forall b: nat | b in s'.blocks ensures exists q :: OwnedBy(s', b, q) {
      if b == g.base {
        assert OwnedBy(s', b, p);
      } else {
        var q :| OwnedBy(s, b, q);
        assert OwnedBy(s', b, q);
      }
    }
  }

  lemma FreeKeepsLayout(s: Store, ptr: nat)
    requires Layout(s) && ptr in s.grants
    ensures Free(s, ptr).Some? && Layout(Free(s, ptr).value)
    ensures Free(s, ptr).value.blocks == s.blocks - {s.grants[ptr].base}
  {
    assert Housed(s, ptr);
    var s' := Free(s, ptr).value;
    forall q: nat ensures Housed(s', q) {
      assert Housed(s, q);
    }
    forall b: nat | b in s'.blocks ensures exists q :: OwnedBy(s', b, q) {
      var q :| OwnedBy(s, b, q);
      assert OwnedBy(s', b, q);
    }
  }

  lemma WriteMissesHeader(s: Store, a: nat, q: nat)
    requires Layout(s) && WriteAllowed(s, a) && q in s.grants
    ensures q >= WORD && !(q - WORD <= a < q)
  {
    assert Housed(s, q);
    if p: nat :| InPayload(s, p, a) {
      assert Housed(s, p);
      assert p != q ==> Apart(s.grants[p].base, s.blocks[s.grants[p].base], s.grants[q].base, s.blocks[s.grants[q].base]);
    } else {
      assert Outside(s, s.grants[q].base, a);
    }
  }

  lemma WriteKeepsLayout(s: Store, a: nat, v: byte)
    requires Layout(s) && WriteAllowed(s, a)
    ensures Layout(Write(s, a, v))
  {
    var s' := Write(s, a, v);
    forall q: nat ensures Housed(s', q) {
      assert Housed(s, q);
      if q in s.grants {
        WriteMissesHeader(s, a, q);
        LoadDependsOnItsBytes(s.mem, s'.mem, q - WORD);
      }
    }
    forall b: nat | b in s'.blocks ensures exists q :: OwnedBy(s', b, q) {
      var q :| OwnedBy(s, b, q);
      assert OwnedBy(s', b, q);
    }
  }

  lemma TrackAgrees(book: Book, grants: map<nat, Grant>, p: nat, e: Entry, g: Grant)
    requires TableAgrees(book, grants) && p !in grants
    requires g.raw == e.raw && g.missed == (Outcome(book, p) == Overflow)
    ensures TableAgrees(Track(book, p, e), grants[p := g])
  {
  }

  lemma UntrackAgrees(l: Ledger, grants: map<nat, Grant>, p: nat, supplied: Option<u64>)
    requires TableAgrees(l.book, grants) && p in grants && p != 0
    ensures TableAgrees(RecordDeallocation(l, p, supplied).book, grants - {p})
  {
  }

  lemma StepKeepsSafe(h: Heap, c: Call)
    requires Safe(h) && Allowed(h, c)
    ensures Step(h, c).Some? && Safe(Step(h, c).value)
  {
    match c
    case NewCall(raw, alignment, block) =>
      if BackingSize(raw, alignment).Some? && block != 0 {
        var p, size := PayloadOf(block, alignment), BackingSize(raw, alignment).value;
        var g := GrantFor(h.ledger.book, raw, alignment, block);
        PayloadInsideBlock(block, raw, alignment);
        PayloadAligned(block, raw, alignment);
        PlaceKeepsLayout(h.store, p, size, g);
        TrackAgrees(h.ledger.book, h.store.grants, p, Entry(raw, size), g);
      }
    case DeleteCall(p, supplied) =>
      if p != 0 {
        FreeKeepsLayout(h.store, p);
        UntrackAgrees(h.ledger, h.store.grants, p, supplied);
      }
    case WriteByte(a, v) => WriteKeepsLayout(h.store, a, v);
    case OpenScope =>
    case CloseScope =>
  }

  // ------------------------------------------------------------------ theorems

  /** No lawful run ever frees a wrong block, and every state it reaches is safe. */
  lemma {:induction false} LawfulRunsAreSafe(capacity: nat, calls: seq<Call>)
    requires Lawful(capacity, calls)
    ensures Run(capacity, calls).Some? && Safe(Run(capacity, calls).value)
  {
    if calls != [] {
      LawfulRunsAreSafe(capacity, calls[..|calls| - 1]);
      StepKeepsSafe(Run(capacity, calls[..|calls| - 1]).value, calls[|calls| - 1]);
    }
  }

  /** Live payloads, each with its header word, never overlap. */
  lemma PayloadsDisjoint(capacity: nat, calls: seq<Call>, p: nat, q: nat)
    requires Lawful(capacity, calls) && Run(capacity, calls).Some?
    requires p in Run(capacity, calls).value.store.grants && q in Run(capacity, calls).value.store.grants
    requires p != q
    ensures var g := Run(capacity, calls).value.store.grants;
            p >= WORD && q >= WORD &&
            Apart(p - WORD, WORD + EffectiveSize(g[p].raw), q - WORD, WORD + EffectiveSize(g[q].raw))
  {
    LawfulRunsAreSafe(capacity, calls);
    var s := Run(capacity, calls).value.store;
    assert Housed(s, p) && Housed(s, q);
    assert Apart(s.grants[p].base, s.blocks[s.grants[p].base], s.grants[q].base, s.blocks[s.grants[q].base]);
  }

  /**
   A lawful delete frees exactly the block malloc returned for that payload; when no payload is
   left, no block is left; and the delete is unknown to the table exactly when the insert of this
   very payload had found the table full.
   */
  lemma DeleteFreesItsOwnBlockOnce(capacity: nat, calls: seq<Call>, p: nat, supplied: Option<u64>)
    requires Lawful(capacity, calls + [DeleteCall(p, supplied)]) && p != 0
    ensures Run(capacity, calls).Some?
    ensures var h := Run(capacity, calls).value;
            var g := h.store.grants;
            && p in g && g[p].base in h.store.blocks
            && (p !in h.ledger.book.tracked <==> g[p].missed)
            && Delete(h, p, supplied).Some?
            && var s' := Delete(h, p, supplied).value.store;
            && s'.blocks == h.store.blocks - {g[p].base}
            && (s'.grants == map[] ==> s'.blocks == map[])
  {
    var all := calls + [DeleteCall(p, supplied)];
    assert all[..|all| - 1] == calls && all[|all| - 1] == DeleteCall(p, supplied);
    LawfulRunsAreSafe(capacity, calls);
    var h := Run(capacity, calls).value;
    FreeKeepsLayout(h.store, p);
    assert Housed(h.store, p);
  }
}
