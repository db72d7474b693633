/**
 The fuzz harness's reference order book: a sorted vector per side, searched, erased,
 appended to and re-sorted in place.  It refines the production book's maps on every
 sequence of operations, so the differential checks never abort.
 */
module ReferenceBook {
  import opened Basics
  import Sorting
  import opened OrderBook

  // ------------------------------------------------------------------- one side

  /** `find_level`: the index of the first level at the price. */
  function Find(levels: seq<Level>, p: Price): (r: Option<nat>)
    ensures r.Some? ==> r.value < |levels| && levels[r.value].price == p
    ensures r.Some? ==> forall j :: 0 <= j < r.value ==> levels[j].price != p
    ensures r.None? <==> forall j :: 0 <= j < |levels| ==> levels[j].price != p
  {
    if levels == [] then None
    else if levels[0].price == p then Some(0)
    else
      assert forall j :: 0 < j < |levels| ==> levels[j] == levels[1..][j - 1];
      match Find(levels[1..], p)
      case None => None
      case Some(i) => Some(i + 1)
  }

  function BidKey(l: Level): int { -(l.price as int) }
  function AskKey(l: Level): int { l.price }
  predicate IntLess(a: int, b: int) { a < b }

  function SortSide(levels: seq<Level>, side: Side): seq<Level> {
    if side.Bid? then Sorting.SortBy(levels, BidKey, IntLess) else Sorting.SortBy(levels, AskKey, IntLess)
  }

  function SetReference(levels: seq<Level>, side: Side, p: Price, q: Quantity): seq<Level> {
    match Find(levels, p)
    case Some(i) =>
      if q == 0 then levels[..i] + levels[i + 1..]
      else SortSide(levels[i := Level(p, q)], side)
    case None =>
      if q == 0 then levels else SortSide(levels + [Level(p, q)], side)
  }

  predicate DistinctPrices(levels: seq<Level>) {
    forall i, j :: 0 <= i < j < |levels| ==> levels[i].price != levels[j].price
  }

  predicate Holds(levels: seq<Level>, l: Ladder) {
    DistinctPrices(levels) && Shows(levels, l) && forall p :: p in l ==> HasPrice(levels, p)
  }

  lemma SortSideLists(levels: seq<Level>, l: Ladder, side: Side)
    requires Holds(levels, l)
    ensures Lists(SortSide(levels, side), l, side)
  {
    hide Sorting.SortBy, Sorting.Insert;
    var key := if side.Bid? then BidKey else AskKey;
    var s := SortSide(levels, side);
    assert Sorting.StrictTotal(IntLess);
    Sorting.SortPermutes(levels, key, IntLess);
    Sorting.SortAscends(levels, key, IntLess);
    forall i, j | 0 <= i < j < |s| ensures Before(side, s[i].price, s[j].price) {
      assert IntLess(key(s[i]), key(s[j]));
    }
    forall i | 0 <= i < |s| ensures s[i] in levels {
      assert s[i] in s;
    }
    forall p | p in l ensures HasPrice(s, p) {
      assert HasPrice(levels, p);
      var i :| 0 <= i < |levels| && levels[i].price == p;
      assert levels[i] in levels;
      assert levels[i] in s;
    }
  }

  lemma EraseLists(levels: seq<Level>, l: Ladder, side: Side, i: nat)
    requires Lists(levels, l, side) && i < |levels|
    ensures Lists(levels[..i] + levels[i + 1..], l - {levels[i].price}, side)
  {
    var p, t := levels[i].price, levels[..i] + levels[i + 1..];
    assert forall k :: 0 <= k < i ==> t[k] == levels[k];
    assert forall k :: i <= k < |t| ==> t[k] == levels[k + 1];
    forall q | q in l - {p} ensures HasPrice(t, q) {
      assert HasPrice(levels, q);
      var k :| 0 <= k < |levels| && levels[k].price == q;
      assert t[if k < i then k else k - 1].price == q;
    }
  }

  lemma ReplaceHolds(levels: seq<Level>, l: Ladder, side: Side, i: nat, q: Quantity)
    requires Lists(levels, l, side) && i < |levels|
    ensures Holds(levels[i := Level(levels[i].price, q)], l[levels[i].price := q])
  {
    var p, t := levels[i].price, levels[i := Level(levels[i].price, q)];
    forall r | r in l[p := q] ensures HasPrice(t, r) {
      assert HasPrice(levels, r);
      var k :| 0 <= k < |levels| && levels[k].price == r;
      assert t[k].price == r;
    }
  }

  lemma AppendHolds(levels: seq<Level>, l: Ladder, side: Side, p: Price, q: Quantity)
    requires Lists(levels, l, side) && Find(levels, p).None?
    ensures p !in l && Holds(levels + [Level(p, q)], l[p := q])
  {
    var t := levels + [Level(p, q)];
    assert p in l ==> HasPrice(levels, p);
    forall r | r in l[p := q] ensures HasPrice(t, r) {
      if r == p {
        assert t[|levels|].price == p;
      } else {
        assert HasPrice(levels, r);
        var k :| 0 <= k < |levels| && levels[k].price == r;
        assert t[k].price == r;
      }
    }
  }

  /** Setting a level in the sorted vector is setting it in the ladder. */
  lemma SetReferenceLists(levels: seq<Level>, l: Ladder, side: Side, p: Price, q: Quantity)
    requires Lists(levels, l, side)
    ensures Lists(SetReference(levels, side, p, q), SetLevel(l, p, q), side)
  {
    hide SortSide, Find, Lists, Holds;
    match Find(levels, p)
    case Some(i) =>
      if q == 0 {
        EraseLists(levels, l, side, i);
      } else {
        ReplaceHolds(levels, l, side, i, q);
        SortSideLists(levels[i := Level(p, q)], l[p := q], side);
      }
    case None =>
      AppendHolds(levels, l, side, p, q);
      if q == 0 {
        assert l - {p} == l;
      } else {
        SortSideLists(levels + [Level(p, q)], l[p := q], side);
      }
  }

  // ------------------------------------------------------------------ the class

  class ReferenceOrderBook {
    var bids: seq<Level>
    var asks: seq<Level>

    constructor ()
      ensures bids == [] && asks == []
    {
      bids, asks := [], [];
    }

    function On(side: Side): seq<Level>
      reads this
    {
      if side.Bid? then bids else asks
    }

    method FindLevel(side: Side, p: Price) returns (found: Option<nat>)
      ensures found == Find(On(side), p)
    {
      var levels := if side.Bid? then bids else asks;
      for i := 0 to |levels|
        invariant forall j :: 0 <= j < i ==> levels[j].price != p
      {
        if levels[i].price == p {
          return Some(i);
        }
      }
      return None;
    }

    method Store(side: Side, levels: seq<Level>)
      modifies this
      ensures On(side) == levels
      ensures forall other :: other != side ==> On(other) == old(On(other))
    {
      if side.Bid? {
        bids := levels;
      } else {
        asks := levels;
      }
    }

    method ApplyLevel(side: Side, p: Price, q: Quantity)
      modifies this
      ensures On(side) == SetReference(old(On(side)), side, p, q)
      ensures forall other :: other != side ==> On(other) == old(On(other))
    {
      var levels := if side.Bid? then bids else asks;
      var found := FindLevel(side, p);
      if q == 0 {
        if found.Some? {
          Store(side, levels[..found.value] + levels[found.value + 1..]);
        }
        return;
      }
      if found.Some? {
        levels := levels[found.value := Level(p, q)];
      } else {
        levels := levels + [Level(p, q)];
      }
      Store(side, SortSide(levels, side));
    }

    method ClearSide(side: Side)
      modifies this
      ensures On(side) == []
      ensures forall other :: other != side ==> On(other) == old(On(other))
    {
      Store(side, []);
    }

    method Clear()
      modifies this
      ensures bids == [] && asks == []
    {
      bids, asks := [], [];
    }

    /** The quantity at a price of a book that lists `l` is the ladder's own lookup. */
    method QuantityAtPrice(side: Side, p: Price, ghost l: Ladder) returns (q: Option<Quantity>)
      requires Lists(On(side), l, side)
      ensures q == if p in l then Some(l[p]) else None
    {
      var levels := if side.Bid? then bids else asks;
      assert p in l ==> HasPrice(levels, p);
      for i := 0 to |levels|
        invariant forall j :: 0 <= j < i ==> levels[j].price != p
      {
        if levels[i].price == p {
          return Some(levels[i].quantity);
        }
      }
      return None;
    }

    method TopLevels(side: Side, limit: nat) returns (top: seq<Level>)
      ensures top <= On(side) && |top| == if limit < |On(side)| then limit else |On(side)|
    {
      var levels := if side.Bid? then bids else asks;
      if limit == 0 {
        return [];
      }
      return levels[..if limit < |levels| then limit else |levels|];
    }
  }

  // -------------------------------------------------------- the differential harness

  datatype Reference = Reference(bids: seq<Level>, asks: seq<Level>) {
    function On(side: Side): seq<Level> {
      if side.Bid? then bids else asks
    }

    function With(side: Side, levels: seq<Level>): Reference {
      if side.Bid? then Reference(levels, asks) else Reference(bids, levels)
    }
  }

  datatype Op =
    | SetOne(side: Side, price: Price, quantity: Quantity)
    | Reapply(side: Side)
    | Batch(updates: seq<Update>)
    | ClearOne(side: Side)
    | ClearBoth
    | Replace(newBids: seq<Level>, newAsks: seq<Level>)
    | Query

  function ReferenceUpdates(r: Reference, us: seq<Update>): Reference
    decreases |us|
  {
    if us == [] then r
    else
      var u := us[0];
      ReferenceUpdates(r.With(u.side, SetReference(r.On(u.side), u.side, u.price, u.quantity)), us[1..])
  }

  /** Levels of one side as updates. */
  function AsUpdates(side: Side, levels: seq<Level>): seq<Update> {
    if levels == [] then []
    else AsUpdates(side, levels[..|levels| - 1])
         + [Update(side, levels[|levels| - 1].price, levels[|levels| - 1].quantity)]
  }

  /** What one fuzz operation does to the production book and to the reference. */
  function Step(b: Book, r: Reference, op: Op): (Book, Reference) {
    match op
    case SetOne(side, p, q) => (OrderBook.ApplyLevel(b, side, p, q), ReferenceUpdates(r, [Update(side, p, q)]))
    case Reapply(side) => (ApplyUpdates(b, AsUpdates(side, r.On(side))), r)
    case Batch(us) => (ApplyUpdates(b, us), ReferenceUpdates(r, us))
    case ClearOne(side) => (b.With(side, map[]), r.With(side, []))
    case ClearBoth => (EMPTY, Reference([], []))
    case Replace(bids, asks) =>
      (ReplaceAll(bids, asks),
       ReferenceUpdates(ReferenceUpdates(Reference([], []), AsUpdates(Bid, bids)), AsUpdates(Ask, asks)))
    case Query => (b, r)
  }

  function Run(ops: seq<Op>): (Book, Reference) {
    if ops == [] then (EMPTY, Reference([], []))
    else
      var (b, r) := Run(ops[..|ops| - 1]);
      Step(b, r, ops[|ops| - 1])
  }

  /** Both books hold the same levels: the reference is the sorted listing of the maps. */
  predicate Agree(b: Book, r: Reference) {
    && Lists(r.bids, b.bids, Bid) && Lists(r.asks, b.asks, Ask)
    && PositiveBook(b)
  }

  lemma {:induction false} UpdatesAgree(b: Book, r: Reference, us: seq<Update>)
    requires Agree(b, r)
    ensures Agree(ApplyUpdates(b, us), ReferenceUpdates(r, us))
    decreases |us|
  {
    hide Lists, SetReference;
    if us != [] {
      var u := us[0];
      SetReferenceLists(r.On(u.side), b.On(u.side), u.side, u.price, u.quantity);
      var b1 := OrderBook.ApplyLevel(b, u.side, u.price, u.quantity);
      var r1 := r.With(u.side, SetReference(r.On(u.side), u.side, u.price, u.quantity));
      UpdatesAgree(b1, r1, us[1..]);
    }
  }

  lemma {:induction false} AsUpdatesLoad(b: Book, side: Side, levels: seq<Level>)
    requires b.On(side) == map[]
    ensures ApplyUpdates(b, AsUpdates(side, levels)) == b.With(side, Load(levels))
  {
    if levels != [] {
      var init := levels[..|levels| - 1];
      AsUpdatesLoad(b, side, init);
      var us := AsUpdates(side, levels);
      assert us[..|us| - 1] == AsUpdates(side, init);
      LastUpdate(b, us);
    }
  }

  /** Re-applying levels that are already there changes nothing. */
  lemma {:induction false} ReapplyUnchanged(b: Book, side: Side, levels: seq<Level>)
    requires Shows(levels, b.On(side)) && Positive(b.On(side))
    ensures ApplyUpdates(b, AsUpdates(side, levels)) == b
  {
    if levels != [] {
      var init, last := levels[..|levels| - 1], levels[|levels| - 1];
      ReapplyUnchanged(b, side, init);
      var us := AsUpdates(side, levels);
      assert us[..|us| - 1] == AsUpdates(side, init);
      LastUpdate(b, us);
      assert b.On(side)[last.price := last.quantity] == b.On(side);
    }
  }

  lemma StepAgrees(b: Book, r: Reference, op: Op)
    requires Agree(b, r)
    ensures Agree(Step(b, r, op).0, Step(b, r, op).1)
  {
    match op
    case SetOne(side, p, q) =>
      UpdatesAgree(b, r, [Update(side, p, q)]);
      assert [Update(side, p, q)][1..] == [];
      assert ApplyUpdates(b, [Update(side, p, q)]) == OrderBook.ApplyLevel(b, side, p, q);
    case Reapply(side) => ReapplyUnchanged(b, side, r.On(side));
    case Batch(us) => UpdatesAgree(b, r, us);
    case Replace(bids, asks) =>
      var empty := Reference([], []);
      UpdatesAgree(EMPTY, empty, AsUpdates(Bid, bids));
      AsUpdatesLoad(EMPTY, Bid, bids);
      var half := Book(Load(bids), map[]);
      UpdatesAgree(half, ReferenceUpdates(empty, AsUpdates(Bid, bids)), AsUpdates(Ask, asks));
      AsUpdatesLoad(half, Ask, asks);
    case _ =>
  }

  lemma {:induction false} RunsAgree(ops: seq<Op>)
    ensures Agree(Run(ops).0, Run(ops).1)
  {
    hide Agree, Step;
    if ops == [] {
      EmptyAgrees();
    } else {
      RunsAgree(ops[..|ops| - 1]);
      var (b, r) := Run(ops[..|ops| - 1]);
      StepAgrees(b, r, ops[|ops| - 1]);
    }
  }

  lemma EmptyAgrees()
    ensures Agree(EMPTY, Reference([], []))
  {
  }

  // ------------------------------------------------------------------ the comparisons

  /** The first `limit` levels, as the loops of both books copy them. */
  function Top(levels: seq<Level>, limit: nat): seq<Level> {
    levels[..if limit < |levels| then limit else |levels|]
  }

  function Front(levels: seq<Level>): Option<Level> {
    if levels == [] then None else Some(levels[0])
  }

  function Lookup(levels: seq<Level>, p: Price): Option<Quantity> {
    match Find(levels, p)
    case None => None
    case Some(i) => Some(levels[i].quantity)
  }

  /** The best level of a map: its first in iteration order. */
  function BestOf(l: Ladder, side: Side): Option<Level> {
    if l == map[] then None else (BestExists(l, side); var p :| Best(l, side, p); Some(Level(p, l[p])))
  }

  predicate NoZeroQuantities(levels: seq<Level>) {
    forall i :: 0 <= i < |levels| ==> levels[i].quantity > 0
  }

  predicate StrictOrdering(levels: seq<Level>, ascending: bool) {
    forall i :: 1 <= i < |levels| ==>
      if ascending then levels[i - 1].price < levels[i].price else levels[i - 1].price > levels[i].price
  }

  predicate NoDuplicates(levels: seq<Level>) {
    forall i :: 1 <= i < |levels| ==> levels[i - 1].price != levels[i].price
  }

  /** The comparisons that are made for each side: counts, levels, order, and five prefixes. */
  predicate SideConsistent(l: Ladder, levels: seq<Level>, side: Side) {
    var all, count := Enumerate(l, side), |levels|;
    && |l| == count && |all| == count
    && (forall i :: 0 <= i < |all| && i < count ==> all[i].price == levels[i].price && all[i].quantity == levels[i].quantity)
    && NoZeroQuantities(all) && StrictOrdering(all, side.Ask?) && NoDuplicates(all)
    && Top(all, 0) == Top(levels, 0)
    && (count > 0 ==> Top(all, 1) == Top(levels, 1))
    && Top(all, count / 2) == Top(levels, count / 2)
    && Top(all, count) == Top(levels, count)
    && Top(all, count + 1) == Top(levels, count + 1)
  }

  /** `check_consistency`: true when no comparison aborts. */
  predicate Consistent(b: Book, r: Reference, side: Side, p: Price) {
    && BestOf(b.bids, Bid) == Front(r.bids) && BestOf(b.asks, Ask) == Front(r.asks)
    && QuantityAt(b, side, p) == Lookup(r.On(side), p)
    && SideConsistent(b.bids, r.bids, Bid) && SideConsistent(b.asks, r.asks, Ask)
  }

  lemma {:induction false} EnumerateCounts(l: Ladder, side: Side)
    ensures |Enumerate(l, side)| == |l|
    decreases |l|
  {
    if l != map[] {
      BestExists(l, side);
      var all := Enumerate(l, side);
      var p :| Best(l, side, p) && all == [Level(p, l[p])] + Enumerate(l - {p}, side);
      EnumerateCounts(l - {p}, side);
      OneLess(l, p);
    }
  }

  lemma OneLess(l: Ladder, p: Price)
    requires p in l
    ensures |l - {p}| == |l| - 1
  {
    assert (l - {p}).Keys == l.Keys - {p};
    assert |l| == |l.Keys| && |l - {p}| == |(l - {p}).Keys|;
  }

  lemma BestIsFront(l: Ladder, side: Side)
    ensures BestOf(l, side) == Front(Enumerate(l, side))
  {
    if l != map[] {
      BestExists(l, side);
      var p :| Best(l, side, p) && Enumerate(l, side) == [Level(p, l[p])] + Enumerate(l - {p}, side);
      forall q | Best(l, side, q) ensures q == p {
      }
    }
  }

  lemma LookupIsMap(l: Ladder, levels: seq<Level>, side: Side, p: Price)
    requires Lists(levels, l, side)
    ensures Lookup(levels, p) == if p in l then Some(l[p]) else None
  {
    assert p in l ==> HasPrice(levels, p);
  }

  lemma ListingConsistent(l: Ladder, levels: seq<Level>, side: Side)
    requires Lists(levels, l, side) && Positive(l)
    ensures levels == Enumerate(l, side) && SideConsistent(l, levels, side)
    ensures BestOf(l, side) == Front(levels)
  {
    hide Enumerate, BestOf;
    EnumerateLists(l, side);
    ListingUnique(levels, Enumerate(l, side), l, side);
    EnumerateCounts(l, side);
    BestIsFront(l, side);
    assert NoZeroQuantities(levels);
    assert StrictOrdering(levels, side.Ask?);
    assert NoDuplicates(levels);
  }

  /**
   After every operation sequence no comparison of the harness aborts: not those of
   `check_consistency` at any side and price, nor a query for the top levels with any limit.
   */
  lemma DifferentialNeverAborts(ops: seq<Op>, side: Side, p: Price, limit: nat)
    ensures var (b, r) := Run(ops);
            && Consistent(b, r, side, p)
            && Top(Enumerate(b.On(side), side), limit) == Top(r.On(side), limit)
  {
    hide SideConsistent, Lists, BestOf, Enumerate, Lookup;
    var (b, r) := Run(ops);
    RunsAgree(ops);
    ListingConsistent(b.bids, r.bids, Bid);
    ListingConsistent(b.asks, r.asks, Ask);
    LookupIsMap(b.On(side), r.On(side), side, p);
  }
}
