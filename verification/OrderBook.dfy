/** The production order book: one price-to-quantity map per side. */
module OrderBook {
  import opened Basics

  datatype Side = Bid | Ask

  type Price = x: int | 0 < x <= 0x7FFF_FFFF_FFFF_FFFF witness 1
  type Quantity = x: int | 0 <= x <= 0x7FFF_FFFF_FFFF_FFFF

  datatype Level = Level(price: Price, quantity: Quantity)
  datatype Update = Update(side: Side, price: Price, quantity: Quantity)

  type Ladder = map<Price, Quantity>

  datatype Book = Book(bids: Ladder, asks: Ladder) {
    function On(side: Side): Ladder {
      if side.Bid? then bids else asks
    }

    function With(side: Side, l: Ladder): Book {
      if side.Bid? then Book(l, asks) else Book(bids, l)
    }
  }

  const EMPTY: Book := Book(map[], map[])

  // ------------------------------------------------------------------ operations

  /** A zero quantity removes the level. */
  function SetLevel(l: Ladder, p: Price, q: Quantity): Ladder {
    if q == 0 then l - {p} else l[p := q]
  }

  function ApplyLevel(b: Book, side: Side, p: Price, q: Quantity): Book {
    b.With(side, SetLevel(b.On(side), p, q))
  }

  function ApplyUpdates(b: Book, us: seq<Update>): Book
    decreases |us|
  {
    if us == [] then b
    else ApplyUpdates(ApplyLevel(b, us[0].side, us[0].price, us[0].quantity), us[1..])
  }

  /** Loading levels into an empty side, in order. */
  function Load(levels: seq<Level>): Ladder {
    if levels == [] then map[]
    else
      var last := levels[|levels| - 1];
      SetLevel(Load(levels[..|levels| - 1]), last.price, last.quantity)
  }

  function ReplaceAll(bids: seq<Level>, asks: seq<Level>): Book {
    Book(Load(bids), Load(asks))
  }

  // -------------------------------------------------------------- iteration order

  /** Bids iterate from the highest price, asks from the lowest. */
  predicate Before(side: Side, p: Price, q: Price) {
    if side.Bid? then p > q else p < q
  }

  predicate Best(l: Ladder, side: Side, p: Price) {
    p in l && forall q :: q in l ==> q == p || Before(side, p, q)
  }

  lemma {:induction false} BestExists(l: Ladder, side: Side)
    requires l != map[]
    ensures exists p :: Best(l, side, p)
    decreases |l|
  {
    var p :| p in l;
    var rest := l - {p};
    if rest == map[] {
      assert forall q :: q in l ==> q == p || q in rest;
      assert Best(l, side, p);
    } else {
      BestExists(rest, side);
      var b :| Best(rest, side, b);
      assert forall q :: q in l ==> q == p || q in rest;
      assert Best(l, side, if Before(side, p, b) then p else b);
    }
  }

  /** The levels in the order in which the map iterates. */
  function Enumerate(l: Ladder, side: Side): seq<Level>
    decreases |l|
  {
    if l == map[] then []
    else
      BestExists(l, side);
      var p :| Best(l, side, p);
      [Level(p, l[p])] + Enumerate(l - {p}, side)
  }

  predicate Sorted(levels: seq<Level>, side: Side) {
    forall i, j :: 0 <= i < j < |levels| ==> Before(side, levels[i].price, levels[j].price)
  }

  predicate Shows(levels: seq<Level>, l: Ladder) {
    forall i :: 0 <= i < |levels| ==> levels[i].price in l && l[levels[i].price] == levels[i].quantity
  }

  predicate HasPrice(levels: seq<Level>, p: Price) {
    exists i :: 0 <= i < |levels| && levels[i].price == p
  }

  /** The levels are strictly sorted and are exactly the entries of the ladder. */
  predicate Lists(levels: seq<Level>, l: Ladder, side: Side) {
    Sorted(levels, side) && Shows(levels, l) && forall p :: p in l ==> HasPrice(levels, p)
  }

  lemma BestFirst(l: Ladder, side: Side, p: Price, tail: seq<Level>)
    requires Best(l, side, p) && Lists(tail, l - {p}, side)
    ensures Lists([Level(p, l[p])] + tail, l, side)
  {
    var all := [Level(p, l[p])] + tail;
    forall i, j | 0 <= i < j < |all| ensures Before(side, all[i].price, all[j].price) {
      assert all[j] == tail[j - 1];
      if i > 0 {
        assert all[i] == tail[i - 1];
      }
    }
    forall q | q in l ensures HasPrice(all, q) {
      if q == p {
        assert all[0].price == q;
      } else {
        assert q in l - {p};
        var i :| 0 <= i < |tail| && tail[i].price == q;
        assert all[i + 1].price == q;
      }
    }
  }

  lemma {:induction false} EnumerateLists(l: Ladder, side: Side)
    ensures Lists(Enumerate(l, side), l, side)
    decreases |l|
  {
    if l != map[] {
      hide Lists, Best;
      BestExists(l, side);
      var all := Enumerate(l, side);
      var p :| Best(l, side, p) && all == [Level(p, l[p])] + Enumerate(l - {p}, side);
      EnumerateLists(l - {p}, side);
      BestFirst(l, side, p, Enumerate(l - {p}, side));
    }
  }

  /** There is only one sorted listing of a ladder. */
  lemma {:induction false} ListingUnique(a: seq<Level>, b: seq<Level>, l: Ladder, side: Side)
    requires Lists(a, l, side) && Lists(b, l, side)
    ensures a == b
    decreases |a|
  {
    if a == [] {
      assert forall p :: p in l ==> HasPrice(a, p);
      assert l == map[];
      assert |b| == 0;
    } else {
      assert HasPrice(b, a[0].price);
      assert b != [];
      assert HasPrice(a, b[0].price);
      assert a[0].price == b[0].price;
      ListingTail(a, l, side);
      ListingTail(b, l, side);
      ListingUnique(a[1..], b[1..], l - {a[0].price}, side);
      assert a == [a[0]] + a[1..] && b == [b[0]] + b[1..];
    }
  }

  lemma ListingTail(a: seq<Level>, l: Ladder, side: Side)
    requires a != [] && Lists(a, l, side)
    ensures Lists(a[1..], l - {a[0].price}, side)
  {
    var tail, rest := a[1..], l - {a[0].price};
    forall p | p in rest ensures HasPrice(tail, p) {
      assert HasPrice(a, p);
      var i :| 0 <= i < |a| && a[i].price == p;
      assert tail[i - 1].price == p;
    }
  }

  // --------------------------------------------------------------- quantities

  predicate Positive(l: Ladder) {
    forall p :: p in l ==> l[p] > 0
  }

  /** Reloading a listing of a positive ladder rebuilds it, so copying a book is exact. */
  lemma {:induction false} LoadListing(levels: seq<Level>, l: Ladder, side: Side)
    requires Lists(levels, l, side) && Positive(l)
    ensures Load(levels) == l
    decreases |levels|
  {
    if levels == [] {
      assert forall p :: p in l ==> HasPrice(levels, p);
      assert l == map[];
    } else {
      var n := |levels| - 1;
      var init, last := levels[..n], levels[n];
      var rest := l - {last.price};
      forall p | p in rest ensures HasPrice(init, p) {
        assert HasPrice(levels, p);
        var i :| 0 <= i < |levels| && levels[i].price == p;
        assert init[i].price == p;
      }
      LoadListing(init, rest, side);
      assert rest[last.price := last.quantity] == l;
    }
  }

  lemma {:induction false} LoadPositive(levels: seq<Level>)
    ensures Positive(Load(levels))
  {
    if levels != [] {
      LoadPositive(levels[..|levels| - 1]);
    }
  }

  predicate PositiveBook(b: Book) {
    Positive(b.bids) && Positive(b.asks)
  }

  lemma {:induction false} UpdatesPositive(b: Book, us: seq<Update>)
    requires PositiveBook(b)
    ensures PositiveBook(ApplyUpdates(b, us))
    decreases |us|
  {
    if us != [] {
      UpdatesPositive(ApplyLevel(b, us[0].side, us[0].price, us[0].quantity), us[1..]);
    }
  }

  // --------------------------------------------------------------- last write wins

  predicate Mentions(us: seq<Update>, side: Side, p: Price) {
    exists i :: 0 <= i < |us| && us[i].side == side && us[i].price == p
  }

  /** The quantity at a price after a batch: the last update for it, else what was there. */
  function LastWrite(us: seq<Update>, side: Side, p: Price, before: Option<Quantity>): Option<Quantity> {
    if us == [] then before
    else
      var u := us[|us| - 1];
      if u.side == side && u.price == p then if u.quantity == 0 then None else Some(u.quantity)
      else LastWrite(us[..|us| - 1], side, p, before)
  }

  function QuantityAt(b: Book, side: Side, p: Price): Option<Quantity> {
    if p in b.On(side) then Some(b.On(side)[p]) else None
  }

  lemma {:induction false} UpdatesSplit(b: Book, us: seq<Update>, vs: seq<Update>)
    ensures ApplyUpdates(b, us + vs) == ApplyUpdates(ApplyUpdates(b, us), vs)
    decreases |us|
  {
    hide ApplyLevel;
    if us == [] {
      assert us + vs == vs;
    } else {
      assert (us + vs)[1..] == us[1..] + vs;
      UpdatesSplit(ApplyLevel(b, us[0].side, us[0].price, us[0].quantity), us[1..], vs);
    }
  }

  lemma LastUpdate(b: Book, us: seq<Update>)
    requires us != []
    ensures var u := us[|us| - 1];
            ApplyUpdates(b, us) == ApplyLevel(ApplyUpdates(b, us[..|us| - 1]), u.side, u.price, u.quantity)
  {
    hide ApplyLevel;
    var init, u := us[..|us| - 1], us[|us| - 1];
    assert us == init + [u];
    UpdatesSplit(b, init, [u]);
    assert [u][1..] == [];
  }

  /** A batch leaves at every price what its last update for that price says. */
  lemma {:induction false} BatchIsLastWrite(b: Book, us: seq<Update>, side: Side, p: Price)
    ensures QuantityAt(ApplyUpdates(b, us), side, p) == LastWrite(us, side, p, QuantityAt(b, side, p))
    decreases |us|
  {
    if us != [] {
      BatchIsLastWrite(b, us[..|us| - 1], side, p);
      LastUpdate(b, us);
    }
  }

  /** The updates that no later update for the same side and price overrides. */
  function Final(us: seq<Update>): seq<Update> {
    if us == [] then []
    else if Mentions(us[1..], us[0].side, us[0].price) then Final(us[1..])
    else [us[0]] + Final(us[1..])
  }

  /** Only the last write counts, wherever a batch is cut. */
  lemma {:induction false} LastWriteFirst(u: Update, us: seq<Update>, side: Side, p: Price, before: Option<Quantity>)
    ensures LastWrite([u] + us, side, p, before) == LastWrite(us, side, p, LastWrite([u], side, p, before))
    ensures Mentions(us, side, p) ==> LastWrite(us, side, p, before) == LastWrite(us, side, p, None)
    decreases |us|
  {
    var all := [u] + us;
    if us == [] {
      assert all == [u];
    } else {
      var init, last := us[..|us| - 1], us[|us| - 1];
      assert all[..|all| - 1] == [u] + init && all[|all| - 1] == last;
      LastWriteFirst(u, init, side, p, before);
      if Mentions(us, side, p) && !(last.side == side && last.price == p) {
        var i :| 0 <= i < |us| && us[i].side == side && us[i].price == p;
        assert init[i] == us[i];
      }
    }
  }

  lemma {:induction false} FinalSameWrites(us: seq<Update>, side: Side, p: Price, before: Option<Quantity>)
    ensures LastWrite(Final(us), side, p, before) == LastWrite(us, side, p, before)
    decreases |us|
  {
    if us != [] {
      var u, tail := us[0], us[1..];
      assert us == [u] + tail;
      LastWriteFirst(u, tail, side, p, before);
      FinalSameWrites(tail, side, p, before);
      var mid := LastWrite([u], side, p, before);
      FinalSameWrites(tail, side, p, mid);
      if Mentions(tail, u.side, u.price) {
        if u.side == side && u.price == p {
          LastWriteFirst(u, tail, side, p, mid);
        } else {
          assert mid == before;
        }
      } else {
        LastWriteFirst(u, Final(tail), side, p, before);
      }
    }
  }

  /** Applying a batch equals applying only its last update per side and price. */
  lemma BatchEqualsFinal(b: Book, us: seq<Update>)
    ensures ApplyUpdates(b, us) == ApplyUpdates(b, Final(us))
  {
    hide ApplyUpdates, LastWrite;
    var x, y := ApplyUpdates(b, us), ApplyUpdates(b, Final(us));
    forall side: Side, p: Price ensures QuantityAt(x, side, p) == QuantityAt(y, side, p) {
      BatchIsLastWrite(b, us, side, p);
      BatchIsLastWrite(b, Final(us), side, p);
      FinalSameWrites(us, side, p, QuantityAt(b, side, p));
    }
    BookExtensional(x, y);
  }

  lemma BookExtensional(x: Book, y: Book)
    requires forall side: Side, p: Price :: QuantityAt(x, side, p) == QuantityAt(y, side, p)
    ensures x == y
  {
    forall p: Price ensures (p in x.bids <==> p in y.bids) && (p in x.bids ==> x.bids[p] == y.bids[p]) {
      assert QuantityAt(x, Bid, p) == QuantityAt(y, Bid, p);
    }
    forall p: Price ensures (p in x.asks <==> p in y.asks) && (p in x.asks ==> x.asks[p] == y.asks[p]) {
      assert QuantityAt(x, Ask, p) == QuantityAt(y, Ask, p);
    }
    assert x.bids == y.bids && x.asks == y.asks;
  }
}
