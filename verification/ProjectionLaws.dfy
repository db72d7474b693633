/**
 What each transition of the projection means, price by price and case by case, in plain terms.
 */
module ProjectionLaws {
  import opened Basics
  import opened OrderBook
  import opened Synchronize
  import opened BookProjection

  /** The quantity shown at a price, read off the two maps. */
  function Shown(b: Book, side: Side, p: Price): Option<Quantity> {
    match side
    case Bid => if p in b.bids then Some(b.bids[p]) else None
    case Ask => if p in b.asks then Some(b.asks[p]) else None
  }

  /** The last level for the price, if it is not a removal. */
  function LastLevel(levels: seq<Level>, p: Price): Option<Quantity> {
    if levels == [] then None
    else
      var last := levels[|levels| - 1];
      if last.price != p then LastLevel(levels[..|levels| - 1], p)
      else if last.quantity == 0 then None else Some(last.quantity)
  }

  /** The last update for the side and price, or what was shown before. */
  function LastShown(us: seq<Update>, side: Side, p: Price, before: Option<Quantity>): Option<Quantity> {
    if us == [] then before
    else
      var last := us[|us| - 1];
      if last.side != side || last.price != p then LastShown(us[..|us| - 1], side, p, before)
      else if last.quantity == 0 then None else Some(last.quantity)
  }

  lemma {:induction false} LoadShowsLast(levels: seq<Level>, p: Price)
    ensures (if p in Load(levels) then Some(Load(levels)[p]) else None) == LastLevel(levels, p)
  {
    if levels != [] {
      LoadShowsLast(levels[..|levels| - 1], p);
    }
  }

  lemma {:induction false} UpdatesShowLast(b: Book, us: seq<Update>, side: Side, p: Price)
    ensures Shown(ApplyUpdates(b, us), side, p) == LastShown(us, side, p, Shown(b, side, p))
    decreases |us|
  {
    if us != [] {
      UpdatesShowLast(b, us[..|us| - 1], side, p);
      LastUpdate(b, us);
      hide ApplyUpdates;
    }
  }

  /**
   A baseline is refused, and changes nothing, exactly while synchronized.  Otherwise the projection
   waits for the bridge at the given id, keeps its last gap, and shows at every price the last level
   given for it.
   */
  lemma InstallLaw(p: Projection, id: u64, bids: seq<Level>, asks: seq<Level>, price: Price)
    ensures var (q, d) := Install(p, id, bids, asks);
            && (d == InstallRejected <==> p.status == Synchronized)
            && (p.status == Synchronized ==> q == p)
            && (p.status != Synchronized ==>
                  && d == Installed && q.status == AwaitingBridge && q.last == Some(id)
                  && q.gap == p.gap && q.policy == p.policy
                  && Shown(q.book, Bid, price) == LastLevel(bids, price)
                  && Shown(q.book, Ask, price) == LastLevel(asks, price))
  {
    hide Load, LastLevel;
    LoadShowsLast(bids, price);
    LoadShowsLast(asks, price);
  }

  /** Whether the update continues the sequence from the id reached. */
  predicate Continues(policy: Market, bootstrap: bool, current: u64, b: Batch) {
    match policy
    case Spot => b.first <= current + 1
    case UsdM => if bootstrap then b.first <= current && b.previous.Some? else b.previous == Some(current)
  }

  /** The reason recorded for an update that does not. */
  function GapReasonFor(policy: Market, bootstrap: bool, current: u64, b: Batch): GapReason {
    if policy.Spot? then if bootstrap then SpotBootstrapForwardGap else SpotLiveForwardGap
    else if bootstrap && b.first > current then FuturesBootstrapRangeMiss
    else if b.previous.None? then FuturesMissingPreviousFinal
    else FuturesPreviousFinalMismatch
  }

  /** Without a baseline, or after a gap, every update is refused and changes nothing. */
  lemma RefusedLaw(p: Projection, b: Batch)
    requires Valid(p)
    ensures var (q, d) := Apply(p, b);
            && (d == ApplyRejected <==> p.status == AwaitingBaseline || p.status == NeedsResync)
            && (d == ApplyRejected || d == IgnoredStale || d == IgnoredDuplicate ==> q == p)
  {
    hide Transaction, PositiveBook;
  }

  /**
   With a baseline, an update is stale exactly below the id reached, a duplicate exactly at it
   (except that the USD-M bridge may end there), applied exactly when it continues the sequence, and
   a gap otherwise.
   */
  lemma SequenceLaw(p: Projection, b: Batch)
    requires Valid(p) && (p.status == AwaitingBridge || p.status == Synchronized)
    ensures p.last.Some?
    ensures var current, bootstrap := p.last.value, p.status == AwaitingBridge;
            var d := Apply(p, b).1;
            var duplicate := b.last == current && !(p.policy.UsdM? && bootstrap);
            && (d == IgnoredStale <==> b.last < current)
            && (d == IgnoredDuplicate <==> duplicate)
            && (d == Applied <==> b.last >= current && !duplicate && Continues(p.policy, bootstrap, current, b))
            && (d == GapDetected <==> b.last >= current && !duplicate && !Continues(p.policy, bootstrap, current, b))
  {
    hide Transaction, PositiveBook;
  }

  /** An applied update synchronizes at its last id, keeps the gap record, and writes its levels. */
  lemma AppliedLaw(p: Projection, b: Batch, side: Side, price: Price)
    requires Valid(p) && Apply(p, b).1 == Applied
    ensures var q := Apply(p, b).0;
            && q.status == Synchronized && q.last == Some(b.last) && q.gap == p.gap && q.policy == p.policy
            && Shown(q.book, side, price) == LastShown(b.levels, side, price, Shown(p.book, side, price))
  {
    hide ApplyUpdates, LastShown, Transaction;
    TransactionIsUpdate(p.book, b.levels);
    UpdatesShowLast(p.book, b.levels, side, price);
  }

  /** A gap keeps the book and the id, asks for a resync, and records what was expected and what came. */
  lemma GapLaw(p: Projection, b: Batch)
    requires Valid(p) && Apply(p, b).1 == GapDetected
    ensures p.last.Some?
    ensures var q := Apply(p, b).0;
            && q.status == NeedsResync && q.book == p.book && q.last == p.last && q.policy == p.policy
            && q.gap.Some?
            && q.gap.value.accepted == p.last.value && q.gap.value.first == b.first && q.gap.value.last == b.last
            && q.gap.value.previous == b.previous && q.gap.value.policy == p.policy
            && q.gap.value.reason == GapReasonFor(p.policy, p.status == AwaitingBridge, p.last.value, b)
  {
    hide Transaction, PositiveBook;
  }

  /** A reset forgets everything but the policy. */
  lemma ResetLaw(p: Projection, side: Side, price: Price)
    ensures var q := Reset(p);
            && q.status == AwaitingBaseline && q.last == None && q.gap == None && q.policy == p.policy
            && Shown(q.book, side, price) == None
  {
  }
}
