/**
 The production projection: a status machine over a book, driven by baselines and
 depth batches, and its agreement with the offline synchronization.
 */
module BookProjection {
  import opened Basics
  import opened OrderBook
  import opened Synchronize

  datatype Status = AwaitingBaseline | AwaitingBridge | Synchronized | NeedsResync

  datatype GapReason =
    | SpotBootstrapForwardGap | SpotLiveForwardGap
    | FuturesBootstrapRangeMiss | FuturesMissingPreviousFinal | FuturesPreviousFinalMismatch

  /** A batch whose range was accepted by `UpdateRange::try_create`. */
  datatype Batch = Batch(first: u64, last: u64, previous: Option<u64>, levels: seq<Update>)

  datatype Gap = Gap(accepted: u64, first: u64, last: u64, previous: Option<u64>, reason: GapReason, policy: Market)

  datatype Projection = Projection(policy: Market, status: Status, last: Option<u64>, gap: Option<Gap>, book: Book)

  datatype InstallDisposition = Installed | InstallRejected
  datatype ApplyDisposition = Applied | IgnoredStale | IgnoredDuplicate | GapDetected | ApplyRejected

  function Fresh(policy: Market): Projection {
    Projection(policy, AwaitingBaseline, None, None, EMPTY)
  }

  // -------------------------------------------------------------- classification

  datatype Decision = Accept | Stale | Duplicate | Reject(reason: GapReason)

  predicate CoversSuccessor(current: u64, first: u64) {
    first <= current || (current != U64_MAX && first == current + 1)
  }

  function Classify(policy: Market, status: Status, current: u64, b: Batch): Decision {
    var bootstrap := status == AwaitingBridge;
    if b.last < current then Stale
    else if policy.Spot? then
      if b.last == current then Duplicate
      else if CoversSuccessor(current, b.first) then Accept
      else Reject(if bootstrap then SpotBootstrapForwardGap else SpotLiveForwardGap)
    else if bootstrap then
      if b.first > current then Reject(FuturesBootstrapRangeMiss)
      else if b.previous.None? then Reject(FuturesMissingPreviousFinal)
      else Accept
    else
      if b.last == current then Duplicate
      else if b.previous.None? then Reject(FuturesMissingPreviousFinal)
      else if b.previous.value != current then Reject(FuturesPreviousFinalMismatch)
      else Accept
  }

  // ------------------------------------------------------------------ transitions

  function Install(p: Projection, id: u64, bids: seq<Level>, asks: seq<Level>): (Projection, InstallDisposition) {
    if p.status == Synchronized then (p, InstallRejected)
    else (p.(book := ReplaceAll(bids, asks), last := Some(id), status := AwaitingBridge), Installed)
  }

  /** The book is copied level by level, updated, and moved back. */
  function Transaction(b: Book, us: seq<Update>): Book {
    ApplyUpdates(ReplaceAll(Enumerate(b.bids, Bid), Enumerate(b.asks, Ask)), us)
  }

  function Apply(p: Projection, b: Batch): (Projection, ApplyDisposition)
    requires p.last.Some? || p.status == AwaitingBaseline
  {
    if p.status == AwaitingBaseline || p.status == NeedsResync then (p, ApplyRejected)
    else
      var current := p.last.value;
      match Classify(p.policy, p.status, current, b)
      case Stale => (p, IgnoredStale)
      case Duplicate => (p, IgnoredDuplicate)
      case Reject(reason) =>
        (p.(gap := Some(Gap(current, b.first, b.last, b.previous, reason, p.policy)), status := NeedsResync), GapDetected)
      case Accept =>
        (p.(book := Transaction(p.book, b.levels),
            last := Some(if b.last > current then b.last else current),
            status := Synchronized), Applied)
  }

  function Reset(p: Projection): Projection {
    Fresh(p.policy)
  }

  /** What every reachable projection satisfies. */
  predicate Valid(p: Projection) {
    && PositiveBook(p.book)
    && (p.last.None? <==> p.status == AwaitingBaseline)
  }

  lemma TransactionIsUpdate(b: Book, us: seq<Update>)
    requires PositiveBook(b)
    ensures Transaction(b, us) == ApplyUpdates(b, us)
    ensures PositiveBook(Transaction(b, us))
  {
    hide ApplyUpdates, Enumerate, Load;
    EnumerateLists(b.bids, Bid);
    EnumerateLists(b.asks, Ask);
    LoadListing(Enumerate(b.bids, Bid), b.bids, Bid);
    LoadListing(Enumerate(b.asks, Ask), b.asks, Ask);
    UpdatesPositive(b, us);
  }

  lemma TransitionsKeepValid(p: Projection, id: u64, bids: seq<Level>, asks: seq<Level>, b: Batch)
    requires Valid(p)
    ensures Valid(Install(p, id, bids, asks).0)
    ensures Valid(Apply(p, b).0)
    ensures Valid(Reset(p))
  {
    hide Transaction, Load;
    LoadPositive(bids);
    LoadPositive(asks);
    TransactionIsUpdate(p.book, b.levels);
  }

  // --------------------------------------------------------------------- the class

  class Machine {
    const policy: Market
    var status: Status
    var last: Option<u64>
    var gap: Option<Gap>
    var book: Book

    ghost predicate Ok()
      reads this
    {
      Valid(View())
    }

    function View(): Projection
      reads this
    {
      Projection(policy, status, last, gap, book)
    }

    constructor (policy: Market)
      ensures Ok() && View() == Fresh(policy)
    {
      this.policy := policy;
      status, last, gap, book := AwaitingBaseline, None, None, EMPTY;
    }

    method InstallBaseline(id: u64, bids: seq<Level>, asks: seq<Level>) returns (d: InstallDisposition)
      requires Ok()
      modifies this
      ensures Ok() && (View(), d) == Install(old(View()), id, bids, asks)
    {
      TransitionsKeepValid(View(), id, bids, asks, Batch(0, 0, None, []));
      if status == Synchronized {
        return InstallRejected;
      }
      book := ReplaceAll(bids, asks);
      last := Some(id);
      status := AwaitingBridge;
      return Installed;
    }

    method ApplyBatch(b: Batch) returns (d: ApplyDisposition)
      requires Ok()
      modifies this
      ensures Ok() && (View(), d) == Apply(old(View()), b)
    {
      hide Transaction, Classify;
      TransitionsKeepValid(View(), 0, [], [], b);
      if status == AwaitingBaseline || status == NeedsResync {
        return ApplyRejected;
      }
      var current := last.value;
      var decision := Classify(policy, status, current, b);
      match decision
      case Stale => return IgnoredStale;
      case Duplicate => return IgnoredDuplicate;
      case Reject(reason) =>
        gap := Some(Gap(current, b.first, b.last, b.previous, reason, policy));
        status := NeedsResync;
        return GapDetected;
      case Accept =>
        book := Transaction(book, b.levels);
        if b.last > current {
          last := Some(b.last);
        }
        status := Synchronized;
        return Applied;
    }

    method ResetAll()
      modifies this
      ensures Ok() && View() == Reset(old(View()))
    {
      book := EMPTY;
      last := None;
      gap := None;
      status := AwaitingBaseline;
    }
  }

  // --------------------------------------------- agreement with synchronization

  /** How a recorded update reaches the projection. */
  function AsBatch(d: Depth, levelsOf: Depth -> seq<Update>): Batch {
    Batch(d.first, d.last, d.previous, levelsOf(d))
  }

  /** The market's updates carry `pu` exactly when the market is USD-M. */
  predicate Recorded(market: Market, d: Depth) {
    Parsed(d) && (market.UsdM? ==> d.previous.Some?)
  }

  predicate AllRecorded(market: Market, ds: seq<Depth>) {
    forall i :: 0 <= i < |ds| ==> Recorded(market, ds[i])
  }

  /** The projection stands where the cursor stands. */
  predicate Tracks(p: Projection, market: Market, c: Cursor) {
    && p.policy == market && p.last == Some(c.local)
    && p.status == if c.bridged then Synchronized else AwaitingBridge
  }

  /**
   One update: the projection ignores it exactly when synchronization skips it, applies it exactly
   when synchronization selects it, and reports a gap exactly when synchronization fails.
   */
  lemma StepsAgree(p: Projection, market: Market, c: Cursor, d: Depth, levelsOf: Depth -> seq<Update>)
    requires Tracks(p, market, c) && Recorded(market, d)
    ensures var (p', disposition) := Apply(p, AsBatch(d, levelsOf));
            match Step(market, c, d)
            case Err(_) => disposition == GapDetected && p'.status == NeedsResync
            case Ok(c') =>
              && Tracks(p', market, c')
              && (if c' == c then p' == p && (disposition == IgnoredStale || disposition == IgnoredDuplicate)
                  else disposition == Applied && p'.book == Transaction(p.book, levelsOf(d)))
  {
    hide Transaction, Step;
    StepCases(market, c, d);
  }

  function ApplyAll(p: Projection, ds: seq<Depth>, levelsOf: Depth -> seq<Update>): (Projection, seq<ApplyDisposition>)
    requires Valid(p)
    decreases |ds|
  {
    if ds == [] then (p, [])
    else
      var (p1, d) := Apply(p, AsBatch(ds[0], levelsOf));
      TransitionsKeepValid(p, 0, [], [], AsBatch(ds[0], levelsOf));
      var (p2, rest) := ApplyAll(p1, ds[1..], levelsOf);
      (p2, [d] + rest)
  }

  function AllUpdates(ds: seq<Depth>, levelsOf: Depth -> seq<Update>): seq<Update> {
    if ds == [] then [] else levelsOf(ds[0]) + AllUpdates(ds[1..], levelsOf)
  }

  predicate AllApplied(ds: seq<ApplyDisposition>) {
    forall i :: 0 <= i < |ds| ==> ds[i] == Applied
  }

  /** An update that synchronization selects is applied and written. */
  lemma SelectedApplies(p: Projection, market: Market, c: Cursor, d: Depth, levelsOf: Depth -> seq<Update>)
    requires Valid(p) && Tracks(p, market, c) && Recorded(market, d) && Extends(market, c.bridged, c.local, d)
    ensures var (p1, disposition) := Apply(p, AsBatch(d, levelsOf));
            && disposition == Applied && Valid(p1) && Tracks(p1, market, Select(c, d)) && p1.policy == p.policy
            && p1.status == Synchronized && p1.last == Some(d.last)
            && p1.book == ApplyUpdates(p.book, levelsOf(d))
  {
    hide Extends, Transaction, Apply, ApplyUpdates, Step;
    StepsAgree(p, market, c, d, levelsOf);
    StepCases(market, c, d);
    assert Select(c, d).selected != c.selected;
    TransitionsKeepValid(p, 0, [], [], AsBatch(d, levelsOf));
    TransactionIsUpdate(p.book, levelsOf(d));
  }

  /** Selected updates are all applied, one after the other. */
  lemma {:induction false} SelectionApplies(p: Projection, market: Market, c: Cursor, legs: seq<Leg>, levelsOf: Depth -> seq<Update>)
    requires Valid(p) && Tracks(p, market, c)
    requires Legs(market, c.bridged, c.local, legs) && AllRecorded(market, Chosen(legs))
    ensures var (p', dispositions) := ApplyAll(p, Chosen(legs), levelsOf);
            && |dispositions| == |legs| && AllApplied(dispositions)
            && p'.policy == p.policy
            && p'.last == Some(Reached(c.local, legs))
            && p'.status == (if legs == [] then p.status else Synchronized)
            && p'.book == ApplyUpdates(p.book, AllUpdates(Chosen(legs), levelsOf))
    decreases |legs|
  {
    if legs != [] {
      hide Extends, AllSkippable, Apply, ApplyUpdates, Valid, Tracks, Recorded;
      var ds := Chosen(legs);
      var d, more := ds[0], legs[1..];
      assert ds[1..] == Chosen(more);
      assert Recorded(market, d);
      SelectedApplies(p, market, c, d, levelsOf);
      SelectionApplies(Apply(p, AsBatch(d, levelsOf)).0, market, Select(c, d), more, levelsOf);
      UpdatesSplit(p.book, levelsOf(d), AllUpdates(Chosen(more), levelsOf));
    }
  }

  /**
   The materialized corpus replays cleanly on every projection that is not synchronized, one that
   needs a resync included: installing the chosen snapshot and applying the selected updates never
   reports a gap or a duplicate, ends synchronized at the last selected id, and leaves the
   snapshot's book with every selected update written in order.
   */
  lemma MaterializedCorpusReplays(from: Projection, market: Market, snapshot: u64, depths: seq<Depth>, target: nat,
                                  bids: seq<Level>, asks: seq<Level>, levelsOf: Depth -> seq<Update>)
    requires Valid(from) && from.policy == market && from.status != Synchronized
    requires AllRecorded(market, depths) && Sync(market, snapshot, depths, target).Ok?
    ensures var sel := Sync(market, snapshot, depths, target).value;
            var (p, installed) := Install(from, snapshot, bids, asks);
            && |sel| == 1 + target && installed == Installed && Valid(p)
            && var (p', dispositions) := ApplyAll(p, sel, levelsOf);
            && |dispositions| == 1 + target && AllApplied(dispositions)
            && p'.status == Synchronized
            && p'.last == Some(sel[target].last)
            && p'.book == ApplyUpdates(ReplaceAll(bids, asks), AllUpdates(sel, levelsOf))
  {
    hide Legs, Flatten, Walk, ApplyUpdates, Load, Apply;
    assert AllParsed(depths);
    var legs := SyncExplained(market, snapshot, depths, target);
    TransitionsKeepValid(from, snapshot, bids, asks, Batch(0, 0, None, []));
    var p := Install(from, snapshot, bids, asks).0;
    ChosenRecorded(market, legs, depths);
    SelectionApplies(p, market, Start(snapshot), legs, levelsOf);
  }

  lemma {:induction false} ChosenRecorded(market: Market, legs: seq<Leg>, depths: seq<Depth>)
    requires Flatten(legs) <= depths && AllRecorded(market, depths)
    ensures AllRecorded(market, Chosen(legs))
    decreases |legs|
  {
    hide Recorded;
    if legs != [] {
      var k := |legs[0].skipped|;
      assert Flatten(legs)[k] == legs[0].chosen && depths[k] == legs[0].chosen;
      var rest := depths[k + 1..];
      assert Flatten(legs)[k + 1..] == Flatten(legs[1..]);
      assert Flatten(legs[1..]) <= rest;
      assert forall i :: 0 <= i < |rest| ==> rest[i] == depths[k + 1 + i];
      ChosenRecorded(market, legs[1..], rest);
      var a, b := Chosen(legs), Chosen(legs[1..]);
      forall i | 0 <= i < |a| ensures Recorded(market, a[i]) {
        if i > 0 {
          assert a[i] == b[i - 1];
        }
      }
    }
  }

  // ------------------------------------------------- the whole stream, skipped parts too

  lemma {:induction false} SkippedLeaveProjection(p: Projection, market: Market, c: Cursor, ds: seq<Depth>, more: seq<Depth>, levelsOf: Depth -> seq<Update>)
    requires Valid(p) && Tracks(p, market, c)
    requires AllSkippable(market, c.bridged, c.local, ds) && AllRecorded(market, ds)
    ensures ApplyAll(p, ds + more, levelsOf).0 == ApplyAll(p, more, levelsOf).0
    decreases |ds|
  {
    hide Apply, Valid, Step, Tracks, Recorded;
    if ds == [] {
      assert ds + more == more;
    } else {
      assert (ds + more)[1..] == ds[1..] + more && (ds + more)[0] == ds[0];
      RecordedIsParsed(market, ds[0]);
      StepCases(market, c, ds[0]);
      StepsAgree(p, market, c, ds[0], levelsOf);
      SkippedLeaveProjection(p, market, c, ds[1..], more, levelsOf);
    }
  }

  lemma RecordedIsParsed(market: Market, d: Depth)
    requires Recorded(market, d)
    ensures Parsed(d)
  {
  }

  lemma LegRecorded(market: Market, leg: Leg, more: seq<Leg>)
    requires AllRecorded(market, Flatten([leg] + more))
    ensures AllRecorded(market, leg.skipped) && Recorded(market, leg.chosen) && AllRecorded(market, Flatten(more))
  {
    hide Recorded;
    assert ([leg] + more)[1..] == more;
    var all, k := Flatten([leg] + more), |leg.skipped|;
    assert all == leg.skipped + [leg.chosen] + Flatten(more);
    assert forall i :: 0 <= i < k ==> all[i] == leg.skipped[i];
    assert all[k] == leg.chosen;
    assert forall i :: 0 <= i < |Flatten(more)| ==> all[k + 1 + i] == Flatten(more)[i];
  }

  /** Replaying the raw stream, skipped updates included, ends in the same projection as the selection. */
  lemma {:induction false} StreamEqualsSelection(p: Projection, market: Market, c: Cursor, legs: seq<Leg>, levelsOf: Depth -> seq<Update>)
    requires Valid(p) && Tracks(p, market, c)
    requires Legs(market, c.bridged, c.local, legs) && AllRecorded(market, Flatten(legs))
    ensures ApplyAll(p, Flatten(legs), levelsOf).0 == ApplyAll(p, Chosen(legs), levelsOf).0
    decreases |legs|
  {
    if legs != [] {
      hide Apply, Valid, Step, Tracks, Recorded, AllRecorded, Extends, AllSkippable;
      var leg, more := legs[0], legs[1..];
      var d := leg.chosen;
      assert legs == [leg] + more;
      LegRecorded(market, leg, more);
      RecordedIsParsed(market, d);
      var tail := [d] + Flatten(more);
      assert Flatten(legs) == leg.skipped + tail;
      SkippedLeaveProjection(p, market, c, leg.skipped, tail, levelsOf);
      StepsAgree(p, market, c, d, levelsOf);
      StepCases(market, c, d);
      assert Select(c, d).selected != c.selected;
      TransitionsKeepValid(p, 0, [], [], AsBatch(d, levelsOf));
      assert tail[1..] == Flatten(more) && Chosen(legs)[1..] == Chosen(more);
      StreamEqualsSelection(Apply(p, AsBatch(d, levelsOf)).0, market, Select(c, d), more, levelsOf);
    }
  }
}
