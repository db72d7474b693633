/**
 Choosing the baseline: snapshots are tried in receive order, a snapshot that cannot
 establish a bridge is passed over, and nothing is retried after a proven bridge.
 */
module BaselineSelection {
  import opened Basics
  import opened Sorting
  import opened Synchronize

  const SOURCE_START: nat := 1_785_942_570_200_566_000
  const SOURCE_END: nat := 1_786_028_970_200_566_000

  datatype Stream = DepthSnapshot | DiffDepth | OtherStream

  /** What parsing a record's payload yields. */
  datatype Payload =
    | SnapshotPayload(lastUpdateId: u64, bids: seq<TextLevel>, asks: seq<TextLevel>)
    | DepthPayload(depth: Depth)
    | Malformed

  /**
   A source record.  `tie` holds the remaining components of its order key (market, stream,
   symbol, collector, connection, monotonic time, sequence, chunk digest, ordinal, zero, body
   digest): an integer is the one-element sequence of itself, a text its code points.
   */
  datatype Record = Record(stream: Stream, receive: nat, tie: seq<seq<int>>, payload: Payload)

  /** `order_key`: the receive time first. */
  function OrderKey(r: Record): seq<seq<int>> {
    [[r.receive]] + r.tie
  }

  /** Python's tuple order, component by component. */
  predicate TupleLess(a: seq<seq<int>>, b: seq<seq<int>>) {
    b != [] && (a == [] || LexLess(a[0], b[0]) || (a[0] == b[0] && TupleLess(a[1..], b[1..])))
  }

  lemma {:induction false} TupleIrreflexive(a: seq<seq<int>>)
    ensures !TupleLess(a, a)
  {
    if a != [] {
      LexIrreflexive(a[0]);
      TupleIrreflexive(a[1..]);
    }
  }

  lemma {:induction false} TupleTransitive(a: seq<seq<int>>, b: seq<seq<int>>, c: seq<seq<int>>)
    requires TupleLess(a, b) && TupleLess(b, c)
    ensures TupleLess(a, c)
  {
    hide LexLess;
    if a != [] {
      if LexLess(a[0], b[0]) && LexLess(b[0], c[0]) {
        LexTransitive(a[0], b[0], c[0]);
      } else if a[0] == b[0] && b[0] == c[0] {
        LexIrreflexive(a[0]);
        TupleTransitive(a[1..], b[1..], c[1..]);
      }
    }
  }

  lemma {:induction false} TupleConnected(a: seq<seq<int>>, b: seq<seq<int>>)
    requires a != b
    ensures TupleLess(a, b) || TupleLess(b, a)
  {
    hide LexLess;
    if a != [] && b != [] {
      if a[0] == b[0] {
        assert a == [a[0]] + a[1..] && b == [b[0]] + b[1..];
        TupleConnected(a[1..], b[1..]);
      } else {
        LexConnected(a[0], b[0]);
      }
    }
  }

  lemma TupleIsStrictTotal()
    ensures StrictTotal(TupleLess)
  {
    forall a ensures !TupleLess(a, a) {
      TupleIrreflexive(a);
    }
    forall a, b, c | TupleLess(a, b) && TupleLess(b, c) ensures TupleLess(a, c) {
      TupleTransitive(a, b, c);
    }
    forall a, b | a != b ensures TupleLess(a, b) || TupleLess(b, a) {
      TupleConnected(a, b);
    }
  }

  // ------------------------------------------------------------------- selection

  predicate IsSnapshot(r: Record) {
    r.stream == DepthSnapshot && r.receive >= SOURCE_START
  }

  predicate IsDepth(r: Record) {
    r.stream == DiffDepth && SOURCE_START <= r.receive < SOURCE_END
  }

  function Filter(p: Record -> bool, rs: seq<Record>): seq<Record> {
    if rs == [] then [] else (if p(rs[0]) then [rs[0]] else []) + Filter(p, rs[1..])
  }

  /** The snapshots (or updates) in order-key order. */
  function Ordered(p: Record -> bool, rs: seq<Record>): seq<Record> {
    SortBy(Filter(p, rs), OrderKey, TupleLess)
  }

  predicate AllSnapshots(rs: seq<Record>) {
    forall r :: r in rs ==> r.payload.SnapshotPayload?
  }

  predicate AllDepths(rs: seq<Record>) {
    forall r :: r in rs ==> r.payload.DepthPayload? && Parsed(r.payload.depth)
  }

  function Depths(rs: seq<Record>): (ds: seq<Depth>)
    requires AllDepths(rs)
    ensures |ds| == |rs| && AllParsed(ds)
    ensures forall i :: 0 <= i < |ds| ==> ds[i] == rs[i].payload.depth
  {
    if rs == [] then []
    else
      assert forall r :: r in rs[1..] ==> r in rs;
      assert rs[0] in rs;
      [rs[0].payload.depth] + Depths(rs[1..])
  }

  /** One snapshot's attempt; a snapshot outside the interval counts as ineligible. */
  function Attempt(market: Market, s: Record, depths: seq<Depth>, target: nat): Result<seq<Depth>, Failure>
    requires s.payload.SnapshotPayload?
  {
    if s.receive >= SOURCE_END then Err(Ineligible(OutsideInterval))
    else Sync(market, s.payload.lastUpdateId, depths, target)
  }

  datatype Choice = Choice(snapshot: Record, selected: seq<Depth>)

  function Choose(market: Market, snapshots: seq<Record>, depths: seq<Depth>, target: nat, first: Option<Failure>)
    : Result<Choice, Failure>
    requires AllSnapshots(snapshots)
    decreases |snapshots|
  {
    if snapshots == [] then Err(if first.Some? then first.value else Ineligible(NoBridge))
    else
      assert snapshots[0] in snapshots;
      match Attempt(market, snapshots[0], depths, target)
      case Ok(sel) => Ok(Choice(snapshots[0], sel))
      case Err(f) =>
        if f.Broken? then Err(f)
        else
          assert forall r :: r in snapshots[1..] ==> r in snapshots;
          Choose(market, snapshots[1..], depths, target, if first.None? then Some(f) else first)
  }

  function SelectOperations(market: Market, records: seq<Record>, target: nat): Result<Choice, Failure> {
    var snapshots := Ordered(IsSnapshot, records);
    var updates := Ordered(IsDepth, records);
    if !AllSnapshots(snapshots) then Err(Broken(MalformedSource))
    else if snapshots == [] then Err(Broken(NoBaseline))
    else if !AllDepths(updates) then Err(Broken(MalformedSource))
    else if updates == [] then Err(Broken(NoDepths))
    else Choose(market, snapshots, Depths(updates), target, None)
  }

  /** The loop over the sorted snapshots. */
  method ChooseBaseline(market: Market, snapshots: seq<Record>, depths: seq<Depth>, target: nat)
    returns (r: Result<Choice, Failure>)
    requires AllSnapshots(snapshots)
    ensures r == Choose(market, snapshots, depths, target, None)
  {
    hide Sync;
    var firstError: Option<Failure> := None;
    for i := 0 to |snapshots|
      invariant AllSnapshots(snapshots[i..])
      invariant Choose(market, snapshots, depths, target, None) == Choose(market, snapshots[i..], depths, target, firstError)
    {
      assert snapshots[i..][0] == snapshots[i] && snapshots[i..][1..] == snapshots[i + 1..];
      assert snapshots[i] in snapshots;
      var attempt: Result<seq<Depth>, Failure>;
      if snapshots[i].receive >= SOURCE_END {
        attempt := Err(Ineligible(OutsideInterval));
      } else {
        attempt := SynchronizeFromSnapshot(market, snapshots[i].payload.lastUpdateId, depths, target);
      }
      if attempt.Ok? {
        return Ok(Choice(snapshots[i], attempt.value));
      }
      if attempt.error.Broken? {
        return Err(attempt.error);
      }
      if firstError.None? {
        firstError := Some(attempt.error);
      }
    }
    return Err(if firstError.Some? then firstError.value else Ineligible(NoBridge));
  }

  // -------------------------------------------------------------------- theorems

  predicate PassedOver(market: Market, s: Record, depths: seq<Depth>, target: nat)
    requires s.payload.SnapshotPayload?
  {
    Attempt(market, s, depths, target).Err? && Attempt(market, s, depths, target).error.Ineligible?
  }

  /** What the verdict on snapshot `s` makes of the whole selection. */
  function Verdict(market: Market, s: Record, depths: seq<Depth>, target: nat): Result<Choice, Failure>
    requires s.payload.SnapshotPayload?
  {
    match Attempt(market, s, depths, target)
    case Ok(sel) => Ok(Choice(s, sel))
    case Err(f) => Err(f)
  }

  lemma {:induction false} ChooseIs(market: Market, snapshots: seq<Record>, depths: seq<Depth>, target: nat, first: Option<Failure>, i: nat)
    requires AllSnapshots(snapshots) && i < |snapshots|
    requires forall j :: 0 <= j < i ==> snapshots[j] in snapshots && PassedOver(market, snapshots[j], depths, target)
    requires snapshots[i] in snapshots && !PassedOver(market, snapshots[i], depths, target)
    ensures Choose(market, snapshots, depths, target, first) == Verdict(market, snapshots[i], depths, target)
    decreases i
  {
    hide Attempt;
    if i > 0 {
      var tail := snapshots[1..];
      assert forall r :: r in tail ==> r in snapshots;
      assert tail[i - 1] == snapshots[i];
      assert snapshots[0] in snapshots && PassedOver(market, snapshots[0], depths, target);
      forall j | 0 <= j < i - 1 ensures tail[j] in tail && PassedOver(market, tail[j], depths, target) {
        assert tail[j] == snapshots[j + 1];
      }
      var f := Attempt(market, snapshots[0], depths, target).error;
      ChooseIs(market, tail, depths, target, if first.None? then Some(f) else first, i - 1);
    }
  }

  lemma {:induction false} ChooseExhausted(market: Market, snapshots: seq<Record>, depths: seq<Depth>, target: nat, first: Option<Failure>)
    requires AllSnapshots(snapshots)
    requires forall j :: 0 <= j < |snapshots| ==> snapshots[j] in snapshots && PassedOver(market, snapshots[j], depths, target)
    ensures Choose(market, snapshots, depths, target, first) ==
            if first.Some? then Err(first.value)
            else if snapshots == [] then Err(Ineligible(NoBridge))
            else assert snapshots[0] in snapshots; Verdict(market, snapshots[0], depths, target)
    decreases |snapshots|
  {
    hide Attempt;
    if snapshots != [] {
      var tail := snapshots[1..];
      assert forall r :: r in tail ==> r in snapshots;
      assert snapshots[0] in snapshots && PassedOver(market, snapshots[0], depths, target);
      forall j | 0 <= j < |tail| ensures tail[j] in tail && PassedOver(market, tail[j], depths, target) {
        assert tail[j] == snapshots[j + 1];
      }
      var f := Attempt(market, snapshots[0], depths, target).error;
      ChooseExhausted(market, tail, depths, target, if first.None? then Some(f) else first);
    }
  }

  /** Neither parsing nor emptiness stops the selection. */
  predicate Usable(records: seq<Record>) {
    && AllSnapshots(Ordered(IsSnapshot, records)) && Ordered(IsSnapshot, records) != []
    && AllDepths(Ordered(IsDepth, records)) && Ordered(IsDepth, records) != []
  }

  /**
   The selection is decided by the earliest snapshot, in order-key order, that is not passed over:
   its success is returned and its failure past the bridge is final.  When all are passed over, the
   error of the very first one is reported.
   */
  lemma EarliestUsableDecides(market: Market, records: seq<Record>, target: nat, i: nat)
    requires Usable(records)
    requires var s := Ordered(IsSnapshot, records);
             var ds := Depths(Ordered(IsDepth, records));
             && i <= |s|
             && (forall j :: 0 <= j < i ==> s[j] in s && PassedOver(market, s[j], ds, target))
             && (i < |s| ==> s[i] in s && !PassedOver(market, s[i], ds, target))
    ensures var s := Ordered(IsSnapshot, records);
            var ds := Depths(Ordered(IsDepth, records));
            && s[0] in s
            && SelectOperations(market, records, target) ==
               if i < |s| then Verdict(market, s[i], ds, target) else Verdict(market, s[0], ds, target)
  {
    hide Ordered, Depths, Attempt;
    var s, ds := Ordered(IsSnapshot, records), Depths(Ordered(IsDepth, records));
    if i < |s| {
      ChooseIs(market, s, ds, target, None, i);
    } else {
      ChooseExhausted(market, s, ds, target, None);
    }
    assert s[0] in s;
  }

  lemma LaterKeyLaterTime(a: Record, b: Record)
    requires !TupleLess(OrderKey(b), OrderKey(a))
    ensures a.receive <= b.receive
  {
    assert OrderKey(a)[0] == [a.receive] && OrderKey(b)[0] == [b.receive];
  }

  /** Order-key order is receive order, so snapshots past the interval come last. */
  lemma OutsideComesLast(records: seq<Record>, i: nat, j: nat)
    requires i < j < |Ordered(IsSnapshot, records)|
    ensures Ordered(IsSnapshot, records)[i].receive <= Ordered(IsSnapshot, records)[j].receive
  {
    TupleIsStrictTotal();
    SortSorts(Filter(IsSnapshot, records), OrderKey, TupleLess);
    var s := Ordered(IsSnapshot, records);
    LaterKeyLaterTime(s[i], s[j]);
  }

  /** The position that decides: the first snapshot not passed over, or the end. */
  lemma {:induction false} DecidingSnapshot(market: Market, s: seq<Record>, ds: seq<Depth>, target: nat, from: nat) returns (i: nat)
    requires AllSnapshots(s) && from <= |s|
    requires forall j :: 0 <= j < from ==> s[j] in s && PassedOver(market, s[j], ds, target)
    ensures i <= |s|
    ensures forall j :: 0 <= j < i ==> s[j] in s && PassedOver(market, s[j], ds, target)
    ensures i < |s| ==> s[i] in s && !PassedOver(market, s[i], ds, target)
    decreases |s| - from
  {
    hide PassedOver;
    if from == |s| {
      return from;
    }
    assert s[from] in s;
    if !PassedOver(market, s[from], ds, target) {
      return from;
    }
    i := DecidingSnapshot(market, s, ds, target, from + 1);
  }

  lemma AttemptOutside(market: Market, s: Record, ds: seq<Depth>, target: nat)
    requires s.payload.SnapshotPayload? && AllParsed(ds)
    ensures Verdict(market, s, ds, target) == Err(Ineligible(OutsideInterval)) <==> s.receive >= SOURCE_END
    ensures s.receive >= SOURCE_END ==> PassedOver(market, s, ds, target)
  {
    hide Sync;
    FailuresClassified(market, s.payload.lastUpdateId, ds, target);
  }

  /** "Outside the interval" is reported exactly when every snapshot lies outside it. */
  lemma OutsideReportedIffAllOutside(market: Market, records: seq<Record>, target: nat)
    requires Usable(records)
    ensures SelectOperations(market, records, target) == Err(Ineligible(OutsideInterval)) <==>
            forall j :: 0 <= j < |Ordered(IsSnapshot, records)| ==> Ordered(IsSnapshot, records)[j].receive >= SOURCE_END
  {
    hide Ordered, Depths, Attempt, SelectOperations, Verdict, PassedOver;
    var s, ds := Ordered(IsSnapshot, records), Depths(Ordered(IsDepth, records));
    var i := DecidingSnapshot(market, s, ds, target, 0);
    EarliestUsableDecides(market, records, target, i);
    forall j: nat | j < |s| ensures s[j] in s && s[0].receive <= s[j].receive {
      if j > 0 {
        OutsideComesLast(records, 0, j);
      }
    }
    AttemptOutside(market, s[0], ds, target);
    if i < |s| {
      AttemptOutside(market, s[i], ds, target);
    }
  }

  // ---------------------------------------------------------- input order is irrelevant

  lemma {:induction false} FilterCounts(p: Record -> bool, rs: seq<Record>, x: Record)
    ensures multiset(Filter(p, rs))[x] == if p(x) then multiset(rs)[x] else 0
  {
    if rs != [] {
      FilterCounts(p, rs[1..], x);
      assert rs == [rs[0]] + rs[1..];
      assert multiset(rs) == multiset{rs[0]} + multiset(rs[1..]);
    }
  }

  lemma {:induction false} FilterKeepsDistinct(p: Record -> bool, rs: seq<Record>)
    requires DistinctKeys(rs, OrderKey)
    ensures DistinctKeys(Filter(p, rs), OrderKey)
    ensures forall x :: x in Filter(p, rs) ==> x in rs
  {
    hide OrderKey;
    if rs != [] {
      var tail := rs[1..];
      assert forall k :: 0 <= k < |tail| ==> tail[k] == rs[k + 1];
      FilterKeepsDistinct(p, tail);
      if p(rs[0]) {
        var f := Filter(p, tail);
        forall k | 0 <= k < |f| ensures OrderKey(rs[0]) != OrderKey(f[k]) {
          assert f[k] in f;
          var m :| 0 <= m < |tail| && tail[m] == f[k];
          assert rs[m + 1] == f[k];
        }
        assert Filter(p, rs) == [rs[0]] + f;
      } else {
        assert Filter(p, rs) == Filter(p, tail);
      }
    }
  }

  lemma OrderedIgnoresOrder(p: Record -> bool, a: seq<Record>, b: seq<Record>)
    requires multiset(a) == multiset(b) && DistinctKeys(a, OrderKey)
    ensures Ordered(p, a) == Ordered(p, b)
  {
    forall x ensures multiset(Filter(p, a))[x] == multiset(Filter(p, b))[x] {
      FilterCounts(p, a, x);
      FilterCounts(p, b, x);
    }
    assert multiset(Filter(p, a)) == multiset(Filter(p, b));
    FilterKeepsDistinct(p, a);
    TupleIsStrictTotal();
    SortIgnoresOrder(Filter(p, a), Filter(p, b), OrderKey, TupleLess);
  }

  /** With distinct order keys the selection does not depend on the order of the records. */
  lemma SelectionIgnoresOrder(market: Market, a: seq<Record>, b: seq<Record>, target: nat)
    requires multiset(a) == multiset(b) && DistinctKeys(a, OrderKey)
    ensures SelectOperations(market, a, target) == SelectOperations(market, b, target)
  {
    hide Ordered, Choose;
    OrderedIgnoresOrder(IsSnapshot, a, b);
    OrderedIgnoresOrder(IsDepth, a, b);
  }
}
