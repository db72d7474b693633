/**
 Where a selection comes from: which records it uses, and which it may pass over.
 */
module SelectionLaws {
  import opened Basics
  import opened Sorting
  import opened Synchronize
  import opened BaselineSelection

  /** A REST snapshot, or a depth update, recorded inside the formal source interval. */
  predicate InInterval(r: Record, stream: Stream) {
    r.stream == stream && 1_785_942_570_200_566_000 <= r.receive < 1_786_028_970_200_566_000
  }

  lemma {:induction false} FilterHolds(p: Record -> bool, rs: seq<Record>)
    ensures forall r :: r in Filter(p, rs) <==> r in rs && p(r)
    ensures forall r :: multiset(Filter(p, rs))[r] == if p(r) then multiset(rs)[r] else 0
  {
    if rs != [] {
      FilterHolds(p, rs[1..]);
      assert rs == [rs[0]] + rs[1..];
    }
  }

  /** Ordering keeps every qualifying record as often as it occurs, and nothing else. */
  lemma OrderedHolds(p: Record -> bool, rs: seq<Record>)
    ensures forall r :: r in Ordered(p, rs) <==> r in rs && p(r)
    ensures forall r :: multiset(Ordered(p, rs))[r] == if p(r) then multiset(rs)[r] else 0
  {
    hide Filter, SortBy;
    SortPermutes(Filter(p, rs), OrderKey, TupleLess);
    FilterHolds(p, rs);
  }

  /** The first component in which two keys differ decides, or being a proper prefix does. */
  predicate SmallerKeyAt(a: seq<seq<int>>, b: seq<seq<int>>, k: nat) {
    k <= |a| && k < |b| && a[..k] == b[..k] && (k == |a| || LexLess(a[k], b[k]))
  }

  /** What the order of keys means; their first component is the receive time. */
  lemma {:induction false} KeyOrderMeans(a: seq<seq<int>>, b: seq<seq<int>>)
    ensures TupleLess(a, b) <==> exists k :: SmallerKeyAt(a, b, k)
    decreases |a|
  {
    hide LexLess;
    if b == [] {
      assert forall k: nat :: !SmallerKeyAt(a, b, k);
    } else if a == [] {
      assert SmallerKeyAt(a, b, 0);
    } else {
      KeyOrderMeans(a[1..], b[1..]);
      if LexLess(a[0], b[0]) {
        assert SmallerKeyAt(a, b, 0);
      }
      if k: nat :| SmallerKeyAt(a[1..], b[1..], k) && a[0] == b[0] {
        SmallerKeyLonger(a, b, k);
      }
      if k: nat :| SmallerKeyAt(a, b, k) {
        SmallerKeyTail(a, b, k);
      }
    }
  }

  lemma SmallerKeyLonger(a: seq<seq<int>>, b: seq<seq<int>>, k: nat)
    requires a != [] && b != [] && a[0] == b[0] && SmallerKeyAt(a[1..], b[1..], k)
    ensures SmallerKeyAt(a, b, k + 1)
  {
    hide LexLess;
    assert a[..k + 1] == [a[0]] + a[1..][..k] && b[..k + 1] == [b[0]] + b[1..][..k];
    if k < |a| - 1 {
      assert a[1..][k] == a[k + 1] && b[1..][k] == b[k + 1];
    }
  }

  lemma SmallerKeyTail(a: seq<seq<int>>, b: seq<seq<int>>, k: nat)
    requires a != [] && b != [] && SmallerKeyAt(a, b, k)
    ensures LexLess(a[0], b[0]) || (a[0] == b[0] && k > 0 && SmallerKeyAt(a[1..], b[1..], k - 1))
  {
    hide LexLess;
    if k > 0 {
      assert a[..k][0] == b[..k][0];
      assert a[1..][..k - 1] == a[..k][1..] && b[1..][..k - 1] == b[..k][1..];
    }
  }

  lemma KeyStartsWithTime(r: Record)
    ensures OrderKey(r) != [] && OrderKey(r)[0] == [r.receive] && OrderKey(r)[1..] == r.tie
  {
  }

  /** A record with a smaller key stands earlier. */
  lemma EarlierStandsFirst(rs: seq<Record>, i: nat, j: nat)
    requires i < |Ordered(IsSnapshot, rs)| && j < |Ordered(IsSnapshot, rs)|
    requires TupleLess(OrderKey(Ordered(IsSnapshot, rs)[j]), OrderKey(Ordered(IsSnapshot, rs)[i]))
    ensures j < i
  {
    hide Filter, SortBy, TupleLess, OrderKey;
    TupleIsStrictTotal();
    SortSorts(Filter(IsSnapshot, rs), OrderKey, TupleLess);
  }

  /** What a chosen baseline is: the snapshot at the deciding position, which synchronizes. */
  lemma ChoiceAt(market: Market, records: seq<Record>, target: nat) returns (i: nat)
    requires SelectOperations(market, records, target).Ok?
    ensures var choice := SelectOperations(market, records, target).value;
            var s := Ordered(IsSnapshot, records);
            && i < |s| && choice.snapshot == s[i] && AllSnapshots(s) && AllDepths(Ordered(IsDepth, records))
            && s[i] in s && choice.snapshot.receive < SOURCE_END
            && var ds := Depths(Ordered(IsDepth, records));
            && Sync(market, s[i].payload.lastUpdateId, ds, target) == Ok(choice.selected)
            && (forall j :: 0 <= j < i ==> s[j] in s && PassedOver(market, s[j], ds, target))
  {
    hide Ordered, Depths, Sync, Choose;
    var s, ds := Ordered(IsSnapshot, records), Depths(Ordered(IsDepth, records));
    assert Usable(records);
    hide SelectOperations;
    i := DecidingSnapshot(market, s, ds, target, 0);
    EarliestUsableDecides(market, records, target, i);
  }

  lemma {:induction false} ChosenAreGiven(legs: seq<Leg>, depths: seq<Depth>)
    requires Flatten(legs) <= depths
    ensures forall d :: d in Chosen(legs) ==> d in depths
    decreases |legs|
  {
    if legs != [] {
      var k := |legs[0].skipped|;
      assert Flatten(legs)[k] == legs[0].chosen && depths[k] == legs[0].chosen;
      var rest := depths[k + 1..];
      assert Flatten(legs)[k + 1..] == Flatten(legs[1..]);
      ChosenAreGiven(legs[1..], rest);
      assert forall d :: d in rest ==> d in depths;
    }
  }

  /** Synchronization selects among the updates it was given. */
  lemma SelectedAreGiven(market: Market, snapshot: u64, depths: seq<Depth>, target: nat)
    requires AllParsed(depths) && Sync(market, snapshot, depths, target).Ok?
    ensures forall d :: d in Sync(market, snapshot, depths, target).value ==> d in depths
  {
    hide Sync, Legs, Flatten, Chosen;
    var legs := SyncExplained(market, snapshot, depths, target);
    ChosenAreGiven(legs, depths);
  }

  /** Some record of the interval carries this update. */
  predicate Carried(records: seq<Record>, d: Depth) {
    exists r :: r in records && InInterval(r, DiffDepth) && r.payload.DepthPayload? && r.payload.depth == d
  }

  /**
   A selection uses the recording and nothing else: its snapshot is a REST snapshot of the interval,
   every selected update is a depth update of the interval, the selection is what synchronizing the
   snapshot with all the updates of the interval gives, and every snapshot of the interval with a
   smaller key was ineligible.
   */
  lemma SelectionComesFromTheInterval(market: Market, records: seq<Record>, target: nat)
    requires SelectOperations(market, records, target).Ok?
    ensures var Choice(snapshot, sel) := SelectOperations(market, records, target).value;
            var rs := Ordered(IsDepth, records);
            && snapshot in records && InInterval(snapshot, DepthSnapshot) && snapshot.payload.SnapshotPayload?
            && AllDepths(rs)
            && (forall r :: multiset(rs)[r] == if InInterval(r, DiffDepth) then multiset(records)[r] else 0)
            && Sync(market, snapshot.payload.lastUpdateId, Depths(rs), target) == Ok(sel)
            && (forall d :: d in sel ==> Carried(records, d))
            && (forall r :: r in records && InInterval(r, DepthSnapshot) && TupleLess(OrderKey(r), OrderKey(snapshot)) ==>
                  && r.payload.SnapshotPayload?
                  && Sync(market, r.payload.lastUpdateId, Depths(rs), target).Err?
                  && Sync(market, r.payload.lastUpdateId, Depths(rs), target).error.Ineligible?)
  {
    hide SelectOperations, Ordered, Depths, Sync, TupleLess, OrderKey;
    var i := ChoiceAt(market, records, target);
    var s, rs := Ordered(IsSnapshot, records), Ordered(IsDepth, records);
    OrderedHolds(IsSnapshot, records);
    OrderedHolds(IsDepth, records);
    var snapshot, sel := s[i], SelectOperations(market, records, target).value.selected;
    SelectedAreGiven(market, snapshot.payload.lastUpdateId, Depths(rs), target);
    forall d | d in sel ensures Carried(records, d) {
      CarriedByOrdered(records, d);
    }
    forall r | r in records && InInterval(r, DepthSnapshot) && TupleLess(OrderKey(r), OrderKey(snapshot))
      ensures r.payload.SnapshotPayload? && Sync(market, r.payload.lastUpdateId, Depths(rs), target).Err?
      ensures Sync(market, r.payload.lastUpdateId, Depths(rs), target).error.Ineligible?
    {
      assert r in s;
      var j :| 0 <= j < |s| && s[j] == r;
      EarlierStandsFirst(records, i, j);
      assert PassedOver(market, s[j], Depths(rs), target);
    }
  }

  lemma CarriedByOrdered(records: seq<Record>, d: Depth)
    requires AllDepths(Ordered(IsDepth, records)) && d in Depths(Ordered(IsDepth, records))
    ensures Carried(records, d)
  {
    hide Ordered;
    OrderedHolds(IsDepth, records);
    var rs := Ordered(IsDepth, records);
    var k :| 0 <= k < |Depths(rs)| && Depths(rs)[k] == d;
    assert rs[k] in rs;
  }

  /** A chosen baseline is one of the records and synchronizes the ordered updates. */
  lemma ChoiceSynchronizes(market: Market, records: seq<Record>, target: nat)
    requires SelectOperations(market, records, target).Ok?
    ensures var choice := SelectOperations(market, records, target).value;
            && choice.snapshot in records && choice.snapshot.payload.SnapshotPayload?
            && AllDepths(Ordered(IsDepth, records))
            && Sync(market, choice.snapshot.payload.lastUpdateId, Depths(Ordered(IsDepth, records)), target) == Ok(choice.selected)
  {
    hide SelectOperations, Ordered, Depths, Sync;
    var i := ChoiceAt(market, records, target);
    OrderedHolds(IsSnapshot, records);
  }
}
