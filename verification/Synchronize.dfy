/**
 Bootstrapping a depth stream from one snapshot: skipping what the snapshot already
 covers, proving the bridge, and following the live sequence.
 */
module Synchronize {
  import opened Basics

  datatype Market = Spot | UsdM

  /** One price level as recorded, still text. */
  datatype TextLevel = TextLevel(price: string, quantity: string)

  /** A parsed depth update: ids `U`, `u`, and `pu` for USD-M. */
  datatype Depth = Depth(first: u64, last: u64, previous: Option<u64>, bids: seq<TextLevel>, asks: seq<TextLevel>)

  /** What parsing guarantees about an update. */
  predicate Parsed(d: Depth) {
    d.first <= d.last
  }

  /** Errors that let the caller try the next snapshot, and errors that do not. */
  datatype Failure = Ineligible(why: Reason) | Broken(why: Reason)

  datatype Reason =
    | ForwardGap | NoBridge | OutsideInterval
    | SuccessorOverflow | BridgeUnproven | Discontinuity | SourceEnded
    | MalformedSource | NoBaseline | NoDepths

  // ----------------------------------------------------------------- the walk

  datatype Cursor = Cursor(local: u64, bridged: bool, live: nat, selected: seq<Depth>)

  function Start(snapshot: u64): Cursor {
    Cursor(snapshot, false, 0, [])
  }

  /** One loop iteration before the bridge. */
  function BridgeStep(market: Market, c: Cursor, d: Depth): Result<Cursor, Failure> {
    var bridge := Ok(Cursor(d.last, true, c.live, c.selected + [d]));
    if market.Spot? then
      if d.last < c.local || d.last == c.local then Ok(c)
      else if c.local == U64_MAX then Err(Broken(SuccessorOverflow))
      else if d.first > c.local + 1 then Err(Ineligible(ForwardGap))
      else if !(d.first <= c.local + 1 <= d.last) then Err(Broken(BridgeUnproven))
      else bridge
    else
      if d.last < c.local then Ok(c)
      else if d.first > c.local then Err(Ineligible(ForwardGap))
      else if !(d.first <= c.local <= d.last) then Err(Broken(BridgeUnproven))
      else bridge
  }

  /** One loop iteration after the bridge. */
  function LiveStep(market: Market, c: Cursor, d: Depth): Result<Cursor, Failure> {
    if d.last < c.local || d.last == c.local then Ok(c)
    else if market.Spot? && c.local == U64_MAX then Err(Broken(SuccessorOverflow))
    else if market.Spot? && !(d.first <= c.local + 1 <= d.last) then Err(Broken(Discontinuity))
    else if market.UsdM? && d.previous != Some(c.local) then Err(Broken(Discontinuity))
    else Ok(Cursor(d.last, true, c.live + 1, c.selected + [d]))
  }

  function Step(market: Market, c: Cursor, d: Depth): Result<Cursor, Failure> {
    if c.bridged then LiveStep(market, c, d) else BridgeStep(market, c, d)
  }

  /** The loop leaves early only right after it counted the last live update. */
  predicate Stops(c: Cursor, c': Cursor, target: nat) {
    c'.live > c.live && c'.live == target
  }

  function Walk(market: Market, c: Cursor, depths: seq<Depth>, target: nat): Result<Cursor, Failure>
    decreases |depths|
  {
    if depths == [] then Ok(c)
    else
      match Step(market, c, depths[0])
      case Err(f) => Err(f)
      case Ok(c') => if Stops(c, c', target) then Ok(c') else Walk(market, c', depths[1..], target)
  }

  function Finish(c: Cursor, target: nat): Result<seq<Depth>, Failure> {
    if !c.bridged then Err(Ineligible(NoBridge))
    else if c.live != target then Err(Broken(SourceEnded))
    else Ok(c.selected)
  }

  function Sync(market: Market, snapshot: u64, depths: seq<Depth>, target: nat): Result<seq<Depth>, Failure> {
    match Walk(market, Start(snapshot), depths, target)
    case Err(f) => Err(f)
    case Ok(c) => Finish(c, target)
  }

  /** `_synchronize_from_snapshot`, as the loop it is. */
  method SynchronizeFromSnapshot(market: Market, snapshot: u64, depths: seq<Depth>, target: nat)
    returns (r: Result<seq<Depth>, Failure>)
    ensures r == Sync(market, snapshot, depths, target)
  {
    hide BridgeStep, LiveStep;
    var local: u64 := snapshot;
    var selected: seq<Depth> := [];
    var bridgeFound := false;
    var liveCount := 0;
    var i := 0;
    ghost var whole := Walk(market, Start(snapshot), depths, target);
    var stopped := false;
    while i < |depths| && !stopped
      invariant i <= |depths|
      invariant !stopped ==> whole == Walk(market, Cursor(local, bridgeFound, liveCount, selected), depths[i..], target)
      invariant stopped ==> whole == Ok(Cursor(local, bridgeFound, liveCount, selected))
      decreases |depths| - i, !stopped
    {
      var c := Cursor(local, bridgeFound, liveCount, selected);
      assert depths[i..][0] == depths[i] && depths[i..][1..] == depths[i + 1..];
      var next := Step(market, c, depths[i]);
      if next.Err? {
        return Err(next.error);
      }
      local, bridgeFound, selected := next.value.local, next.value.bridged, next.value.selected;
      stopped := next.value.live > liveCount && next.value.live == target;
      liveCount := next.value.live;
      i := i + 1;
    }
    assert !stopped ==> depths[i..] == [];
    return Finish(Cursor(local, bridgeFound, liveCount, selected), target);
  }

  // -------------------------------------------------- what a synchronization is

  /** The update may be ignored once `local` is reached. */
  predicate Skippable(market: Market, bridged: bool, local: u64, d: Depth) {
    d.last < local || (d.last == local && (market.Spot? || bridged))
  }

  /** The update extends what is reached: the bridge rule, or the live rule. */
  predicate Extends(market: Market, bridged: bool, local: u64, d: Depth) {
    match market
    case Spot => d.first <= local + 1 <= d.last
    case UsdM =>
      if bridged then d.last > local && d.previous == Some(local)
      else d.first <= local <= d.last
  }

  /** A run of skippable updates and the one that was then selected. */
  datatype Leg = Leg(skipped: seq<Depth>, chosen: Depth)

  predicate AllSkippable(market: Market, bridged: bool, local: u64, ds: seq<Depth>) {
    forall i :: 0 <= i < |ds| ==> Skippable(market, bridged, local, ds[i])
  }

  predicate Legs(market: Market, bridged: bool, local: u64, legs: seq<Leg>)
    decreases |legs|
  {
    legs == [] ||
    (&& AllSkippable(market, bridged, local, legs[0].skipped)
     && Extends(market, bridged, local, legs[0].chosen)
     && Legs(market, true, legs[0].chosen.last, legs[1..]))
  }

  function Flatten(legs: seq<Leg>): seq<Depth> {
    if legs == [] then [] else legs[0].skipped + [legs[0].chosen] + Flatten(legs[1..])
  }

  function Chosen(legs: seq<Leg>): (ds: seq<Depth>)
    ensures |ds| == |legs|
    ensures forall i :: 0 <= i < |ds| ==> ds[i] == legs[i].chosen
  {
    if legs == [] then [] else [legs[0].chosen] + Chosen(legs[1..])
  }

  function Reached(local: u64, legs: seq<Leg>): u64 {
    if legs == [] then local else legs[|legs| - 1].chosen.last
  }

  predicate AllParsed(ds: seq<Depth>) {
    forall i :: 0 <= i < |ds| ==> Parsed(ds[i])
  }

  /**
   `legs` account for the stream up to the last selected update: 1 + `target` of them, and with
   no live update wanted nothing that advances may follow the bridge.
   */
  ghost predicate Explains(market: Market, snapshot: u64, depths: seq<Depth>, target: nat, legs: seq<Leg>) {
    && |legs| == 1 + target
    && Legs(market, false, snapshot, legs)
    && Flatten(legs) <= depths
    && (target == 0 ==> AllSkippable(market, true, Reached(snapshot, legs), depths[|Flatten(legs)|..]))
  }

  // ------------------------------------------------------------- one step at a time

  /** On parsed updates a step skips, extends, or fails in exactly one of two ways. */
  lemma StepCases(market: Market, c: Cursor, d: Depth)
    requires Parsed(d)
    ensures !(Skippable(market, c.bridged, c.local, d) && Extends(market, c.bridged, c.local, d))
    ensures Step(market, c, d) ==
            if Skippable(market, c.bridged, c.local, d) then Ok(c)
            else if Extends(market, c.bridged, c.local, d) then
              Ok(Cursor(d.last, true, c.live + (if c.bridged then 1 else 0), c.selected + [d]))
            else if c.bridged then Err(Broken(Discontinuity))
            else Err(Ineligible(ForwardGap))
  {
  }

  /** Live updates that a run of legs adds: the bridge is not counted. */
  function Gained(bridged: bool, legs: seq<Leg>): nat {
    if bridged || legs == [] then |legs| else |legs| - 1
  }

  function AfterLegs(c: Cursor, legs: seq<Leg>): Cursor {
    Cursor(Reached(c.local, legs), c.bridged || legs != [], c.live + Gained(c.bridged, legs), c.selected + Chosen(legs))
  }

  lemma ParsedParts(a: seq<Depth>, b: seq<Depth>)
    ensures AllParsed(a + b) <==> AllParsed(a) && AllParsed(b)
  {
    hide Parsed;
    assert forall i :: 0 <= i < |a| ==> (a + b)[i] == a[i];
    assert forall i :: 0 <= i < |b| ==> (a + b)[|a| + i] == b[i];
  }

  lemma {:induction false} SkipRun(market: Market, c: Cursor, ds: seq<Depth>, more: seq<Depth>, target: nat)
    requires AllSkippable(market, c.bridged, c.local, ds) && AllParsed(ds)
    ensures Walk(market, c, ds + more, target) == Walk(market, c, more, target)
    decreases |ds|
  {
    hide Step, Extends;
    if ds == [] {
      assert ds + more == more;
    } else {
      StepCases(market, c, ds[0]);
      assert (ds + more)[1..] == ds[1..] + more;
      SkipRun(market, c, ds[1..], more, target);
    }
  }

  /** The cursor after selecting `d`. */
  function Select(c: Cursor, d: Depth): Cursor {
    Cursor(d.last, true, c.live + (if c.bridged then 1 else 0), c.selected + [d])
  }

  lemma WalkOneLeg(market: Market, c: Cursor, leg: Leg, more: seq<Depth>, target: nat)
    requires AllSkippable(market, c.bridged, c.local, leg.skipped) && AllParsed(leg.skipped)
    requires Extends(market, c.bridged, c.local, leg.chosen) && Parsed(leg.chosen)
    ensures Walk(market, c, leg.skipped + [leg.chosen] + more, target) ==
            if Stops(c, Select(c, leg.chosen), target) then Ok(Select(c, leg.chosen))
            else Walk(market, Select(c, leg.chosen), more, target)
  {
    hide Step, Extends, Skippable, AllSkippable;
    var tail := [leg.chosen] + more;
    assert leg.skipped + [leg.chosen] + more == leg.skipped + tail;
    SkipRun(market, c, leg.skipped, tail, target);
    StepCases(market, c, leg.chosen);
    assert tail[1..] == more;
  }

  lemma AfterFirstLeg(c: Cursor, leg: Leg, legs: seq<Leg>)
    ensures AfterLegs(c, [leg] + legs) == AfterLegs(Select(c, leg.chosen), legs)
    ensures Flatten([leg] + legs) == leg.skipped + [leg.chosen] + Flatten(legs)
  {
    var all := [leg] + legs;
    assert all[1..] == legs;
    assert c.selected + Chosen(all) == (c.selected + [leg.chosen]) + Chosen(legs);
  }

  /** A stream made of legs is walked leg by leg, stopping only after the last live update. */
  lemma {:induction false} WalkLegs(market: Market, c: Cursor, legs: seq<Leg>, rest: seq<Depth>, target: nat)
    requires Legs(market, c.bridged, c.local, legs) && AllParsed(Flatten(legs))
    requires c.live + Gained(c.bridged, legs) == target
    ensures Walk(market, c, Flatten(legs) + rest, target) ==
            if Gained(c.bridged, legs) > 0 then Ok(AfterLegs(c, legs))
            else Walk(market, AfterLegs(c, legs), rest, target)
    decreases |legs|
  {
    if legs == [] {
      assert Flatten(legs) + rest == rest;
      assert c.selected + [] == c.selected;
    } else {
      hide Walk, Extends, AllSkippable, AllParsed, AfterLegs, Flatten;
      var leg, more := legs[0], legs[1..];
      assert legs == [leg] + more;
      AfterFirstLeg(c, leg, more);
      LegParsed(leg, more);
      var c1 := Select(c, leg.chosen);
      assert leg.skipped + [leg.chosen] + Flatten(more) + rest == leg.skipped + [leg.chosen] + (Flatten(more) + rest);
      WalkOneLeg(market, c, leg, Flatten(more) + rest, target);
      WalkLegs(market, c1, more, rest, target);
      if more == [] {
        NoLegs(c1);
      }
    }
  }

  lemma NoLegs(c: Cursor)
    ensures AfterLegs(c, []) == c
  {
    assert c.selected + [] == c.selected;
  }

  lemma LegParsed(leg: Leg, more: seq<Leg>)
    requires AllParsed(Flatten([leg] + more))
    ensures AllParsed(leg.skipped) && Parsed(leg.chosen) && AllParsed(Flatten(more))
  {
    hide Parsed, AllParsed;
    assert ([leg] + more)[1..] == more;
    ParsedParts(leg.skipped + [leg.chosen], Flatten(more));
    ParsedParts(leg.skipped, [leg.chosen]);
    SingleParsed(leg.chosen);
  }

  lemma SingleParsed(d: Depth)
    ensures AllParsed([d]) <==> Parsed(d)
  {
    hide Parsed;
    assert [d][0] == d;
  }

  /** Putting one more update in front of a leg decomposition. */
  lemma PrependSkipped(market: Market, bridged: bool, local: u64, d: Depth, legs: seq<Leg>) returns (legs': seq<Leg>)
    requires legs != [] && Legs(market, bridged, local, legs) && Skippable(market, bridged, local, d)
    ensures Legs(market, bridged, local, legs')
    ensures Flatten(legs') == [d] + Flatten(legs) && Chosen(legs') == Chosen(legs) && |legs'| == |legs|
    ensures legs'[|legs| - 1].chosen == legs[|legs| - 1].chosen
  {
    hide Extends, Skippable;
    var first := Leg([d] + legs[0].skipped, legs[0].chosen);
    legs' := [first] + legs[1..];
    assert legs'[1..] == legs[1..];
    assert Flatten(legs') == [d] + legs[0].skipped + [legs[0].chosen] + Flatten(legs[1..]);
    assert Flatten(legs) == legs[0].skipped + [legs[0].chosen] + Flatten(legs[1..]);
  }

  /** The walk from `c` over `depths` ended at `c'`, and this is why. */
  ghost predicate Accounts(market: Market, c: Cursor, depths: seq<Depth>, target: nat, c': Cursor, legs: seq<Leg>, rest: seq<Depth>) {
    && depths == Flatten(legs) + rest
    && Legs(market, c.bridged, c.local, legs)
    && c' == AfterLegs(c, legs)
    && ((legs != [] && c'.live > c.live && c'.live == target) || AllSkippable(market, c'.bridged, c'.local, rest))
  }

  lemma AccountSkipped(market: Market, c: Cursor, d: Depth, tail: seq<Depth>, target: nat, c': Cursor, legs: seq<Leg>, rest: seq<Depth>)
    returns (legs': seq<Leg>, rest': seq<Depth>)
    requires Skippable(market, c.bridged, c.local, d) && Accounts(market, c, tail, target, c', legs, rest)
    ensures Accounts(market, c, [d] + tail, target, c', legs', rest')
  {
    hide Skippable;
    if legs == [] {
      legs', rest' := [], [d] + tail;
      NoLegs(c);
      assert tail == rest && [] + rest' == rest';
    } else {
      hide Legs, Flatten, Chosen, AllSkippable;
      legs' := PrependSkipped(market, c.bridged, c.local, d, legs);
      rest' := rest;
      assert [d] + tail == [d] + Flatten(legs) + rest;
    }
  }

  lemma AccountChosen(market: Market, c: Cursor, d: Depth, tail: seq<Depth>, target: nat, c': Cursor, legs: seq<Leg>, rest: seq<Depth>)
    requires Extends(market, c.bridged, c.local, d) && Accounts(market, Select(c, d), tail, target, c', legs, rest)
    ensures Accounts(market, c, [d] + tail, target, c', [Leg([], d)] + legs, rest)
  {
    hide Extends, AllSkippable;
    AfterFirstLeg(c, Leg([], d), legs);
    assert ([Leg([], d)] + legs)[1..] == legs;
    assert AllSkippable(market, c.bridged, c.local, []) by {
      NothingToSkip(market, c.bridged, c.local);
    }
    assert [d] + tail == [] + [d] + Flatten(legs) + rest;
  }

  lemma NothingToSkip(market: Market, bridged: bool, local: u64)
    ensures AllSkippable(market, bridged, local, [])
  {
  }

  /** Every completed walk is explained by legs followed by what it did not need or could skip. */
  lemma {:induction false} WalkExplained(market: Market, c: Cursor, depths: seq<Depth>, target: nat)
    returns (legs: seq<Leg>, rest: seq<Depth>)
    requires AllParsed(depths) && Walk(market, c, depths, target).Ok?
    ensures Accounts(market, c, depths, target, Walk(market, c, depths, target).value, legs, rest)
    decreases |depths|
  {
    if depths == [] {
      legs, rest := [], [];
      NoLegs(c);
    } else {
      hide Step, Extends, Skippable, Legs, Flatten, AfterLegs;
      var d, tail := depths[0], depths[1..];
      assert depths == [d] + tail;
      StepCases(market, c, d);
      var c' := Walk(market, c, depths, target).value;
      if Skippable(market, c.bridged, c.local, d) {
        legs, rest := WalkExplained(market, c, tail, target);
        legs, rest := AccountSkipped(market, c, d, tail, target, c', legs, rest);
      } else if Stops(c, Select(c, d), target) {
        legs, rest := [Leg([], d)], tail;
        StopAccounts(market, c, d, tail, target);
      } else {
        legs, rest := WalkExplained(market, Select(c, d), tail, target);
        AccountChosen(market, c, d, tail, target, c', legs, rest);
        legs := [Leg([], d)] + legs;
      }
    }
  }

  lemma StopAccounts(market: Market, c: Cursor, d: Depth, tail: seq<Depth>, target: nat)
    requires Extends(market, c.bridged, c.local, d) && Stops(c, Select(c, d), target)
    ensures Accounts(market, c, [d] + tail, target, Select(c, d), [Leg([], d)], tail)
  {
    hide Extends;
    assert [Leg([], d)] + [] == [Leg([], d)];
    AfterFirstLeg(c, Leg([], d), []);
    NoLegs(Select(c, d));
    var legs := [Leg([], d)];
    assert legs[1..] == [] && legs[0].skipped == [];
    assert Legs(market, true, d.last, legs[1..]);
    assert Flatten(legs) == [d];
    assert Legs(market, c.bridged, c.local, legs);
    assert legs == [Leg([], d)] + [];
    assert AfterLegs(c, legs) == Select(c, d);
  }

  // ---------------------------------------------------------------------- theorems

  /** Success has an explanation ... */
  lemma SyncExplained(market: Market, snapshot: u64, depths: seq<Depth>, target: nat) returns (legs: seq<Leg>)
    requires AllParsed(depths) && Sync(market, snapshot, depths, target).Ok?
    ensures Explains(market, snapshot, depths, target, legs)
    ensures Sync(market, snapshot, depths, target) == Ok(Chosen(legs))
  {
    hide Walk, Legs, Flatten, AllSkippable;
    var rest;
    legs, rest := WalkExplained(market, Start(snapshot), depths, target);
    assert Flatten(legs) <= depths;
    assert depths[|Flatten(legs)|..] == rest;
    assert [] + Chosen(legs) == Chosen(legs);
  }

  /** ... and every explanation is a success with exactly the explained selection. */
  lemma ExplainedSyncs(market: Market, snapshot: u64, depths: seq<Depth>, target: nat, legs: seq<Leg>)
    requires AllParsed(depths) && Explains(market, snapshot, depths, target, legs)
    ensures Sync(market, snapshot, depths, target) == Ok(Chosen(legs))
  {
    hide Step, Legs, Flatten, Skippable;
    var rest := depths[|Flatten(legs)|..];
    assert depths == Flatten(legs) + rest;
    ParsedParts(Flatten(legs), rest);
    var c := Start(snapshot);
    WalkLegs(market, c, legs, rest, target);
    assert [] + Chosen(legs) == Chosen(legs);
    if target == 0 {
      SkipRun(market, AfterLegs(c, legs), rest, [], target);
      assert rest + [] == rest;
    }
  }

  /** `d` follows `previous` in a live stream. */
  predicate Follows(market: Market, previous: Depth, d: Depth) {
    && previous.last < d.last
    && (market.UsdM? ==> d.previous == Some(previous.last))
    && (market.Spot? ==> d.first <= previous.last + 1)
  }

  /** Final ids strictly increase, Spot ranges leave no hole, USD-M updates name their predecessor. */
  predicate Chained(market: Market, sel: seq<Depth>) {
    forall i :: 0 < i < |sel| ==> Follows(market, sel[i - 1], sel[i])
  }

  predicate Covers(sel: seq<Depth>, id: nat) {
    exists i :: 0 <= i < |sel| && sel[i].first <= id <= sel[i].last
  }

  lemma ChainFirst(market: Market, d: Depth, tail: seq<Depth>)
    requires Chained(market, tail) && (tail != [] ==> Follows(market, d, tail[0]))
    ensures Chained(market, [d] + tail)
  {
    hide Follows;
    var all := [d] + tail;
    forall i | 0 < i < |all| ensures Follows(market, all[i - 1], all[i]) {
      if i > 1 {
        assert all[i] == tail[i - 1] && all[i - 1] == tail[i - 2];
        assert Follows(market, tail[i - 1 - 1], tail[i - 1]);
      }
    }
  }

  lemma ExtendsFollows(market: Market, previous: Depth, d: Depth)
    requires Extends(market, true, previous.last, d)
    ensures Follows(market, previous, d)
  {
  }

  lemma {:induction false} LegsChained(market: Market, bridged: bool, local: u64, legs: seq<Leg>)
    requires Legs(market, bridged, local, legs)
    ensures Chained(market, Chosen(legs))
    ensures legs != [] ==> Extends(market, bridged, local, legs[0].chosen)
    decreases |legs|
  {
    hide AllSkippable, Extends, Follows;
    if legs != [] {
      var d, more := legs[0].chosen, legs[1..];
      LegsChained(market, true, d.last, more);
      if more != [] {
        ExtendsFollows(market, d, more[0].chosen);
      }
      ChainFirst(market, d, Chosen(more));
    }
  }

  lemma {:induction false} ChainCovers(sel: seq<Depth>, id: nat)
    requires sel != [] && Chained(Spot, sel)
    requires sel[0].first <= id <= sel[|sel| - 1].last
    ensures Covers(sel, id)
    decreases |sel|
  {
    var n := |sel| - 1;
    if id > sel[0].last && id < sel[n].first {
      assert n > 0 && Follows(Spot, sel[n - 1], sel[n]);
      ChainCovers(sel[..n], id);
      var i :| 0 <= i < |sel[..n]| && sel[..n][i].first <= id <= sel[..n][i].last;
      assert sel[i] == sel[..n][i];
    }
  }

  /** Everything a consumer may rely on when synchronization succeeds. */
  lemma SyncGuarantees(market: Market, snapshot: u64, depths: seq<Depth>, target: nat)
    requires AllParsed(depths) && Sync(market, snapshot, depths, target).Ok?
    ensures var sel := Sync(market, snapshot, depths, target).value;
            && |sel| == 1 + target
            && Chained(market, sel)
            && Extends(market, false, snapshot, sel[0])
            && (market.Spot? ==> forall id :: snapshot < id <= sel[target].last ==> Covers(sel, id))
  {
    hide Walk, Legs, Flatten;
    var legs := SyncExplained(market, snapshot, depths, target);
    LegsChained(market, false, snapshot, legs);
    var sel := Chosen(legs);
    if market.Spot? {
      forall id | snapshot < id <= sel[target].last ensures Covers(sel, id) {
        ChainCovers(sel, id);
      }
    }
  }

  lemma {:induction false} DirectLegs(market: Market, bridged: bool, local: u64, legs: seq<Leg>) returns (direct: seq<Leg>)
    requires Legs(market, bridged, local, legs)
    ensures Legs(market, bridged, local, direct) && |direct| == |legs|
    ensures Flatten(direct) == Chosen(legs) && Chosen(direct) == Chosen(legs)
    decreases |legs|
  {
    hide Extends, Skippable;
    if legs == [] {
      direct := [];
    } else {
      var more := DirectLegs(market, true, legs[0].chosen.last, legs[1..]);
      direct := [Leg([], legs[0].chosen)] + more;
      assert direct[1..] == more;
      assert [] + [legs[0].chosen] + Flatten(more) == [legs[0].chosen] + Flatten(more);
    }
  }

  lemma {:induction false} ChosenParsed(legs: seq<Leg>)
    requires AllParsed(Flatten(legs))
    ensures AllParsed(Chosen(legs))
  {
    hide Parsed;
    if legs != [] {
      var later := Flatten(legs[1..]);
      assert Flatten(legs) == legs[0].skipped + ([legs[0].chosen] + later);
      ParsedParts(legs[0].skipped, [legs[0].chosen] + later);
      ParsedParts([legs[0].chosen], later);
      ChosenParsed(legs[1..]);
      ParsedParts([legs[0].chosen], Chosen(legs[1..]));
    }
  }

  /** Synchronizing the selection again selects all of it. */
  lemma SyncIdempotent(market: Market, snapshot: u64, depths: seq<Depth>, target: nat)
    requires AllParsed(depths) && Sync(market, snapshot, depths, target).Ok?
    ensures var sel := Sync(market, snapshot, depths, target).value;
            Sync(market, snapshot, sel, target) == Ok(sel)
  {
    hide Walk, Legs, Flatten, Parsed;
    var legs := SyncExplained(market, snapshot, depths, target);
    var sel := Chosen(legs);
    var direct := DirectLegs(market, false, snapshot, legs);
    assert depths == Flatten(legs) + depths[|Flatten(legs)|..];
    ParsedParts(Flatten(legs), depths[|Flatten(legs)|..]);
    ChosenParsed(legs);
    assert sel[|sel|..] == [];
    ExplainedSyncs(market, snapshot, sel, target, direct);
  }

  /** When live updates were asked for, nothing after the last one matters. */
  lemma SyncIgnoresLater(market: Market, snapshot: u64, depths: seq<Depth>, target: nat, later: seq<Depth>)
    requires AllParsed(depths) && AllParsed(later) && Sync(market, snapshot, depths, target).Ok?
    requires target > 0
    ensures Sync(market, snapshot, depths + later, target) == Sync(market, snapshot, depths, target)
  {
    hide Walk, Legs, Flatten, Parsed;
    var legs := SyncExplained(market, snapshot, depths, target);
    ParsedParts(depths, later);
    assert Flatten(legs) <= depths + later;
    ExplainedSyncs(market, snapshot, depths + later, target, legs);
  }

  /**
   With a target of zero the loop never stops early, so a success survives more input exactly
   when all of it can be skipped.
   */
  lemma ZeroTargetScansOn(market: Market, snapshot: u64, depths: seq<Depth>, later: seq<Depth>)
    requires AllParsed(depths) && AllParsed(later) && Sync(market, snapshot, depths, 0).Ok?
    ensures var sel := Sync(market, snapshot, depths, 0).value;
            && |sel| == 1
            && (Sync(market, snapshot, depths + later, 0) == Ok(sel) <==> AllSkippable(market, true, sel[0].last, later))
  {
    hide Step, Legs, Parsed, Skippable;
    var legs := SyncExplained(market, snapshot, depths, 0);
    var sel, rest := Chosen(legs), depths[|Flatten(legs)|..];
    assert depths == Flatten(legs) + rest && depths + later == Flatten(legs) + (rest + later);
    ParsedParts(depths, later);
    ParsedParts(Flatten(legs), rest);
    var c := AfterLegs(Start(snapshot), legs);
    assert c.selected == sel;
    WalkLegs(market, Start(snapshot), legs, rest + later, 0);
    SkipRun(market, c, rest, later, 0);
    if AllSkippable(market, true, sel[0].last, later) {
      SkipRun(market, c, later, [], 0);
      assert later + [] == later;
    } else if Walk(market, c, later, 0).Ok? {
      var more, left := WalkExplained(market, c, later, 0);
      if more == [] {
        NoLegs(c);
      }
    }
  }

  /**
   The failing family exists: one live update after the bridge breaks a target of zero.  The tool
   never asks for it: it refuses targets that are not positive before it selects anything.
   */
  lemma ZeroTargetCounterexample()
    ensures var bridge := Depth(1, 11, None, [], []);
            var live := Depth(12, 12, None, [], []);
            && Sync(Spot, 10, [bridge], 0) == Ok([bridge])
            && Sync(Spot, 10, [bridge] + [live], 0) == Err(Broken(SourceEnded))
  {
    var bridge := Depth(1, 11, None, [], []);
    var live := Depth(12, 12, None, [], []);
    var c := Cursor(11, true, 0, [bridge]);
    assert [] + [bridge] == [bridge];
    assert Walk(Spot, Start(10), [bridge], 0) == Walk(Spot, c, [], 0);
    assert [bridge, live][1..] == [live];
    assert Walk(Spot, Start(10), [bridge, live], 0) == Walk(Spot, c, [live], 0);
    assert Walk(Spot, c, [live], 0) == Walk(Spot, Cursor(12, true, 1, [bridge] + [live]), [], 0);
  }

  // ------------------------------------------------------- stale updates and failures

  /** Where the walk stands after `a`: its cursor, or `None` once it stopped or failed. */
  function StandsAt(market: Market, c: Cursor, a: seq<Depth>, target: nat): Option<Cursor>
    decreases |a|
  {
    if a == [] then Some(c)
    else
      match Step(market, c, a[0])
      case Err(_) => None
      case Ok(c') => if Stops(c, c', target) then None else StandsAt(market, c', a[1..], target)
  }

  lemma {:induction false} WalkInsert(market: Market, c: Cursor, a: seq<Depth>, x: Depth, b: seq<Depth>, target: nat)
    requires Parsed(x)
    requires match StandsAt(market, c, a, target)
             case None => true
             case Some(s) => Skippable(market, s.bridged, s.local, x)
    ensures Walk(market, c, a + [x] + b, target) == Walk(market, c, a + b, target)
    decreases |a|
  {
    hide BridgeStep, LiveStep, Extends, Skippable;
    if a == [] {
      StepCases(market, c, x);
      assert a + [x] + b == [x] + b && a + b == b;
      assert ([x] + b)[1..] == b;
    } else {
      assert (a + [x] + b)[1..] == a[1..] + [x] + b && (a + b)[1..] == a[1..] + b;
      var next := Step(market, c, a[0]);
      if next.Ok? && !Stops(c, next.value, target) {
        WalkInsert(market, next.value, a[1..], x, b, target);
      }
    }
  }

  /** Inserting an update that is already covered, anywhere, changes neither success nor failure. */
  lemma SyncIgnoresCovered(market: Market, snapshot: u64, a: seq<Depth>, x: Depth, b: seq<Depth>, target: nat)
    requires Parsed(x)
    requires match StandsAt(market, Start(snapshot), a, target)
             case None => true
             case Some(s) => Skippable(market, s.bridged, s.local, x)
    ensures Sync(market, snapshot, a + [x] + b, target) == Sync(market, snapshot, a + b, target)
  {
    hide Walk, Step;
    WalkInsert(market, Start(snapshot), a, x, b, target);
  }

  /** The first update that the snapshot does not already cover. */
  function FirstCandidate(market: Market, snapshot: u64, depths: seq<Depth>): Option<Depth>
    decreases |depths|
  {
    if depths == [] then None
    else if Skippable(market, false, snapshot, depths[0]) then FirstCandidate(market, snapshot, depths[1..])
    else Some(depths[0])
  }

  predicate StartsTooLate(market: Market, snapshot: u64, d: Depth) {
    d.first > if market.Spot? then snapshot + 1 else snapshot
  }

  /** Past the bridge, failures are never eligibility errors. */
  lemma {:induction false} BridgedNeverIneligible(market: Market, c: Cursor, depths: seq<Depth>, target: nat)
    requires c.bridged && AllParsed(depths)
    ensures var r := Walk(market, c, depths, target);
            (r.Ok? && r.value.bridged) || r == Err(Broken(Discontinuity))
    decreases |depths|
  {
    hide Step, Extends, Skippable;
    if depths != [] {
      StepCases(market, c, depths[0]);
      var next := Step(market, c, depths[0]);
      if next.Ok? && !Stops(c, next.value, target) {
        BridgedNeverIneligible(market, next.value, depths[1..], target);
      }
    }
  }

  /**
   The eligibility error is raised exactly when the first candidate starts too late or there is
   none; every other failure is a live discontinuity or the end of the source, so the overflow
   and "cannot be proven" checks never fire.
   */
  lemma {:induction false} FailuresClassified(market: Market, snapshot: u64, depths: seq<Depth>, target: nat)
    requires AllParsed(depths)
    ensures var r := Sync(market, snapshot, depths, target);
            var first := FirstCandidate(market, snapshot, depths);
            && (first.None? ==> r == Err(Ineligible(NoBridge)))
            && (first.Some? && StartsTooLate(market, snapshot, first.value) ==> r == Err(Ineligible(ForwardGap)))
            && (first.Some? && !StartsTooLate(market, snapshot, first.value) ==>
                  r.Ok? || r == Err(Broken(Discontinuity)) || r == Err(Broken(SourceEnded)))
    decreases |depths|
  {
    hide BridgeStep, LiveStep;
    if depths != [] {
      var c := Start(snapshot);
      StepCases(market, c, depths[0]);
      if Skippable(market, false, snapshot, depths[0]) {
        FailuresClassified(market, snapshot, depths[1..], target);
      } else if Extends(market, false, snapshot, depths[0]) {
        var c1 := Step(market, c, depths[0]).value;
        BridgedNeverIneligible(market, c1, depths[1..], target);
      }
    }
  }
}
