/**
 Exactly when a synchronization fails past its bridge: at an update that neither can be skipped
 nor extends what is reached, or because the recording ends first.
 */
module SyncFailures {
  import opened Basics
  import opened Synchronize

  /** The loop has not stopped on the way: the target lies ahead, or it was passed unseen. */
  predicate Unstopped(c: Cursor, legs: seq<Leg>, target: nat) {
    c.live >= target || c.live + Gained(c.bridged, legs) < target
  }

  /** From `c`, legs and skippable updates lead to `depths[k]`, which breaks the sequence. */
  ghost predicate BreaksFrom(market: Market, c: Cursor, depths: seq<Depth>, target: nat, legs: seq<Leg>, k: nat) {
    && Legs(market, c.bridged, c.local, legs) && (c.bridged || legs != [])
    && Flatten(legs) <= depths && |Flatten(legs)| <= k < |depths|
    && AllSkippable(market, true, Reached(c.local, legs), depths[|Flatten(legs)|..k])
    && !Skippable(market, true, Reached(c.local, legs), depths[k])
    && !Extends(market, true, Reached(c.local, legs), depths[k])
    && Unstopped(c, legs, target)
  }

  /** Legs account for the whole recording, and they are too few (or, with target zero, too many). */
  ghost predicate RunsOut(market: Market, snapshot: u64, depths: seq<Depth>, target: nat, legs: seq<Leg>) {
    && legs != [] && Legs(market, false, snapshot, legs)
    && Flatten(legs) <= depths
    && AllSkippable(market, true, Reached(snapshot, legs), depths[|Flatten(legs)|..])
    && if target == 0 then |legs| > 1 else |legs| <= target
  }

  // ----------------------------------------------------------- walking over legs

  lemma {:induction false} WalkThrough(market: Market, c: Cursor, legs: seq<Leg>, rest: seq<Depth>, target: nat)
    requires Legs(market, c.bridged, c.local, legs) && AllParsed(Flatten(legs)) && Unstopped(c, legs, target)
    ensures Walk(market, c, Flatten(legs) + rest, target) == Walk(market, AfterLegs(c, legs), rest, target)
    decreases |legs|
  {
    hide Walk, Extends, AllSkippable, AllParsed, AfterLegs, Flatten, Legs, Unstopped;
    if legs == [] {
      NoneFlattened();
      assert [] + rest == rest;
      NoLegs(c);
    } else {
      var leg, more := legs[0], legs[1..];
      assert legs == [leg] + more;
      LegsBegin(market, c, leg, more, target);
      AfterFirstLeg(c, leg, more);
      LegParsed(leg, more);
      assert leg.skipped + [leg.chosen] + Flatten(more) + rest == leg.skipped + [leg.chosen] + (Flatten(more) + rest);
      WalkOneLeg(market, c, leg, Flatten(more) + rest, target);
      WalkThrough(market, Select(c, leg.chosen), more, rest, target);
    }
  }

  /** The first leg of a walk that has not stopped, and the others after it. */
  lemma LegsBegin(market: Market, c: Cursor, leg: Leg, more: seq<Leg>, target: nat)
    requires Legs(market, c.bridged, c.local, [leg] + more) && Unstopped(c, [leg] + more, target)
    ensures AllSkippable(market, c.bridged, c.local, leg.skipped) && Extends(market, c.bridged, c.local, leg.chosen)
    ensures Legs(market, true, leg.chosen.last, more)
    ensures Unstopped(Select(c, leg.chosen), more, target) && !Stops(c, Select(c, leg.chosen), target)
  {
    hide AllSkippable, Extends;
    assert ([leg] + more)[0] == leg && ([leg] + more)[1..] == more;
  }

  lemma ReachedFirst(local: u64, leg: Leg, legs: seq<Leg>)
    ensures Reached(local, [leg] + legs) == Reached(leg.chosen.last, legs)
  {
  }

  /** The break, seen one selected update earlier. */
  lemma BreakAfterChosen(market: Market, c: Cursor, d: Depth, tail: seq<Depth>, target: nat, legs: seq<Leg>, k: nat)
    requires Extends(market, c.bridged, c.local, d) && !Stops(c, Select(c, d), target)
    requires BreaksFrom(market, Select(c, d), tail, target, legs, k)
    ensures BreaksFrom(market, c, [d] + tail, target, [Leg([], d)] + legs, k + 1)
  {
    hide Extends, Skippable, Legs, Flatten, Reached;
    var legs' := [Leg([], d)] + legs;
    AfterFirstLeg(c, Leg([], d), legs);
    ReachedFirst(c.local, Leg([], d), legs);
    LegsFirst(market, c, d, legs);
    assert Flatten(legs') == [d] + Flatten(legs);
    var n := |Flatten(legs)|;
    assert ([d] + tail)[n + 1..k + 1] == tail[n..k];
  }

  lemma LegsFirst(market: Market, c: Cursor, d: Depth, legs: seq<Leg>)
    requires Extends(market, c.bridged, c.local, d) && Legs(market, true, d.last, legs)
    ensures Legs(market, c.bridged, c.local, [Leg([], d)] + legs)
  {
    hide Extends;
    assert ([Leg([], d)] + legs)[1..] == legs;
  }

  lemma NoneFlattened()
    ensures Flatten([]) == []
  {
  }

  lemma OneMoreSkipped(market: Market, local: u64, d: Depth, ds: seq<Depth>)
    requires Skippable(market, true, local, d) && AllSkippable(market, true, local, ds)
    ensures AllSkippable(market, true, local, [d] + ds)
  {
    hide Skippable;
  }

  /** The break, seen one skipped update earlier. */
  lemma BreakAfterSkipped(market: Market, c: Cursor, d: Depth, tail: seq<Depth>, target: nat, legs: seq<Leg>, k: nat)
    returns (legs': seq<Leg>)
    requires Skippable(market, c.bridged, c.local, d) && BreaksFrom(market, c, tail, target, legs, k)
    ensures BreaksFrom(market, c, [d] + tail, target, legs', k + 1)
  {
    hide Extends, Skippable, Legs, Flatten;
    if legs == [] {
      legs' := [];
      NoneFlattened();
      assert tail[0..k] == tail[..k] && ([d] + tail)[0..k + 1] == [d] + tail[..k];
      OneMoreSkipped(market, c.local, d, tail[..k]);
    } else {
      legs' := PrependSkipped(market, c.bridged, c.local, d, legs);
      var n := |Flatten(legs)|;
      assert ([d] + tail)[n + 1..k + 1] == tail[n..k];
    }
  }

  lemma {:induction false} BrokenWalk(market: Market, c: Cursor, depths: seq<Depth>, target: nat)
    returns (legs: seq<Leg>, k: nat)
    requires AllParsed(depths) && Walk(market, c, depths, target) == Err(Broken(Discontinuity))
    ensures BreaksFrom(market, c, depths, target, legs, k)
    decreases |depths|
  {
    hide Step, Extends, Skippable, BreaksFrom;
    var d, tail := depths[0], depths[1..];
    assert depths == [d] + tail;
    StepCases(market, c, d);
    if Skippable(market, c.bridged, c.local, d) {
      legs, k := BrokenWalk(market, c, tail, target);
      legs := BreakAfterSkipped(market, c, d, tail, target, legs, k);
      k := k + 1;
    } else if Extends(market, c.bridged, c.local, d) {
      legs, k := BrokenWalk(market, Select(c, d), tail, target);
      BreakAfterChosen(market, c, d, tail, target, legs, k);
      legs, k := [Leg([], d)] + legs, k + 1;
    } else {
      legs, k := [], 0;
      BreaksHere(market, c, depths, target);
    }
  }

  lemma BreaksHere(market: Market, c: Cursor, depths: seq<Depth>, target: nat)
    requires depths != [] && c.bridged
    requires !Skippable(market, true, c.local, depths[0]) && !Extends(market, true, c.local, depths[0])
    ensures BreaksFrom(market, c, depths, target, [], 0)
  {
    assert depths[0..0] == [];
  }

  lemma WalkBreaks(market: Market, c: Cursor, depths: seq<Depth>, target: nat, legs: seq<Leg>, k: nat)
    requires AllParsed(depths) && BreaksFrom(market, c, depths, target, legs, k)
    ensures Walk(market, c, depths, target) == Err(Broken(Discontinuity))
  {
    hide Step, Extends, Skippable, Legs, Flatten;
    var n := |Flatten(legs)|;
    var skipped, rest := depths[n..k], depths[k..];
    assert depths[n..] == skipped + rest && depths == Flatten(legs) + depths[n..];
    ParsedParts(Flatten(legs), depths[n..]);
    ParsedParts(skipped, rest);
    var c' := AfterLegs(c, legs);
    WalkThrough(market, c, legs, depths[n..], target);
    SkipRun(market, c', skipped, rest, target);
    StepCases(market, c', depths[k]);
    assert rest[0] == depths[k];
  }

  /** A live discontinuity is reported exactly when such a breaking update exists. */
  lemma DiscontinuityIffBreaks(market: Market, snapshot: u64, depths: seq<Depth>, target: nat)
    requires AllParsed(depths)
    ensures Sync(market, snapshot, depths, target) == Err(Broken(Discontinuity)) <==>
            exists legs, k :: BreaksFrom(market, Start(snapshot), depths, target, legs, k)
  {
    hide BreaksFrom, Walk;
    if Sync(market, snapshot, depths, target) == Err(Broken(Discontinuity)) {
      var legs, k := BrokenWalk(market, Start(snapshot), depths, target);
    }
    if legs, k :| BreaksFrom(market, Start(snapshot), depths, target, legs, k) {
      WalkBreaks(market, Start(snapshot), depths, target, legs, k);
    }
  }

  // ------------------------------------------------------------- the source ends

  lemma {:induction false} LegsPrefix(market: Market, bridged: bool, local: u64, legs: seq<Leg>, n: nat)
    requires n <= |legs| && Legs(market, bridged, local, legs)
    ensures Legs(market, bridged, local, legs[..n]) && Flatten(legs[..n]) <= Flatten(legs)
    decreases |legs|
  {
    hide Extends, AllSkippable;
    if n > 0 {
      LegsPrefix(market, true, legs[0].chosen.last, legs[1..], n - 1);
      assert legs[..n][1..] == legs[1..][..n - 1];
    }
  }

  lemma TooManyLegs(market: Market, snapshot: u64, depths: seq<Depth>, target: nat, legs: seq<Leg>)
    requires AllParsed(depths) && Legs(market, false, snapshot, legs) && Flatten(legs) <= depths
    requires 0 < target < |legs|
    ensures Sync(market, snapshot, depths, target).Ok?
  {
    hide Legs, Flatten, Sync;
    LegsPrefix(market, false, snapshot, legs, 1 + target);
    ExplainedSyncs(market, snapshot, depths, target, legs[..1 + target]);
  }

  /** The end of the source is reported exactly when legs account for all of it and miss the target. */
  lemma SourceEndedIffRunsOut(market: Market, snapshot: u64, depths: seq<Depth>, target: nat)
    requires AllParsed(depths)
    ensures Sync(market, snapshot, depths, target) == Err(Broken(SourceEnded)) <==>
            exists legs :: RunsOut(market, snapshot, depths, target, legs)
  {
    hide Legs, Flatten, Step, AllSkippable, AllParsed;
    var c := Start(snapshot);
    if Sync(market, snapshot, depths, target) == Err(Broken(SourceEnded)) {
      NeverEndsWithin(market, c, depths, target);
      var legs, rest := WalkExplained(market, c, depths, target);
      assert depths[|Flatten(legs)|..] == rest;
      if target > 0 && |legs| > target {
        TooManyLegs(market, snapshot, depths, target, legs);
        assert false;
      }
      assert RunsOut(market, snapshot, depths, target, legs);
    }
    if legs :| RunsOut(market, snapshot, depths, target, legs) {
      var rest := depths[|Flatten(legs)|..];
      assert depths == Flatten(legs) + rest;
      ParsedParts(Flatten(legs), rest);
      WalkThrough(market, c, legs, rest, target);
      SkipRun(market, AfterLegs(c, legs), rest, [], target);
      assert rest + [] == rest;
    }
  }

  /** The walk itself never reports the end of the source. */
  lemma {:induction false} NeverEndsWithin(market: Market, c: Cursor, depths: seq<Depth>, target: nat)
    requires AllParsed(depths)
    ensures Walk(market, c, depths, target) != Err(Broken(SourceEnded))
    decreases |depths|
  {
    hide Step, Extends, Skippable;
    if depths != [] {
      StepCases(market, c, depths[0]);
      var next := Step(market, c, depths[0]);
      if next.Ok? && !Stops(c, next.value, target) {
        NeverEndsWithin(market, next.value, depths[1..], target);
      }
    }
  }
}
