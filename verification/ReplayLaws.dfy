/**
 What the executor reads from text and shows as evidence, stated on the text itself.
 */
module ReplayLaws {
  import opened Basics
  import opened OrderBook
  import opened BookProjection
  import opened ProjectionLaws
  import opened ReplayExecutor
  import opened ReplayChecksum
  import opened ChecksumReference
  import Synchronize

  // ------------------------------------------------------------------ typed from text

  /** Both decimals of the text are accepted. */
  predicate DecimalsParse(ps: Parsers, price: string, quantity: string) {
    ps.price(price).Some? && ps.quantity(quantity).Some?
  }

  /** Updates parse exactly when all their decimals do, and each keeps its side, price and quantity. */
  lemma UpdatesTyped(ps: Parsers, us: seq<TextUpdate>)
    ensures UpdatesParse(ps, us) <==> forall i :: 0 <= i < |us| ==> DecimalsParse(ps, us[i].price, us[i].quantity)
    ensures UpdatesParse(ps, us) ==>
              && |UpdatePrefix(ps, us)| == |us|
              && forall i :: 0 <= i < |us| ==>
                   && UpdatePrefix(ps, us)[i].side == us[i].side
                   && Some(UpdatePrefix(ps, us)[i].price) == ps.price(us[i].price)
                   && Some(UpdatePrefix(ps, us)[i].quantity) == ps.quantity(us[i].quantity)
  {
    forall i | 0 <= i < |us| ensures ParseUpdate(ps, us[i]).Some? <==> DecimalsParse(ps, us[i].price, us[i].quantity) {
    }
    if UpdatesParse(ps, us) {
      UpdatesComplete(ps, us);
      var r := UpdatePrefix(ps, us);
      forall i | 0 <= i < |us|
        ensures r[i].side == us[i].side && Some(r[i].price) == ps.price(us[i].price) && Some(r[i].quantity) == ps.quantity(us[i].quantity)
      {
        assert ParseUpdate(ps, us[i]) == Some(r[i]);
      }
    }
  }

  lemma LevelsTyped(ps: Parsers, ls: seq<TextLevel>)
    ensures LevelsParse(ps, ls) <==> forall i :: 0 <= i < |ls| ==> DecimalsParse(ps, ls[i].price, ls[i].quantity)
    ensures LevelsParse(ps, ls) ==>
              && |LevelPrefix(ps, ls)| == |ls|
              && forall i :: 0 <= i < |ls| ==>
                   && Some(LevelPrefix(ps, ls)[i].price) == ps.price(ls[i].price)
                   && Some(LevelPrefix(ps, ls)[i].quantity) == ps.quantity(ls[i].quantity)
  {
    forall i | 0 <= i < |ls| ensures ParseLevel(ps, ls[i]).Some? <==> DecimalsParse(ps, ls[i].price, ls[i].quantity) {
    }
    if LevelsParse(ps, ls) {
      PrefixComplete(ps, ls);
      var r := LevelPrefix(ps, ls);
      forall i | 0 <= i < |ls| ensures Some(r[i].price) == ps.price(ls[i].price) && Some(r[i].quantity) == ps.quantity(ls[i].quantity) {
        assert ParseLevel(ps, ls[i]) == Some(r[i]);
      }
    }
  }

  // ------------------------------------------------------------- last text write wins

  /** A written quantity as the book shows it. */
  function Written(q: Option<Quantity>): Option<Quantity> {
    if q == Some(0) then None else q
  }

  /** The last text update for the side and price, or what was shown before. */
  function LastText(ps: Parsers, us: seq<TextUpdate>, side: Side, p: Price, before: Option<Quantity>): Option<Quantity> {
    if us == [] then before
    else
      var last := us[|us| - 1];
      if last.side == side && ps.price(last.price) == Some(p) then Written(ps.quantity(last.quantity))
      else LastText(ps, us[..|us| - 1], side, p, before)
  }

  /** The last text level for the price, or what was shown before. */
  function LastTextLevel(ps: Parsers, ls: seq<TextLevel>, p: Price, before: Option<Quantity>): Option<Quantity> {
    if ls == [] then before
    else
      var last := ls[|ls| - 1];
      if ps.price(last.price) == Some(p) then Written(ps.quantity(last.quantity))
      else LastTextLevel(ps, ls[..|ls| - 1], p, before)
  }

  lemma UpdatePrefixInit(ps: Parsers, us: seq<TextUpdate>)
    requires us != [] && UpdatesParse(ps, us)
    ensures |UpdatePrefix(ps, us)| == |us| && UpdatesParse(ps, us[..|us| - 1])
    ensures UpdatePrefix(ps, us)[..|us| - 1] == UpdatePrefix(ps, us[..|us| - 1])
  {
    hide ParseUpdate;
    var init := us[..|us| - 1];
    UpdatesComplete(ps, us);
    assert forall i :: 0 <= i < |init| ==> init[i] == us[i];
    UpdatesComplete(ps, init);
    var r, s := UpdatePrefix(ps, us), UpdatePrefix(ps, init);
    forall i | 0 <= i < |init| ensures r[i] == s[i] {
      assert ParseUpdate(ps, us[i]) == Some(r[i]) && ParseUpdate(ps, init[i]) == Some(s[i]);
    }
  }

  lemma {:induction false} TypedShowsText(ps: Parsers, us: seq<TextUpdate>, side: Side, p: Price, before: Option<Quantity>)
    requires UpdatesParse(ps, us)
    ensures LastShown(UpdatePrefix(ps, us), side, p, before) == LastText(ps, us, side, p, before)
    decreases |us|
  {
    if us != [] {
      hide UpdatesParse, UpdatePrefix;
      UpdatePrefixInit(ps, us);
      UpdatesTyped(ps, us);
      TypedShowsText(ps, us[..|us| - 1], side, p, before);
    }
  }

  lemma LevelPrefixInit(ps: Parsers, ls: seq<TextLevel>)
    requires ls != [] && LevelsParse(ps, ls)
    ensures |LevelPrefix(ps, ls)| == |ls| && LevelsParse(ps, ls[..|ls| - 1])
    ensures LevelPrefix(ps, ls)[..|ls| - 1] == LevelPrefix(ps, ls[..|ls| - 1])
  {
    hide ParseLevel;
    var init := ls[..|ls| - 1];
    PrefixComplete(ps, ls);
    assert forall i :: 0 <= i < |init| ==> init[i] == ls[i];
    PrefixComplete(ps, init);
    var r, s := LevelPrefix(ps, ls), LevelPrefix(ps, init);
    forall i | 0 <= i < |init| ensures r[i] == s[i] {
      assert ParseLevel(ps, ls[i]) == Some(r[i]) && ParseLevel(ps, init[i]) == Some(s[i]);
    }
  }

  lemma {:induction false} LevelsShowText(ps: Parsers, ls: seq<TextLevel>, p: Price)
    requires LevelsParse(ps, ls)
    ensures LastLevel(LevelPrefix(ps, ls), p) == LastTextLevel(ps, ls, p, None)
    decreases |ls|
  {
    if ls != [] {
      hide LevelsParse, LevelPrefix;
      LevelPrefixInit(ps, ls);
      LevelsTyped(ps, ls);
      LevelsShowText(ps, ls[..|ls| - 1], p);
    }
  }

  // -------------------------------------------------------------------- each operation

  /** The numbers that stand for what happened, in the order of the enumerations. */
  const APPLY_ORDER: seq<ApplyDisposition> := [Applied, IgnoredStale, IgnoredDuplicate, GapDetected, ApplyRejected]
  const STATUS_ORDER: seq<Status> := [AwaitingBaseline, AwaitingBridge, Synchronized, NeedsResync]
  const INSTALL_ORDER: seq<InstallDisposition> := [Installed, InstallRejected]

  lemma CodesFollowTheEnumerations(d: ApplyDisposition, s: Status, i: InstallDisposition)
    ensures ApplyCode(d) < 5 && APPLY_ORDER[ApplyCode(d) as nat] == d
    ensures StatusCode(s) < 4 && STATUS_ORDER[StatusCode(s) as nat] == s
    ensures InstallCode(i) < 2 && INSTALL_ORDER[InstallCode(i) as nat] == i
  {
    match d {
      case Applied =>
      case IgnoredStale =>
      case IgnoredDuplicate =>
      case GapDetected =>
      case ApplyRejected =>
    }
    match s {
      case AwaitingBaseline =>
      case AwaitingBridge =>
      case Synchronized =>
      case NeedsResync =>
    }
  }

  /** A baseline event: a decimal that does not parse changes nothing, otherwise exactly the parsed levels are installed. */
  lemma BaselineEventLaw(ps: Parsers, op: Operation, p: Projection)
    requires Valid(p) && (op.InstallOp? || op.RebaselineOp?)
    ensures var (q, e) := TextStep(ps, op, p);
            var parses := LevelsParse(ps, op.bids) && LevelsParse(ps, op.asks);
            && e.kind == (if op.InstallOp? then 1 else 2)
            && (!parses ==> q == p && e.disposition == 0xFFEE_DDCC_BBAA_9988 && e.status == 0xFFFF_FFFF_FFFF_FFFE && e.updateId == 0xFFFF_FFFF_FFFF_FFFF)
            && (parses ==>
                  && (q, if e.disposition == 0 then Installed else InstallRejected) == Install(p, op.last, LevelPrefix(ps, op.bids), LevelPrefix(ps, op.asks))
                  && e.disposition <= 1 && e.status == StatusCode(q.status) && e.updateId == IdCode(q.last))
  {
    hide Install, LevelPrefix, LevelsParse, StatusCode, IdCode, Valid;
  }

  /** A depth event, in the same way. */
  lemma DepthEventLaw(ps: Parsers, op: Operation, p: Projection)
    requires Valid(p) && op.DepthUpdateOp?
    ensures var (q, e) := TextStep(ps, op, p);
            var parses := UpdatesParse(ps, op.levels) && op.first <= op.last;
            && e.kind == 3
            && (!parses ==> q == p && e.disposition == 0xFFEE_DDCC_BBAA_9988 && e.status == 0xFFFF_FFFF_FFFF_FFFE && e.updateId == 0xFFFF_FFFF_FFFF_FFFF)
            && (parses ==>
                  && var (q', d) := Apply(p, Batch(op.first, op.last, op.previous, UpdatePrefix(ps, op.levels)));
                  && q == q' && e.disposition == ApplyCode(d) && e.status == StatusCode(q.status) && e.updateId == IdCode(q.last))
  {
    hide Apply, UpdatePrefix, UpdatesParse, StatusCode, IdCode, ApplyCode;
  }

  /** The other events: a reset starts over, requests and metadata only look, a malformed range is judged. */
  lemma OtherEventLaw(ps: Parsers, op: Operation, p: Projection)
    requires Valid(p) && (op.ResetOp? || op.SnapshotRequestOp? || op.MetadataOp? || op.MalformedRangeOp?)
    ensures var (q, e) := TextStep(ps, op, p);
            && q == (if op.ResetOp? then Fresh(p.policy) else p)
            && e.kind == (match op case ResetOp => 4 case SnapshotRequestOp => 5 case MetadataOp => 6 case _ => 7)
            && e.updateId == 0xFFFF_FFFF_FFFF_FFFF
            && (!op.MalformedRangeOp? ==> e.disposition == 0xFFFF_FFFF_FFFF_FFFE && e.status == StatusCode(q.status))
            && (op.MalformedRangeOp? ==> e.disposition == (if op.first <= op.last then 1 else 0) && e.status == 0xFFFF_FFFF_FFFF_FFFE)
  {
    hide StatusCode, Valid;
  }

  /** An applied depth event shows, at every side and price, its last text write there. */
  lemma AppliedDepthShowsText(ps: Parsers, op: Operation, p: Projection, side: Side, price: Price)
    requires Valid(p) && op.DepthUpdateOp? && UpdatesParse(ps, op.levels) && op.first <= op.last
    requires TextStep(ps, op, p).1.disposition == ApplyCode(Applied)
    ensures var q := TextStep(ps, op, p).0;
            && q.status == Synchronized && q.last == Some(op.last)
            && Shown(q.book, side, price) == LastText(ps, op.levels, side, price, Shown(p.book, side, price))
  {
    DepthEventLaw(ps, op, p);
    var b := Batch(op.first, op.last, op.previous, UpdatePrefix(ps, op.levels));
    var d := Apply(p, b).1;
    CodesFollowTheEnumerations(d, p.status, Installed);
    CodesFollowTheEnumerations(Applied, p.status, Installed);
    hide Apply, UpdatePrefix, UpdatesParse, ApplyCode, StatusCode, TextStep, LastText, Valid;
    assert d == Applied;
    AppliedLaw(p, b, side, price);
    TypedShowsText(ps, op.levels, side, price, Shown(p.book, side, price));
  }

  /** An accepted baseline event shows, at every side and price, its last text level there. */
  lemma InstalledBaselineShowsText(ps: Parsers, op: Operation, p: Projection, price: Price)
    requires Valid(p) && (op.InstallOp? || op.RebaselineOp?) && p.status != Synchronized
    requires LevelsParse(ps, op.bids) && LevelsParse(ps, op.asks)
    ensures var q := TextStep(ps, op, p).0;
            && q.status == AwaitingBridge && q.last == Some(op.last)
            && Shown(q.book, Bid, price) == LastTextLevel(ps, op.bids, price, None)
            && Shown(q.book, Ask, price) == LastTextLevel(ps, op.asks, price, None)
  {
    BaselineEventLaw(ps, op, p);
    hide Install, LevelPrefix, LevelsParse, TextStep, LastTextLevel, Valid;
    InstallLaw(p, op.last, LevelPrefix(ps, op.bids), LevelPrefix(ps, op.asks), price);
    LevelsShowText(ps, op.bids, price);
    LevelsShowText(ps, op.asks, price);
  }

  // ------------------------------------------------------------------- final values

  /** The best price of a side, as a checksum value: the extreme key, or the marker for none. */
  predicate IsBestValue(l: Ladder, side: Side, v: bv64) {
    if l == map[] then v == 0xFFFF_FFFF_FFFF_FFFF
    else exists p: Price :: p in l && v == p as bv64 && forall q :: q in l ==> if side.Bid? then q <= p else p <= q
  }

  lemma BestPriceIsBest(l: Ladder, side: Side)
    ensures IsBestValue(l, side, BestPrice(l, side))
  {
    hide Enumerate, Lists;
    EnumerateLists(l, side);
    var levels := Enumerate(l, side);
    EmptyListing(levels, l, side);
    if levels != [] {
      FirstIsExtreme(levels, l, side);
    }
  }

  lemma EmptyListing(levels: seq<Level>, l: Ladder, side: Side)
    requires Lists(levels, l, side)
    ensures levels == [] <==> l == map[]
  {
    if levels != [] {
      assert levels[0].price in l;
    }
    if p :| p in l {
      assert HasPrice(levels, p);
    }
  }

  lemma FirstIsExtreme(levels: seq<Level>, l: Ladder, side: Side)
    requires Lists(levels, l, side) && levels != []
    ensures var p := levels[0].price;
            p in l && forall q :: q in l ==> if side.Bid? then q <= p else p <= q
  {
    var p := levels[0].price;
    forall q | q in l ensures if side.Bid? then q <= p else p <= q {
      assert HasPrice(levels, q);
      var i :| 0 <= i < |levels| && levels[i].price == q;
      assert i == 0 || Before(side, levels[0].price, levels[i].price);
    }
  }

  /** An id stands for itself, and its absence for the marker. */
  lemma IdCodeLaw(id: u64)
    ensures IdCode(None) == 0xFFFF_FFFF_FFFF_FFFF && IdCode(Some(id)) == id as bv64
  {
  }

  /** The seven values that close the checksum. */
  lemma FinalValuesLaw(p: Projection)
    ensures var vs := FinalValues(p);
            && |vs| == 7
            && vs[0] == StatusCode(p.status) && vs[1] == IdCode(p.last)
            && vs[2] == Count(|p.book.bids|) && vs[3] == Count(|p.book.asks|)
            && IsBestValue(p.book.bids, Bid, vs[4]) && IsBestValue(p.book.asks, Ask, vs[5])
            && vs[6] == (if p.status == Synchronized then 1 else 0)
  {
    hide BestPrice, IsBestValue, StatusCode, IdCode, Count;
    BestPriceIsBest(p.book.bids, Bid);
    BestPriceIsBest(p.book.asks, Ask);
  }

  // -------------------------------------------------------------------- the checksum

  /** The evidence of a run as one sequence of values: kind, disposition, status, id of each event. */
  function EvidenceStream(es: seq<Evidence>): seq<bv64> {
    if es == [] then []
    else
      var e := es[|es| - 1];
      EvidenceStream(es[..|es| - 1]) + [e.kind, e.disposition, e.status, e.updateId]
  }

  lemma {:induction false} EvidenceFolds(c: bv64, es: seq<Evidence>)
    ensures FoldEvidence(c, es) == Fold(c, EvidenceStream(es))
    decreases |es|
  {
    if es != [] {
      hide Fold;
      EvidenceFolds(c, es[..|es| - 1]);
      FoldSplit(c, EvidenceStream(es[..|es| - 1]), EvidenceValues(es[|es| - 1]));
    }
  }

  /** The checksum of a run is the FNV-1a 64 hash of its evidence followed by its final values. */
  lemma ChecksumLaw(p: Projection, es: seq<Evidence>)
    ensures Checksum((p, es)) == Fnv1a(0xCBF2_9CE4_8422_2325, Octets(EvidenceStream(es) + FinalValues(p)))
  {
    hide Fold, FinalValues, Fnv1a, Octets, FoldEvidence;
    EvidenceFolds(SEED, es);
    FoldSplit(SEED, EvidenceStream(es), FinalValues(p));
    ChecksumIsFnv(EvidenceStream(es) + FinalValues(p));
  }
}
