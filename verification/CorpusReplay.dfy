/**
 From recording to replay: the operations materialized from a recording, run by the
 executor on a fresh projection.
 */
module CorpusReplay {
  import opened Basics
  import opened OrderBook
  import opened Synchronize
  import opened BaselineSelection
  import opened SelectionLaws
  import opened BookProjection
  import opened ProjectionLaws
  import opened ReplayExecutor
  import opened ReplayLaws

  function Sided(side: Side, ls: seq<Synchronize.TextLevel>): seq<TextUpdate> {
    if ls == [] then [] else Sided(side, ls[..|ls| - 1]) + [TextUpdate(side, ls[|ls| - 1].price, ls[|ls| - 1].quantity)]
  }

  /** The replay line of an update: bids first, then asks. */
  function DepthOperation(d: Depth): Operation {
    DepthUpdateOp(d.first, d.last, d.previous, Sided(Bid, d.bids) + Sided(Ask, d.asks))
  }

  function DepthOperations(ds: seq<Depth>): (ops: seq<Operation>)
    ensures |ops| == |ds|
    ensures forall i :: 0 <= i < |ds| ==> ops[i] == DepthOperation(ds[i])
  {
    if ds == [] then [] else DepthOperations(ds[..|ds| - 1]) + [DepthOperation(ds[|ds| - 1])]
  }

  /** The whole materialized workload. */
  function Workload(snapshot: u64, bids: seq<Synchronize.TextLevel>, asks: seq<Synchronize.TextLevel>, ds: seq<Depth>): seq<Operation> {
    [InstallOp(snapshot, bids, asks)] + DepthOperations(ds)
  }

  /** The typed levels of an update, as far as they parse. */
  function LevelsOf(ps: Parsers, d: Depth): seq<Update> {
    UpdatePrefix(ps, Sided(Bid, d.bids) + Sided(Ask, d.asks))
  }

  function LevelReader(ps: Parsers): Depth -> seq<Update> {
    (d: Depth) => LevelsOf(ps, d)
  }

  lemma {:induction false} ApplyAllLast(p: Projection, ds: seq<Depth>, levelsOf: Depth -> seq<Update>)
    requires Valid(p) && ds != []
    ensures var n := |ds| - 1;
            var (q, before) := ApplyAll(p, ds[..n], levelsOf);
            && Valid(q)
            && var (q', d) := Apply(q, AsBatch(ds[n], levelsOf));
            ApplyAll(p, ds, levelsOf) == (q', before + [d])
    decreases |ds|
  {
    hide Apply;
    var n := |ds| - 1;
    if n == 0 {
      assert ds[..0] == [] && ds[1..] == [];
      var d := Apply(p, AsBatch(ds[0], levelsOf)).1;
      assert [d] + [] == [] + [d];
      TransitionsKeepValid(p, 0, [], [], AsBatch(ds[0], levelsOf));
    } else {
      var (p1, d) := Apply(p, AsBatch(ds[0], levelsOf));
      TransitionsKeepValid(p, 0, [], [], AsBatch(ds[0], levelsOf));
      ApplyAllLast(p1, ds[1..], levelsOf);
      assert ds[1..][..n - 1] == ds[..n][1..] && ds[1..][n - 1] == ds[n];
      var (q, before) := ApplyAll(p1, ds[..n][1..], levelsOf);
      assert [d] + (before + [Apply(q, AsBatch(ds[n], levelsOf)).1]) == [d] + before + [Apply(q, AsBatch(ds[n], levelsOf)).1];
    }
  }

  /** The first event installed the baseline; every later one is an update with its disposition. */
  predicate EvidenceOf(first: Evidence, es: seq<Evidence>, ds: seq<ApplyDisposition>) {
    |es| == 1 + |ds| && es[0] == first && forall i :: 1 <= i < |es| ==> es[i].kind == 3 && es[i].disposition == ApplyCode(ds[i - 1])
  }

  lemma DepthOperationSteps(ps: Parsers, d: Depth, p: Projection)
    requires Valid(p) && Prepare(ps, DepthOperation(d)).1
    ensures var (q, disposition) := Apply(p, AsBatch(d, LevelReader(ps)));
            TextStep(ps, DepthOperation(d), p) == (q, ApplyEvidence(q, disposition))
  {
    hide Apply, Valid, UpdatePrefix, UpdatesParse, ApplyEvidence;
    UpdatesComplete(ps, Sided(Bid, d.bids) + Sided(Ask, d.asks));
  }

  lemma InstallOperationSteps(ps: Parsers, snapshot: u64, bids: seq<Synchronize.TextLevel>, asks: seq<Synchronize.TextLevel>, p: Projection)
    requires Valid(p) && Prepare(ps, InstallOp(snapshot, bids, asks)).1
    ensures var (q, d) := Install(p, snapshot, LevelPrefix(ps, bids), LevelPrefix(ps, asks));
            TextStep(ps, InstallOp(snapshot, bids, asks), p) == (q, InstallEvidence(1, q, d))
  {
    hide Install, Valid, LevelPrefix, LevelsParse, InstallEvidence;
    PrefixComplete(ps, bids);
    PrefixComplete(ps, asks);
  }

  lemma TextRunLast(ps: Parsers, ops: seq<Operation>, op: Operation, p: Projection)
    requires Valid(p)
    ensures var (q, es) := TextRun(ps, ops, p);
            var (q', e) := TextStep(ps, op, q);
            TextRun(ps, ops + [op], p) == (q', es + [e])
  {
    hide TextStep, Valid;
    assert (ops + [op])[..|ops|] == ops;
  }

  lemma EvidenceLast(first: Evidence, es: seq<Evidence>, ds: seq<ApplyDisposition>, p: Projection, d: ApplyDisposition)
    requires EvidenceOf(first, es, ds)
    ensures EvidenceOf(first, es + [ApplyEvidence(p, d)], ds + [d])
  {
    var es', ds' := es + [ApplyEvidence(p, d)], ds + [d];
    forall i | 1 <= i < |es'| ensures es'[i].kind == 3 && es'[i].disposition == ApplyCode(ds'[i - 1]) {
      if i < |es| {
        assert es'[i] == es[i] && ds'[i - 1] == ds[i - 1];
      }
    }
  }

  lemma {:induction false} WorkloadRuns(ps: Parsers, snapshot: u64, bids: seq<Synchronize.TextLevel>, asks: seq<Synchronize.TextLevel>,
                                        ds: seq<Depth>, p: Projection)
    requires Valid(p) && InputsValid(ps, Workload(snapshot, bids, asks, ds))
    ensures var (installed, how) := Install(p, snapshot, LevelPrefix(ps, bids), LevelPrefix(ps, asks));
            && Valid(installed)
            && var (q, dispositions) := ApplyAll(installed, ds, LevelReader(ps));
            && TextRun(ps, Workload(snapshot, bids, asks, ds), p).0 == q
            && EvidenceOf(InstallEvidence(1, installed, how), TextRun(ps, Workload(snapshot, bids, asks, ds), p).1, dispositions)
    decreases |ds|
  {
    hide Install, Apply, Prepare, TextStep, TextRun, EvidenceOf, ApplyEvidence, InstallEvidence, LevelPrefix, LevelReader, DepthOperation;
    var ops, op0 := Workload(snapshot, bids, asks, ds), InstallOp(snapshot, bids, asks);
    var b, a := LevelPrefix(ps, bids), LevelPrefix(ps, asks);
    TransitionsKeepValid(p, snapshot, b, a, Batch(0, 0, None, []));
    var (installed, how) := Install(p, snapshot, b, a);
    assert Prepare(ps, ops[0]).1;
    if ds == [] {
      assert ops == [] + [op0];
      InstallOperationSteps(ps, snapshot, bids, asks, p);
      TextRunLast(ps, [], op0, p);
      FirstEvidence(ps, op0, p);
    } else {
      var n := |ds| - 1;
      var shorter, op := Workload(snapshot, bids, asks, ds[..n]), DepthOperation(ds[n]);
      assert ops == shorter + [op];
      assert forall i :: 0 <= i < |shorter| ==> shorter[i] == ops[i];
      assert Prepare(ps, ops[|ops| - 1]).1;
      WorkloadRuns(ps, snapshot, bids, asks, ds[..n], p);
      ApplyAllLast(installed, ds, LevelReader(ps));
      TextRunLast(ps, shorter, op, p);
      var (q, before) := ApplyAll(installed, ds[..n], LevelReader(ps));
      DepthOperationSteps(ps, ds[n], q);
      var (q', d) := Apply(q, AsBatch(ds[n], LevelReader(ps)));
      EvidenceLast(InstallEvidence(1, installed, how), TextRun(ps, shorter, p).1, before, q', d);
    }
  }

  lemma FirstEvidence(ps: Parsers, op: Operation, p: Projection)
    requires Valid(p)
    ensures TextRun(ps, [], p) == (p, [])
    ensures EvidenceOf(TextStep(ps, op, p).1, [] + [TextStep(ps, op, p).1], [])
  {
    hide TextStep;
  }

  /** All updates of a selection are applied: every later event says so. */
  lemma AllAppliedEvidence(first: Evidence, es: seq<Evidence>, ds: seq<ApplyDisposition>)
    requires EvidenceOf(first, es, ds) && AllApplied(ds)
    ensures |es| == 1 + |ds| && es[0] == first
    ensures forall i :: 1 <= i < |es| ==> es[i].kind == 3 && es[i].disposition == ApplyCode(Applied)
  {
    hide ApplyCode;
    forall i | 1 <= i < |es| ensures es[i].kind == 3 && es[i].disposition == ApplyCode(Applied) {
      assert ds[i - 1] == Applied;
    }
  }

  // ------------------------------------------------- the book, told by the recorded text

  function SideText(d: Depth, side: Side): seq<Synchronize.TextLevel> {
    match side case Bid => d.bids case Ask => d.asks
  }

  /** What the selected updates leave at a side and price: the last text level for it, else what was there. */
  function TextAfter(ps: Parsers, sel: seq<Depth>, side: Side, p: Price, before: Option<Quantity>): Option<Quantity> {
    if sel == [] then before
    else LastTextLevel(ps, SideText(sel[|sel| - 1], side), p, TextAfter(ps, sel[..|sel| - 1], side, p, before))
  }

  /** Text levels of one side only show on that side. */
  lemma {:induction false} SidedText(ps: Parsers, us: seq<TextUpdate>, on: Side, ls: seq<Synchronize.TextLevel>, side: Side, p: Price, before: Option<Quantity>)
    ensures LastText(ps, us + Sided(on, ls), side, p, before) ==
            if side == on then LastTextLevel(ps, ls, p, LastText(ps, us, side, p, before)) else LastText(ps, us, side, p, before)
    decreases |ls|
  {
    var all := us + Sided(on, ls);
    if ls == [] {
      assert all == us;
    } else {
      var n := |ls| - 1;
      SidedText(ps, us, on, ls[..n], side, p, before);
      assert all[..|all| - 1] == us + Sided(on, ls[..n]);
      assert all[|all| - 1] == TextUpdate(on, ls[n].price, ls[n].quantity);
    }
  }

  lemma DepthShowsText(ps: Parsers, d: Depth, side: Side, p: Price, before: Option<Quantity>)
    requires UpdatesParse(ps, Sided(Bid, d.bids) + Sided(Ask, d.asks))
    ensures LastShown(LevelsOf(ps, d), side, p, before) == LastTextLevel(ps, SideText(d, side), p, before)
  {
    var us := Sided(Bid, d.bids) + Sided(Ask, d.asks);
    TypedShowsText(ps, us, side, p, before);
    SidedText(ps, Sided(Bid, d.bids), Ask, d.asks, side, p, before);
    assert [] + Sided(Bid, d.bids) == Sided(Bid, d.bids);
    SidedText(ps, [], Bid, d.bids, side, p, before);
  }

  lemma {:induction false} LastShownSplit(us: seq<Update>, vs: seq<Update>, side: Side, p: Price, before: Option<Quantity>)
    ensures LastShown(us + vs, side, p, before) == LastShown(vs, side, p, LastShown(us, side, p, before))
    decreases |vs|
  {
    if vs == [] {
      assert us + vs == us;
    } else {
      LastShownSplit(us, vs[..|vs| - 1], side, p, before);
      assert (us + vs)[..|us + vs| - 1] == us + vs[..|vs| - 1];
    }
  }

  predicate AllDecimalsParse(ps: Parsers, sel: seq<Depth>) {
    forall i :: 0 <= i < |sel| ==> UpdatesParse(ps, Sided(Bid, sel[i].bids) + Sided(Ask, sel[i].asks))
  }

  lemma {:induction false} AllUpdatesLast(sel: seq<Depth>, levelsOf: Depth -> seq<Update>)
    requires sel != []
    ensures AllUpdates(sel, levelsOf) == AllUpdates(sel[..|sel| - 1], levelsOf) + levelsOf(sel[|sel| - 1])
    decreases |sel|
  {
    var n := |sel| - 1;
    if n == 0 {
      assert sel[..0] == [] && sel[1..] == [];
      assert [] + levelsOf(sel[0]) == levelsOf(sel[0]) + [];
    } else {
      AllUpdatesLast(sel[1..], levelsOf);
      assert sel[1..][..n - 1] == sel[..n][1..] && sel[1..][n - 1] == sel[n];
      var mid := AllUpdates(sel[..n][1..], levelsOf);
      assert levelsOf(sel[0]) + (mid + levelsOf(sel[n])) == levelsOf(sel[0]) + mid + levelsOf(sel[n]);
    }
  }

  lemma {:induction false} SelectionShowsText(ps: Parsers, sel: seq<Depth>, side: Side, p: Price, before: Option<Quantity>)
    requires AllDecimalsParse(ps, sel)
    ensures LastShown(AllUpdates(sel, LevelReader(ps)), side, p, before) == TextAfter(ps, sel, side, p, before)
    decreases |sel|
  {
    hide LastShown, LastTextLevel, UpdatesParse, LevelsOf;
    if sel == [] {
      NothingShown(side, p, before);
    } else {
      var n := |sel| - 1;
      var init := sel[..n];
      SelectionShowsText(ps, init, side, p, before);
      AllUpdatesLast(sel, LevelReader(ps));
      LastShownSplit(AllUpdates(init, LevelReader(ps)), LevelsOf(ps, sel[n]), side, p, before);
      DepthShowsText(ps, sel[n], side, p, TextAfter(ps, init, side, p, before));
    }
  }

  lemma NothingShown(side: Side, p: Price, before: Option<Quantity>)
    ensures LastShown([], side, p, before) == before
  {
  }

  lemma WorkloadParses(ps: Parsers, snapshot: u64, bids: seq<Synchronize.TextLevel>, asks: seq<Synchronize.TextLevel>, sel: seq<Depth>)
    requires InputsValid(ps, Workload(snapshot, bids, asks, sel))
    ensures LevelsParse(ps, bids) && LevelsParse(ps, asks) && AllDecimalsParse(ps, sel)
  {
    hide LevelsParse, UpdatesParse, LevelPrefix, UpdatePrefix;
    var ops := Workload(snapshot, bids, asks, sel);
    assert Prepare(ps, ops[0]).1;
    PrefixComplete(ps, bids);
    PrefixComplete(ps, asks);
    forall i | 0 <= i < |sel| ensures UpdatesParse(ps, Sided(Bid, sel[i].bids) + Sided(Ask, sel[i].asks)) {
      assert ops[i + 1] == DepthOperation(sel[i]);
      assert Prepare(ps, ops[i + 1]).1;
      UpdatesComplete(ps, Sided(Bid, sel[i].bids) + Sided(Ask, sel[i].asks));
    }
  }

  /** The book of a replay, at every side and price, is what the recorded text says was written there last. */
  lemma ReplayShowsText(ps: Parsers, snapshot: u64, bids: seq<Synchronize.TextLevel>, asks: seq<Synchronize.TextLevel>,
                        sel: seq<Depth>, side: Side, p: Price)
    requires InputsValid(ps, Workload(snapshot, bids, asks, sel))
    ensures var book := ApplyUpdates(ReplaceAll(LevelPrefix(ps, bids), LevelPrefix(ps, asks)), AllUpdates(sel, LevelReader(ps)));
            Shown(book, side, p) ==
            TextAfter(ps, sel, side, p, LastTextLevel(ps, match side case Bid => bids case Ask => asks, p, None))
  {
    hide ApplyUpdates, AllUpdates, LevelReader, LevelPrefix, LastShown, LastTextLevel, LastLevel, LevelsParse, TextAfter, AllDecimalsParse, Workload, InputsValid, Load;
    WorkloadParses(ps, snapshot, bids, asks, sel);
    var start := ReplaceAll(LevelPrefix(ps, bids), LevelPrefix(ps, asks));
    UpdatesShowLast(start, AllUpdates(sel, LevelReader(ps)), side, p);
    SelectionShowsText(ps, sel, side, p, Shown(start, side, p));
    LoadShowsLast(LevelPrefix(ps, bids), p);
    LoadShowsLast(LevelPrefix(ps, asks), p);
    LevelsShowText(ps, bids, p);
    LevelsShowText(ps, asks, p);
  }

  // ------------------------------------------------------------------- clean replays

  /** What a clean replay of a selection shows. */
  ghost predicate CleanReplay(ps: Parsers, snapshot: u64, bids: seq<Synchronize.TextLevel>, asks: seq<Synchronize.TextLevel>,
                              sel: seq<Depth>, p: Projection, es: seq<Evidence>) {
    && sel != [] && |es| == 1 + |sel|
    && p.status == Synchronized && p.last == Some(sel[|sel| - 1].last)
    && (forall side: Side, price: Price ::
          Shown(p.book, side, price) ==
          TextAfter(ps, sel, side, price, LastTextLevel(ps, match side case Bid => bids case Ask => asks, price, None)))
    && es[0] == Evidence(1, 0, 1, snapshot as bv64)
    && (forall i :: 1 <= i < |es| ==> es[i].kind == 3 && es[i].disposition == 0)
  }

  lemma InstallsBaseline(p: Projection, snapshot: u64, b: seq<Level>, a: seq<Level>)
    requires p.status != Synchronized
    ensures var (q, d) := Install(p, snapshot, b, a);
            d == Installed && InstallEvidence(1, q, d) == Evidence(1, 0, 1, snapshot as bv64)
  {
    hide ReplaceAll;
    IdCodeLaw(snapshot);
    hide IdCode;
  }

  /** A stream that synchronizes and whose decimals parse replays cleanly on both executor paths. */
  lemma SynchronizedReplaysClean(ps: Parsers, from: Projection, market: Market, snapshot: u64, depths: seq<Depth>, target: nat,
                                 bids: seq<Synchronize.TextLevel>, asks: seq<Synchronize.TextLevel>)
    requires Valid(from) && from.policy == market && from.status != Synchronized
    requires AllRecorded(market, depths) && Sync(market, snapshot, depths, target).Ok?
    requires InputsValid(ps, Workload(snapshot, bids, asks, Sync(market, snapshot, depths, target).value))
    ensures var sel := Sync(market, snapshot, depths, target).value;
            var ops := Workload(snapshot, bids, asks, sel);
            var (p, es) := TextRun(ps, ops, from);
            && PreparedRun(PrepareAll(ps, ops), from) == (p, es)
            && |sel| == 1 + target && CleanReplay(ps, snapshot, bids, asks, sel, p, es)
  {
    hide Sync, Install, Valid, Workload, InputsValid, EvidenceOf, CleanReplay, InstallEvidence, ApplyAll, AllApplied;
    hide ApplyUpdates, ReplaceAll, AllUpdates, LevelPrefix, LevelReader, TextRun, PreparedRun, PrepareAll, Checksum;
    var sel := Sync(market, snapshot, depths, target).value;
    var b, a := LevelPrefix(ps, bids), LevelPrefix(ps, asks);
    MaterializedCorpusReplays(from, market, snapshot, depths, target, b, a, LevelReader(ps));
    WorkloadRuns(ps, snapshot, bids, asks, sel, from);
    RunsAgree(ps, Workload(snapshot, bids, asks, sel), from);
    InstallsBaseline(from, snapshot, b, a);
    var (installed, how) := Install(from, snapshot, b, a);
    var (p, es) := TextRun(ps, Workload(snapshot, bids, asks, sel), from);
    Assembled(ps, snapshot, bids, asks, sel, p, es, InstallEvidence(1, installed, how),
              ApplyAll(installed, sel, LevelReader(ps)).1);
  }

  lemma Assembled(ps: Parsers, snapshot: u64, bids: seq<Synchronize.TextLevel>, asks: seq<Synchronize.TextLevel>,
                  sel: seq<Depth>, p: Projection, es: seq<Evidence>, first: Evidence, ds: seq<ApplyDisposition>)
    requires InputsValid(ps, Workload(snapshot, bids, asks, sel))
    requires sel != [] && |ds| == |sel| && AllApplied(ds) && EvidenceOf(first, es, ds)
    requires first == Evidence(1, 0, 1, snapshot as bv64)
    requires p.status == Synchronized && p.last == Some(sel[|sel| - 1].last)
    requires p.book == ApplyUpdates(ReplaceAll(LevelPrefix(ps, bids), LevelPrefix(ps, asks)), AllUpdates(sel, LevelReader(ps)))
    ensures CleanReplay(ps, snapshot, bids, asks, sel, p, es)
  {
    AppliedIsZero();
    hide ApplyUpdates, ReplaceAll, AllUpdates, LevelPrefix, LevelReader, ApplyCode, AllApplied, EvidenceOf, InputsValid, Workload, TextAfter, LastTextLevel, Shown;
    AllAppliedEvidence(first, es, ds);
    forall side: Side, price: Price
      ensures Shown(p.book, side, price) ==
              TextAfter(ps, sel, side, price, LastTextLevel(ps, match side case Bid => bids case Ask => asks, price, None))
    {
      ReplayShowsText(ps, snapshot, bids, asks, sel, side, price);
    }
  }

  lemma AppliedIsZero()
    ensures ApplyCode(Applied) == 0
  {
  }

  // --------------------------------------------------------------- from the records

  /** What parsing guarantees about the updates of a market. */
  predicate RecordedFor(market: Market, records: seq<Record>) {
    forall r :: r in records && r.payload.DepthPayload? ==> Recorded(market, r.payload.depth)
  }

  lemma DepthsRecorded(market: Market, records: seq<Record>)
    requires RecordedFor(market, records) && AllDepths(Ordered(IsDepth, records))
    ensures AllRecorded(market, Depths(Ordered(IsDepth, records)))
  {
    hide Ordered, Recorded;
    OrderedHolds(IsDepth, records);
    var rs := Ordered(IsDepth, records);
    forall i | 0 <= i < |rs| ensures Recorded(market, rs[i].payload.depth) {
      assert rs[i] in rs;
    }
  }

  /**
   From recorded records to a clean replay, on every projection that is not synchronized: if a
   baseline is selected and the decimals of its workload parse, both executor paths install that
   snapshot, apply every selected update and end synchronized at the last selected id, showing at
   every side and price what the recorded text wrote there last.
   */
  lemma RecordedCorpusReplaysClean(ps: Parsers, from: Projection, market: Market, records: seq<Record>, target: nat)
    requires Valid(from) && from.policy == market && from.status != Synchronized
    requires RecordedFor(market, records) && SelectOperations(market, records, target).Ok?
    requires var choice := SelectOperations(market, records, target).value;
             choice.snapshot.payload.SnapshotPayload? ==>
               InputsValid(ps, Workload(choice.snapshot.payload.lastUpdateId, choice.snapshot.payload.bids, choice.snapshot.payload.asks, choice.selected))
    ensures var Choice(snapshot, sel) := SelectOperations(market, records, target).value;
            && snapshot in records && snapshot.payload.SnapshotPayload?
            && var SnapshotPayload(id, bids, asks) := snapshot.payload;
            var ops := Workload(id, bids, asks, sel);
            var (p, es) := TextRun(ps, ops, from);
            && PreparedRun(PrepareAll(ps, ops), from) == (p, es)
            && |sel| == 1 + target && CleanReplay(ps, id, bids, asks, sel, p, es)
  {
    hide SelectOperations, Sync, Workload, InputsValid, TextRun, PreparedRun, PrepareAll, CleanReplay, Ordered, Depths, RecordedFor, AllRecorded;
    ChoiceSynchronizes(market, records, target);
    DepthsRecorded(market, records);
    var payload := SelectOperations(market, records, target).value.snapshot.payload;
    SynchronizedReplaysClean(ps, from, market, payload.lastUpdateId, Depths(Ordered(IsDepth, records)), target, payload.bids, payload.asks);
  }
}
