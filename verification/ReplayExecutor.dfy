/**
 The replay executor: a path that parses text into scratch buffers for every event and
 a path over events prepared once.  Decimal parsing is a parameter; the projection is
 the model of `BookProjection`.
 */
module ReplayExecutor {
  import opened Basics
  import opened OrderBook
  import opened BookProjection
  import opened ReplayChecksum
  import Synchronize

  type TextLevel = Synchronize.TextLevel
  datatype TextUpdate = TextUpdate(side: Side, price: string, quantity: string)

  datatype Operation =
    | InstallOp(last: u64, bids: seq<TextLevel>, asks: seq<TextLevel>)
    | RebaselineOp(last: u64, bids: seq<TextLevel>, asks: seq<TextLevel>)
    | DepthUpdateOp(first: u64, last: u64, previous: Option<u64>, levels: seq<TextUpdate>)
    | ResetOp
    | SnapshotRequestOp
    | MetadataOp
    | MalformedRangeOp(first: u64, last: u64)

  /** The decimal parsers at the fixture's scales. */
  datatype Parsers = Parsers(price: string -> Option<Price>, quantity: string -> Option<Quantity>)

  // -------------------------------------------------------------------- evidence

  datatype Evidence = Evidence(kind: bv64, disposition: bv64, status: bv64, updateId: bv64)

  const PARSE_ERROR: bv64 := 0xFFEE_DDCC_BBAA_9988
  const NO_UPDATE_ID: bv64 := 0xFFFF_FFFF_FFFF_FFFF
  const NO_DISPOSITION: bv64 := 0xFFFF_FFFF_FFFF_FFFE

  function KindOf(op: Operation): bv64 {
    match op
    case InstallOp(_, _, _) => 1
    case RebaselineOp(_, _, _) => 2
    case DepthUpdateOp(_, _, _, _) => 3
    case ResetOp => 4
    case SnapshotRequestOp => 5
    case MetadataOp => 6
    case MalformedRangeOp(_, _) => 7
  }

  function StatusCode(s: Status): bv64 {
    match s
    case AwaitingBaseline => 0
    case AwaitingBridge => 1
    case Synchronized => 2
    case NeedsResync => 3
  }

  function ApplyCode(d: ApplyDisposition): bv64 {
    match d
    case Applied => 0
    case IgnoredStale => 1
    case IgnoredDuplicate => 2
    case GapDetected => 3
    case ApplyRejected => 4
  }

  function InstallCode(d: InstallDisposition): bv64 {
    if d.Installed? then 0 else 1
  }

  function IdCode(id: Option<u64>): bv64 {
    if id.Some? then id.value as bv64 else NO_UPDATE_ID
  }

  function ParseFailure(kind: bv64): Evidence {
    Evidence(kind, PARSE_ERROR, NO_DISPOSITION, NO_UPDATE_ID)
  }

  function InstallEvidence(kind: bv64, p: Projection, d: InstallDisposition): Evidence {
    Evidence(kind, InstallCode(d), StatusCode(p.status), IdCode(p.last))
  }

  function ApplyEvidence(p: Projection, d: ApplyDisposition): Evidence {
    Evidence(3, ApplyCode(d), StatusCode(p.status), IdCode(p.last))
  }

  function StatusEvidence(kind: bv64, p: Projection): Evidence {
    Evidence(kind, NO_DISPOSITION, StatusCode(p.status), NO_UPDATE_ID)
  }

  function RangeEvidence(first: u64, last: u64): Evidence {
    Evidence(7, if first <= last then 1 else 0, NO_DISPOSITION, NO_UPDATE_ID)
  }

  // --------------------------------------------------------------------- parsing

  function ParseLevel(ps: Parsers, l: TextLevel): Option<Level> {
    match (ps.price(l.price), ps.quantity(l.quantity))
    case (Some(p), Some(q)) => Some(Level(p, q))
    case _ => None
  }

  function ParseUpdate(ps: Parsers, u: TextUpdate): Option<Update> {
    match (ps.price(u.price), ps.quantity(u.quantity))
    case (Some(p), Some(q)) => Some(Update(u.side, p, q))
    case _ => None
  }

  /** The levels parsed before the first failure. */
  function LevelPrefix(ps: Parsers, ls: seq<TextLevel>): (r: seq<Level>)
    ensures |r| <= |ls|
    ensures forall i :: 0 <= i < |r| ==> ParseLevel(ps, ls[i]) == Some(r[i])
    ensures |r| < |ls| ==> ParseLevel(ps, ls[|r|]).None?
  {
    if ls == [] || ParseLevel(ps, ls[0]).None? then []
    else [ParseLevel(ps, ls[0]).value] + LevelPrefix(ps, ls[1..])
  }

  function UpdatePrefix(ps: Parsers, us: seq<TextUpdate>): (r: seq<Update>)
    ensures |r| <= |us|
    ensures forall i :: 0 <= i < |r| ==> ParseUpdate(ps, us[i]) == Some(r[i])
    ensures |r| < |us| ==> ParseUpdate(ps, us[|r|]).None?
  {
    if us == [] || ParseUpdate(ps, us[0]).None? then []
    else [ParseUpdate(ps, us[0]).value] + UpdatePrefix(ps, us[1..])
  }

  predicate LevelsParse(ps: Parsers, ls: seq<TextLevel>) {
    forall i :: 0 <= i < |ls| ==> ParseLevel(ps, ls[i]).Some?
  }

  predicate UpdatesParse(ps: Parsers, us: seq<TextUpdate>) {
    forall i :: 0 <= i < |us| ==> ParseUpdate(ps, us[i]).Some?
  }

  // ------------------------------------------------------------------- text path

  function TextBaseline(ps: Parsers, kind: bv64, last: u64, bids: seq<TextLevel>, asks: seq<TextLevel>, p: Projection)
    : (Projection, Evidence)
  {
    if !LevelsParse(ps, bids) || !LevelsParse(ps, asks) then (p, ParseFailure(kind))
    else
      var (p', d) := Install(p, last, LevelPrefix(ps, bids), LevelPrefix(ps, asks));
      (p', InstallEvidence(kind, p', d))
  }

  function TextDepth(ps: Parsers, op: Operation, p: Projection): (Projection, Evidence)
    requires op.DepthUpdateOp? && Valid(p)
  {
    if !UpdatesParse(ps, op.levels) || op.first > op.last then (p, ParseFailure(3))
    else
      var (p', d) := Apply(p, Batch(op.first, op.last, op.previous, UpdatePrefix(ps, op.levels)));
      (p', ApplyEvidence(p', d))
  }

  /** What executing one event on its text does. */
  function TextStep(ps: Parsers, op: Operation, p: Projection): (Projection, Evidence)
    requires Valid(p)
  {
    match op
    case InstallOp(last, bids, asks) => TextBaseline(ps, 1, last, bids, asks, p)
    case RebaselineOp(last, bids, asks) => TextBaseline(ps, 2, last, bids, asks, p)
    case DepthUpdateOp(_, _, _, _) => TextDepth(ps, op, p)
    case ResetOp => (Reset(p), StatusEvidence(4, Reset(p)))
    case SnapshotRequestOp => (p, StatusEvidence(5, p))
    case MetadataOp => (p, StatusEvidence(6, p))
    case MalformedRangeOp(first, last) => (p, RangeEvidence(first, last))
  }

  // --------------------------------------------------------------- prepared path

  datatype Prepared = Prepared(
    kind: bv64, first: u64, last: u64, previous: Option<u64>, ranged: bool,
    bids: seq<Level>, asks: seq<Level>, updates: seq<Update>)

  function PrepareBaseline(ps: Parsers, kind: bv64, last: u64, bids: seq<TextLevel>, asks: seq<TextLevel>): (Prepared, bool) {
    var b := LevelPrefix(ps, bids);
    if |b| < |bids| then (Prepared(kind, 0, last, None, false, b, [], []), false)
    else
      var a := LevelPrefix(ps, asks);
      (Prepared(kind, 0, last, None, false, b, a, []), |a| == |asks|)
  }

  /** The event built once, and whether its inputs were valid. */
  function Prepare(ps: Parsers, op: Operation): (Prepared, bool) {
    match op
    case InstallOp(last, bids, asks) => PrepareBaseline(ps, 1, last, bids, asks)
    case RebaselineOp(last, bids, asks) => PrepareBaseline(ps, 2, last, bids, asks)
    case DepthUpdateOp(first, last, previous, levels) =>
      var us := UpdatePrefix(ps, levels);
      (Prepared(3, first, last, previous, first <= last, [], [], us), |us| == |levels| && first <= last)
    case MalformedRangeOp(first, last) => (Prepared(7, first, last, None, false, [], [], []), true)
    case _ => (Prepared(KindOf(op), 0, 0, None, false, [], [], []), true)
  }

  /** What executing one prepared event does. */
  function PreparedStep(e: Prepared, p: Projection): (Projection, Evidence)
    requires Valid(p)
  {
    if e.kind == 1 || e.kind == 2 then
      var (p', d) := Install(p, e.last, e.bids, e.asks);
      (p', InstallEvidence(e.kind, p', d))
    else if e.kind == 3 then
      if !e.ranged then (p, ParseFailure(3))
      else
        var (p', d) := Apply(p, Batch(e.first, e.last, e.previous, e.updates));
        (p', ApplyEvidence(p', d))
    else if e.kind == 4 then (Reset(p), StatusEvidence(4, Reset(p)))
    else if e.kind == 5 then (p, StatusEvidence(5, p))
    else if e.kind == 6 then (p, StatusEvidence(6, p))
    else (p, RangeEvidence(e.first, e.last))
  }

  // ------------------------------------------------------------------------ runs

  predicate InputsValid(ps: Parsers, ops: seq<Operation>) {
    forall i :: 0 <= i < |ops| ==> Prepare(ps, ops[i]).1
  }

  lemma TextStepValid(ps: Parsers, op: Operation, p: Projection)
    requires Valid(p)
    ensures Valid(TextStep(ps, op, p).0)
  {
    hide Install, Apply, Valid;
    match op
    case InstallOp(last, bids, asks) =>
      TransitionsKeepValid(p, last, LevelPrefix(ps, bids), LevelPrefix(ps, asks), Batch(0, 0, None, []));
    case RebaselineOp(last, bids, asks) =>
      TransitionsKeepValid(p, last, LevelPrefix(ps, bids), LevelPrefix(ps, asks), Batch(0, 0, None, []));
    case DepthUpdateOp(first, last, previous, levels) =>
      TransitionsKeepValid(p, 0, [], [], Batch(first, last, previous, UpdatePrefix(ps, levels)));
    case _ =>
      TransitionsKeepValid(p, 0, [], [], Batch(0, 0, None, []));
  }

  lemma PreparedStepValid(e: Prepared, p: Projection)
    requires Valid(p)
    ensures Valid(PreparedStep(e, p).0)
  {
    hide Install, Apply, Valid;
    TransitionsKeepValid(p, e.last, e.bids, e.asks, Batch(e.first, e.last, e.previous, e.updates));
  }

  function TextRun(ps: Parsers, ops: seq<Operation>, p: Projection): (r: (Projection, seq<Evidence>))
    requires Valid(p)
    ensures Valid(r.0)
  {
    if ops == [] then (p, [])
    else
      var (p1, es) := TextRun(ps, ops[..|ops| - 1], p);
      TextStepValid(ps, ops[|ops| - 1], p1);
      var (p2, e) := TextStep(ps, ops[|ops| - 1], p1);
      (p2, es + [e])
  }

  function PreparedRun(events: seq<Prepared>, p: Projection): (r: (Projection, seq<Evidence>))
    requires Valid(p)
    ensures Valid(r.0)
  {
    if events == [] then (p, [])
    else
      var (p1, es) := PreparedRun(events[..|events| - 1], p);
      PreparedStepValid(events[|events| - 1], p1);
      var (p2, e) := PreparedStep(events[|events| - 1], p1);
      (p2, es + [e])
  }

  function PrepareAll(ps: Parsers, ops: seq<Operation>): (events: seq<Prepared>)
    ensures |events| == |ops|
    ensures forall i :: 0 <= i < |ops| ==> events[i] == Prepare(ps, ops[i]).0
  {
    if ops == [] then [] else PrepareAll(ps, ops[..|ops| - 1]) + [Prepare(ps, ops[|ops| - 1]).0]
  }

  // -------------------------------------------------------------------- checksum

  function EvidenceValues(e: Evidence): seq<bv64> {
    [e.kind, e.disposition, e.status, e.updateId]
  }

  function FoldEvidence(checksum: bv64, es: seq<Evidence>): bv64 {
    if es == [] then checksum
    else Fold(FoldEvidence(checksum, es[..|es| - 1]), EvidenceValues(es[|es| - 1]))
  }

  function BestPrice(l: Ladder, side: Side): bv64 {
    var levels := Enumerate(l, side);
    if levels == [] then NO_UPDATE_ID else levels[0].price as bv64
  }

  /** A `std::size_t` as a checksum value. */
  function Count(n: nat): bv64 {
    (n % TWO_64) as bv64
  }

  /** The final projection state as checksum values. */
  function FinalValues(p: Projection): seq<bv64> {
    [StatusCode(p.status), IdCode(p.last),
     Count(|p.book.bids|), Count(|p.book.asks|),
     BestPrice(p.book.bids, Bid), BestPrice(p.book.asks, Ask),
     if p.status == Synchronized then 1 else 0]
  }

  function Checksum(run: (Projection, seq<Evidence>)): bv64 {
    Fold(FoldEvidence(SEED, run.1), FinalValues(run.0))
  }

  // -------------------------------------------------------------------- theorems

  lemma PrefixComplete(ps: Parsers, ls: seq<TextLevel>)
    ensures |LevelPrefix(ps, ls)| == |ls| <==> LevelsParse(ps, ls)
  {
    hide ParseLevel;
    var r := LevelPrefix(ps, ls);
    assert forall i :: 0 <= i < |r| ==> ParseLevel(ps, ls[i]) == Some(r[i]);
  }

  lemma UpdatesComplete(ps: Parsers, us: seq<TextUpdate>)
    ensures |UpdatePrefix(ps, us)| == |us| <==> UpdatesParse(ps, us)
  {
    hide ParseUpdate;
    var r := UpdatePrefix(ps, us);
    assert forall i :: 0 <= i < |r| ==> ParseUpdate(ps, us[i]) == Some(r[i]);
  }

  /** On valid inputs the two paths do the same to every projection and show the same evidence. */
  lemma PathsAgree(ps: Parsers, op: Operation, p: Projection)
    requires Valid(p) && Prepare(ps, op).1
    ensures PreparedStep(Prepare(ps, op).0, p) == TextStep(ps, op, p)
  {
    hide Install, Apply, Valid, LevelPrefix, UpdatePrefix, LevelsParse, UpdatesParse;
    match op
    case InstallOp(_, bids, asks) =>
      PrefixComplete(ps, bids);
      PrefixComplete(ps, asks);
    case RebaselineOp(_, bids, asks) =>
      PrefixComplete(ps, bids);
      PrefixComplete(ps, asks);
    case DepthUpdateOp(_, _, _, levels) => UpdatesComplete(ps, levels);
    case _ =>
  }

  lemma {:induction false} RunsAgree(ps: Parsers, ops: seq<Operation>, p: Projection)
    requires Valid(p) && InputsValid(ps, ops)
    ensures PreparedRun(PrepareAll(ps, ops), p) == TextRun(ps, ops, p)
    ensures Checksum(PreparedRun(PrepareAll(ps, ops), p)) == Checksum(TextRun(ps, ops, p))
  {
    hide TextStep, PreparedStep, Prepare, Valid, Checksum;
    if ops != [] {
      var init, op := ops[..|ops| - 1], ops[|ops| - 1];
      RunsAgree(ps, init, p);
      var all := PrepareAll(ps, ops);
      assert all[..|all| - 1] == PrepareAll(ps, init);
      PathsAgree(ps, op, TextRun(ps, init, p).0);
    }
  }

  // ---------------------------------------------------------- checksum sensitivity

  lemma {:induction false} FoldEvidenceInjective(c: bv64, d: bv64, es: seq<Evidence>)
    requires FoldEvidence(c, es) == FoldEvidence(d, es)
    ensures c == d
  {
    hide Fold, EvidenceValues;
    if es != [] {
      var init, values := es[..|es| - 1], EvidenceValues(es[|es| - 1]);
      FoldInjective(FoldEvidence(c, init), FoldEvidence(d, init), values);
      FoldEvidenceInjective(c, d, init);
    }
  }

  lemma {:induction false} FoldEvidenceSplit(c: bv64, a: seq<Evidence>, b: seq<Evidence>)
    ensures FoldEvidence(c, a + b) == FoldEvidence(FoldEvidence(c, a), b)
    decreases |b|
  {
    hide Fold, EvidenceValues;
    if b == [] {
      assert a + b == a;
    } else {
      var n := |b| - 1;
      assert (a + b)[..|a + b| - 1] == a + b[..n];
      FoldEvidenceSplit(c, a, b[..n]);
    }
  }

  lemma FoldOneEvidence(c: bv64, pre: seq<Evidence>, e: Evidence, post: seq<Evidence>)
    ensures FoldEvidence(c, pre + [e] + post) ==
            FoldEvidence(Fold(FoldEvidence(c, pre), EvidenceValues(e)), post)
  {
    hide Fold, EvidenceValues;
    FoldEvidenceSplit(c, pre + [e], post);
    assert (pre + [e])[..|pre|] == pre;
  }

  /** Changing one byte of one field of one event's evidence always changes the checksum of the run. */
  lemma EvidenceByteChangeDetected(p: Projection, es: seq<Evidence>, i: nat, e: Evidence, f: nat, j: nat)
    requires i < |es| && f < 4
    requires EvidenceValues(e) == EvidenceValues(es[i])[f := EvidenceValues(e)[f]]
    requires DifferInByte(EvidenceValues(es[i])[f], EvidenceValues(e)[f], j)
    ensures Checksum((p, es)) != Checksum((p, es[i := e]))
  {
    hide Fold, FoldEvidence, DifferInByte, FinalValues;
    var pre, post, values := es[..i], es[i + 1..], EvidenceValues(es[i]);
    assert es == pre + [es[i]] + post && es[i := e] == pre + [e] + post;
    FoldOneEvidence(SEED, pre, es[i], post);
    FoldOneEvidence(SEED, pre, e, post);
    var mid := FoldEvidence(SEED, pre);
    OneByteChangeDetected(mid, values, f, EvidenceValues(e)[f], j);
    if Checksum((p, es)) == Checksum((p, es[i := e])) {
      FoldInjective(FoldEvidence(SEED, es), FoldEvidence(SEED, es[i := e]), FinalValues(p));
      FoldEvidenceInjective(Fold(mid, values), Fold(mid, EvidenceValues(e)), post);
    }
  }

  lemma StatusCodesDiffer(s: Status, t: Status)
    requires s != t
    ensures DifferInByte(StatusCode(s), StatusCode(t), 0)
  {
  }

  // ------------------------------------------------------------------ the executor

  /** The scratch space an operation needs: book levels, and updates. */
  function LevelNeed(op: Operation): nat {
    match op
    case InstallOp(_, bids, asks) => |bids| + |asks|
    case RebaselineOp(_, bids, asks) => |bids| + |asks|
    case _ => 0
  }

  function UpdateNeed(op: Operation): nat {
    if op.DepthUpdateOp? then |op.levels| else 0
  }

  method ScratchSizes(ops: seq<Operation>) returns (levels: nat, updates: nat)
    ensures forall i :: 0 <= i < |ops| ==> LevelNeed(ops[i]) <= levels && UpdateNeed(ops[i]) <= updates
  {
    levels, updates := 0, 0;
    for k := 0 to |ops|
      invariant forall i :: 0 <= i < k ==> LevelNeed(ops[i]) <= levels && UpdateNeed(ops[i]) <= updates
    {
      if LevelNeed(ops[k]) > levels {
        levels := LevelNeed(ops[k]);
      }
      if UpdateNeed(ops[k]) > updates {
        updates := UpdateNeed(ops[k]);
      }
    }
  }

  /** `fold_evidence`: four values in order. */
  method AppendEvidence(checksum: bv64, e: Evidence) returns (c: bv64)
    ensures c == Fold(checksum, EvidenceValues(e))
  {
    hide Append;
    var c1 := ChecksumAppend(checksum, e.kind);
    var c2 := ChecksumAppend(c1, e.disposition);
    var c3 := ChecksumAppend(c2, e.status);
    c := ChecksumAppend(c3, e.updateId);
    var v := EvidenceValues(e);
    assert v[1..] == [e.disposition, e.status, e.updateId] && v[1..][1..] == [e.status, e.updateId];
    assert [e.status, e.updateId][1..] == [e.updateId] && [e.updateId][1..] == [];
    assert Fold(c3, [e.updateId]) == Fold(c, []);
    assert Fold(c2, [e.status, e.updateId]) == Fold(c3, [e.updateId]);
    assert Fold(c1, v[1..]) == Fold(c2, [e.status, e.updateId]);
  }

  class CoreReplayExecutor {
    const ops: seq<Operation>
    const ps: Parsers
    const scratchLevels: array<Level>
    const scratchUpdates: array<Update>
    var prepared: seq<Prepared>
    var inputsValid: bool

    ghost predicate Ready()
      reads this
    {
      && (forall i :: 0 <= i < |ops| ==>
            LevelNeed(ops[i]) <= scratchLevels.Length && UpdateNeed(ops[i]) <= scratchUpdates.Length)
      && prepared == PrepareAll(ps, ops)
      && inputsValid == InputsValid(ps, ops)
    }

    constructor (ops: seq<Operation>, ps: Parsers)
      ensures this.ops == ops && this.ps == ps && Ready()
      ensures fresh(scratchLevels) && fresh(scratchUpdates)
    {
      hide Prepare;
      var levels, updates := ScratchSizes(ops);
      this.ops, this.ps := ops, ps;
      scratchLevels := new Level[levels](_ => Level(1, 1));
      scratchUpdates := new Update[updates](_ => Update(Bid, 1, 1));
      prepared, inputsValid := [], true;
      new;
      for i := 0 to |ops|
        modifies this
        invariant prepared == PrepareAll(ps, ops[..i])
        invariant inputsValid == InputsValid(ps, ops[..i])
      {
        var (event, valid) := Prepare(ps, ops[i]);
        assert ops[..i + 1][..i] == ops[..i];
        assert InputsValid(ps, ops[..i + 1]) <==> InputsValid(ps, ops[..i]) && valid by {
          assert ops[..i + 1][i] == ops[i];
          assert forall k :: 0 <= k < i ==> ops[..i + 1][k] == ops[..i][k];
        }
        prepared := prepared + [event];
        inputsValid := valid && inputsValid;
      }
      assert ops[..|ops|] == ops;
    }

    /** Parses into the scratch from an offset; earlier cells keep their contents. */
    method ParseLevels(ls: seq<TextLevel>, offset: nat) returns (ok: bool)
      requires offset + |ls| <= scratchLevels.Length
      modifies scratchLevels
      ensures ok == LevelsParse(ps, ls)
      ensures ok ==> scratchLevels[offset..offset + |ls|] == LevelPrefix(ps, ls)
      ensures scratchLevels[..offset] == old(scratchLevels[..offset])
    {
      hide ParseLevel;
      for position := 0 to |ls|
        invariant forall i :: 0 <= i < position ==> ParseLevel(ps, ls[i]) == Some(scratchLevels[offset + i])
        invariant scratchLevels[..offset] == old(scratchLevels[..offset])
      {
        var level := ParseLevel(ps, ls[position]);
        if level.None? {
          return false;
        }
        scratchLevels[offset + position] := level.value;
      }
      PrefixComplete(ps, ls);
      return true;
    }

    method ParseUpdates(us: seq<TextUpdate>) returns (ok: bool)
      requires |us| <= scratchUpdates.Length
      modifies scratchUpdates
      ensures ok == UpdatesParse(ps, us)
      ensures ok ==> scratchUpdates[..|us|] == UpdatePrefix(ps, us)
    {
      hide ParseUpdate;
      for index := 0 to |us|
        invariant forall i :: 0 <= i < index ==> ParseUpdate(ps, us[i]) == Some(scratchUpdates[i])
      {
        var update := ParseUpdate(ps, us[index]);
        if update.None? {
          return false;
        }
        scratchUpdates[index] := update.value;
      }
      UpdatesComplete(ps, us);
      return true;
    }

    method ExecuteBaseline(m: Machine, kind: bv64, last: u64, bids: seq<TextLevel>, asks: seq<TextLevel>) returns (e: Evidence)
      requires m.Ok() && |bids| + |asks| <= scratchLevels.Length
      modifies m, scratchLevels
      ensures m.Ok() && (m.View(), e) == TextBaseline(ps, kind, last, bids, asks, old(m.View()))
    {
      hide Install, Valid;
      var bidsOk := ParseLevels(bids, 0);
      if !bidsOk {
        return ParseFailure(kind);
      }
      assert scratchLevels[..|bids|] == scratchLevels[0..0 + |bids|];
      var asksOk := ParseLevels(asks, |bids|);
      if !asksOk {
        return ParseFailure(kind);
      }
      var d := m.InstallBaseline(last, scratchLevels[..|bids|], scratchLevels[|bids|..|bids| + |asks|]);
      return Evidence(kind, InstallCode(d), StatusCode(m.status), IdCode(m.last));
    }

    method ExecuteDepthUpdate(m: Machine, op: Operation) returns (e: Evidence)
      requires m.Ok() && op.DepthUpdateOp? && |op.levels| <= scratchUpdates.Length
      modifies m, scratchUpdates
      ensures m.Ok() && (m.View(), e) == TextDepth(ps, op, old(m.View()))
    {
      hide Apply;
      var parsed := ParseUpdates(op.levels);
      if !parsed || op.first > op.last {
        return ParseFailure(3);
      }
      var d := m.ApplyBatch(Batch(op.first, op.last, op.previous, scratchUpdates[..|op.levels|]));
      return Evidence(3, ApplyCode(d), StatusCode(m.status), IdCode(m.last));
    }

    /** The text path: whatever earlier events left in the scratch never reaches the projection. */
    method ExecuteEvent(m: Machine, i: nat) returns (e: Evidence)
      requires Ready() && m.Ok() && i < |ops|
      modifies m, scratchLevels, scratchUpdates
      ensures m.Ok() && (m.View(), e) == TextStep(ps, ops[i], old(m.View()))
    {
      hide TextBaseline, TextDepth, Valid;
      var op := ops[i];
      assert LevelNeed(op) <= scratchLevels.Length && UpdateNeed(op) <= scratchUpdates.Length;
      match op
      case InstallOp(last, bids, asks) =>
        e := ExecuteBaseline(m, 1, last, bids, asks);
      case RebaselineOp(last, bids, asks) =>
        e := ExecuteBaseline(m, 2, last, bids, asks);
      case DepthUpdateOp(_, _, _, _) =>
        e := ExecuteDepthUpdate(m, op);
      case ResetOp =>
        m.ResetAll();
        e := Evidence(4, NO_DISPOSITION, StatusCode(m.status), NO_UPDATE_ID);
      case SnapshotRequestOp =>
        e := Evidence(5, NO_DISPOSITION, StatusCode(m.status), NO_UPDATE_ID);
      case MetadataOp =>
        e := Evidence(6, NO_DISPOSITION, StatusCode(m.status), NO_UPDATE_ID);
      case MalformedRangeOp(first, last) =>
        e := RangeEvidence(first, last);
    }

    /** The prepared path; with valid inputs it is the text path, whatever the projection. */
    method ExecutePreparedEvent(m: Machine, i: nat) returns (e: Evidence)
      requires Ready() && m.Ok() && i < |ops|
      modifies m
      ensures m.Ok() && (m.View(), e) == PreparedStep(prepared[i], old(m.View()))
      ensures inputsValid ==> (m.View(), e) == TextStep(ps, ops[i], old(m.View()))
    {
      hide Install, Apply, Valid, TextStep, Prepare;
      ghost var before := m.View();
      var event := prepared[i];
      if event.kind == 1 || event.kind == 2 {
        var d := m.InstallBaseline(event.last, event.bids, event.asks);
        e := Evidence(event.kind, InstallCode(d), StatusCode(m.status), IdCode(m.last));
      } else if event.kind == 3 {
        if !event.ranged {
          e := ParseFailure(3);
        } else {
          var d := m.ApplyBatch(Batch(event.first, event.last, event.previous, event.updates));
          e := Evidence(3, ApplyCode(d), StatusCode(m.status), IdCode(m.last));
        }
      } else if event.kind == 4 {
        m.ResetAll();
        e := StatusEvidence(4, m.View());
      } else if event.kind == 5 {
        e := StatusEvidence(5, m.View());
      } else if event.kind == 6 {
        e := StatusEvidence(6, m.View());
      } else {
        e := RangeEvidence(event.first, event.last);
      }
      if inputsValid {
        PathsAgree(ps, ops[i], before);
      }
    }

    /** `run`: the checksum over the whole workload on the text path. */
    method Run(m: Machine) returns (checksum: bv64)
      requires Ready() && m.Ok()
      modifies m, scratchLevels, scratchUpdates
      ensures m.Ok() && m.View() == TextRun(ps, ops, old(m.View())).0
      ensures checksum == Checksum(TextRun(ps, ops, old(m.View())))
    {
      hide TextStep, Fold, Valid, FinalValues;
      checksum := SEED;
      ghost var start := m.View();
      for index := 0 to |ops|
        invariant m.Ok()
        invariant m.View() == TextRun(ps, ops[..index], start).0
        invariant checksum == FoldEvidence(SEED, TextRun(ps, ops[..index], start).1)
      {
        assert ops[..index + 1][..index] == ops[..index];
        var e := ExecuteEvent(m, index);
        ghost var es := TextRun(ps, ops[..index], start).1;
        assert (es + [e])[..|es|] == es;
        checksum := AppendEvidence(checksum, e);
      }
      assert ops[..|ops|] == ops;
      checksum := Fold(checksum, FinalValues(m.View()));
    }

    /** The latency driver's pass: the same checksum from the prepared events alone. */
    method RunPrepared(m: Machine) returns (checksum: bv64)
      requires Ready() && m.Ok()
      modifies m
      ensures m.Ok() && m.View() == PreparedRun(prepared, old(m.View())).0
      ensures checksum == Checksum(PreparedRun(prepared, old(m.View())))
      ensures inputsValid ==> m.View() == TextRun(ps, ops, old(m.View())).0
      ensures inputsValid ==> checksum == Checksum(TextRun(ps, ops, old(m.View())))
    {
      hide PreparedStep, TextStep, Fold, Valid, FinalValues, Prepare;
      checksum := SEED;
      ghost var start := m.View();
      for index := 0 to |ops|
        invariant m.Ok()
        invariant m.View() == PreparedRun(prepared[..index], start).0
        invariant checksum == FoldEvidence(SEED, PreparedRun(prepared[..index], start).1)
      {
        assert prepared[..index + 1][..index] == prepared[..index];
        var e := ExecutePreparedEvent(m, index);
        ghost var es := PreparedRun(prepared[..index], start).1;
        assert (es + [e])[..|es|] == es;
        checksum := AppendEvidence(checksum, e);
      }
      assert prepared[..|ops|] == prepared;
      checksum := Fold(checksum, FinalValues(m.View()));
      if inputsValid {
        RunsAgree(ps, ops, start);
      }
    }
  }
}
