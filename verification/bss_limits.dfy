/**
 The limit on the number of entries and the expiration count. Both can be set at any time, also below
 what the table holds, so they bound the table only as far as the changes let them.
 */
module BssLimits {

  import opened Wrappers
  import opened BssModel
  import opened BssTerms
  import opened BssInvariant
  import opened BssRuns
  import opened BssContents
  import opened BssExpiry

  /** A count of missed scans that does not make an entry expire. */
  predicate Below(miss: nat, count: nat)
  {
    miss == 0 || miss < count
  }

  ghost predicate MissesBelow(bss: seq<Entry>, count: nat)
  {
    forall i :: 0 <= i < |bss| ==> Below(bss[i].scanMiss, count)
  }

  /** No more entries than the limit, and none that should have expired. */
  ghost predicate Bounded(t: Table)
  {
    |t.bss| <= t.maxCount && MissesBelow(t.bss, t.expireCount)
  }

  /** New counts, if the operation sets any, are not below what the table holds. */
  ghost predicate Fits(t: Table, op: Op)
  {
    op.SetCounts? ==> |t.bss| <= op.max && MissesBelow(t.bss, op.expire)
  }

  // ---- one step ----

  /** A table grows only up to its limit; one that is over it does not grow at all. */
  lemma StepSize(t: Table, op: Op)
    ensures |Step(t, op).bss| <= |t.bss| || |Step(t, op).bss| <= Step(t, op).maxCount
  {
    match op
    case Finish(info, newScan) =>
      var m := SurvivorsSelect(t, info);
      LengthOfSelection(Survivors(t, info, t.bss), t.bss, m);
    case FlushAll =>
      var m := SiftSelects(t.bss, e => !InUse(t.current, t.cfg, e), e => e);
      LengthOfSelection(Busy(t, t.bss), t.bss, m);
    case FlushOld(limit) =>
      var m := YoungerSelects(t, limit, t.bss);
      LengthOfSelection(Younger(t, limit, t.bss), t.bss, m);
    case _ =>
  }

  /** A step charges no entry beyond the expiration count. */
  lemma StepMisses(t: Table, op: Op, count: nat)
    requires Inv(t) && MissesBelow(t.bss, count) && t.expireCount <= count
    ensures MissesBelow(Step(t, op).bss, count)
  {
    if op.Finish? && Completed(op.info, op.newScan) {
      var m := SurvivorsSelect(t, op.info);
      assert forall i :: 0 <= i < |m| ==> Below(Charged(t, op.info, t.bss[m[i]]).scanMiss, count);
    } else {
      forall j | 0 <= j < |Step(t, op).bss|
        ensures Below(Step(t, op).bss[j].scanMiss, count)
      {
        StepExplained(t, op, j);
      }
    }
  }

  /** An operation keeps the table bounded if and only if it does not set a count below what the
      table holds. */
  lemma StepBounded(t: Table, op: Op)
    requires Inv(t) && Bounded(t)
    ensures Bounded(Step(t, op)) <==> Fits(t, op)
  {
    if !op.SetCounts? {
      StepSize(t, op);
      StepLimit(t, op);
      StepMisses(t, op, t.expireCount);
      StepCounts(t, op);
    }
  }

  lemma StepCounts(t: Table, op: Op)
    ensures Step(t, op).expireCount == if op.SetCounts? then op.expire else t.expireCount
  {
  }

  // ---- runs ----

  /** Every state of the run is bounded. */
  ghost predicate AlwaysBounded(t: Table, ops: seq<Op>)
  {
    Bounded(Run(t, ops)) && (ops != [] ==> AlwaysBounded(t, ops[..|ops| - 1]))
  }

  /** No step of the run sets a count below what the table then holds. */
  ghost predicate AlwaysFits(t: Table, ops: seq<Op>)
  {
    ops != [] ==> AlwaysFits(t, ops[..|ops| - 1]) && Fits(Run(t, ops[..|ops| - 1]), ops[|ops| - 1])
  }

  /** The table is bounded all through a run if and only if the counts set in it always fit. */
  lemma {:induction false} RunBounded(t: Table, ops: seq<Op>)
    requires Inv(t) && Bounded(t) && SoundRun(t, ops)
    ensures AlwaysBounded(t, ops) <==> AlwaysFits(t, ops)
  {
    if ops != [] {
      var before := ops[..|ops| - 1];
      RunKeepsInv(t, before);
      RunBounded(t, before);
      if AlwaysBounded(t, before) {
        StepBounded(Run(t, before), ops[|ops| - 1]);
      }
    }
  }

  /** The highest limit that was in force at some time of the run. */
  ghost function PeakLimit(t: Table, ops: seq<Op>): nat
  {
    if ops == [] then t.maxCount
    else
      var p, now := PeakLimit(t, ops[..|ops| - 1]), Run(t, ops).maxCount;
      if now > p then now else p
  }

  /** The highest expiration count that was in force at some time of the run. */
  ghost function PeakExpire(t: Table, ops: seq<Op>): nat
  {
    if ops == [] then t.expireCount
    else
      var p, now := PeakExpire(t, ops[..|ops| - 1]), Run(t, ops).expireCount;
      if now > p then now else p
  }

  lemma PeaksCover(t: Table, ops: seq<Op>)
    ensures Run(t, ops).maxCount <= PeakLimit(t, ops) && Run(t, ops).expireCount <= PeakExpire(t, ops)
  {
  }

  /** Whatever counts are set, the table stays within the highest ones that were ever in force. */
  lemma {:induction false} RunWithinPeaks(t: Table, ops: seq<Op>)
    requires Inv(t) && Bounded(t) && SoundRun(t, ops)
    ensures |Run(t, ops).bss| <= PeakLimit(t, ops) && MissesBelow(Run(t, ops).bss, PeakExpire(t, ops))
  {
    if ops != [] {
      var before, op := ops[..|ops| - 1], ops[|ops| - 1];
      RunKeepsInv(t, before);
      RunWithinPeaks(t, before);
      PeaksCover(t, before);
      StepSize(Run(t, before), op);
      StepMisses(Run(t, before), op, PeakExpire(t, before));
    }
  }

  // ---- expiry ----

  /** As long as the counts that are set fit, an entry expires with the N-th scan in a row that
      missed it, neither earlier nor later. */
  lemma NthMissExpires(t0: Table, ops: seq<Op>, info: Option<ScanInfo>, newScan: bool, i: nat)
    requires t0.bss == [] && Inv(t0) && SoundRun(t0, ops) && AlwaysFits(t0, ops)
    requires Run(t0, ops).expireCount >= 1 && i < |Run(t0, ops).bss|
    ensures var t := Run(t0, ops); var id := t.bss[i].id;
            Present(End(t, info, newScan), id) <==>
            !(&& newScan && (info.Some? ==> !info.value.aborted) && Idle(t, t.bss[i]) && Scanned(info, t.bss[i])
              && !SeenThisRound(t0, ops, id) && MissedScans(t0, ops, id) + 1 == t.expireCount)
  {
    var t := Run(t0, ops);
    RunBounded(t0, ops);
    HistoryAgrees(t0, ops);
    ExpiryIsExact(t0, ops, info, newScan, i);
    assert Agrees(t0, ops, t.bss[i]) && Below(t.bss[i].scanMiss, t.expireCount);
  }
}
