/**
 A whole scan in memory: the scan module drops the results that the filter rejects, starts a round,
 hands in the rest and ends it.
 */
module BssRound {

  import opened Wrappers
  import opened BssModel
  import opened BssInvariant
  import opened BssRuns
  import opened BssPointers
  import opened BssScans
  import opened BssTables

  /** The invariant, and a good current pointer. */
  ghost predicate Healthy(t: Table)
  {
    // named first: the verifier then keeps the conjunction in one piece
    var all := Inv(t) && CurrentLive(t);
    all
  }

  /** Drop the results that the filter rejects, moving the others up in the array. */
  method FilterScanRes(filter: Option<seq<Mac>>, res: array<Arrival>) returns (num: nat)
    modifies res
    ensures num <= res.Length && res[..num] == Accepted(filter, old(res[..]))
  {
    ghost var raw := res[..];
    num := 0;
    var i := 0;
    while i < res.Length
      invariant num <= i <= res.Length && forall j :: i <= j < res.Length ==> res[j] == raw[j]
      invariant res[..num] == Accepted(filter, raw[..i])
    {
      assert raw[..i + 1][..i] == raw[..i];
      if filter.None? || res[i].res.bssid in filter.value {
        res[num] := res[i];
        num := num + 1;
      }
      i := i + 1;
    }
    assert raw[..i] == raw;
  }

  lemma RunPrefix(t: Table, ops: seq<Op>, i: nat)
    requires i < |ops|
    ensures Run(t, ops[..i + 1]) == Step(Run(t, ops[..i]), ops[i])
  {
    assert ops[..i + 1][..i] == ops[..i];
  }

  lemma {:induction false} NeverAt(t: Table, ops: seq<Op>, i: nat)
    requires NeverEvicts(t, ops) && i < |ops|
    ensures !Evicts(Run(t, ops[..i]), ops[i])
    decreases |ops|
  {
    if i < |ops| - 1 {
      NeverAt(t, ops[..|ops| - 1], i);
      assert ops[..|ops| - 1][..i] == ops[..i];
    }
  }

  lemma HealthyStep(t: Table, op: Op)
    requires Healthy(t) && !Evicts(t, op) && (op.Begin? || op.Result? || op.Finish?)
    ensures Healthy(Step(t, op))
  {
    StepKeepsInv(t, op);
    StepCurrent(t, op);
  }

  /** The next operation of a run keeps what the run so far has kept. */
  lemma NextStep(t: Table, ops: seq<Op>, i: nat)
    requires NeverEvicts(t, ops) && i < |ops| && Healthy(Run(t, ops[..i]))
    requires ops[i].Begin? || ops[i].Result? || ops[i].Finish?
    ensures Run(t, ops[..i + 1]) == Step(Run(t, ops[..i]), ops[i]) && Healthy(Run(t, ops[..i + 1]))
  {
    RunPrefix(t, ops, i);
    NeverAt(t, ops, i);
    HealthyStep(Run(t, ops[..i]), ops[i]);
  }

  /** The table in memory is where the first operations of a run lead. */
  ghost predicate Follows(table: BssTable, t0: Table, ops: seq<Op>, i: nat)
    reads table, table.bss, table.listed, table.lastScanRes
  {
    var there := table.Valid() && Healthy(table.view) && i <= |ops| && table.view == Run(t0, ops[..i]);
    there
  }

  method HandNext(table: BssTable, a: Arrival, fetch: RelTime, ghost t0: Table, ghost ops: seq<Op>, ghost i: nat)
    requires Follows(table, t0, ops, i) && NeverEvicts(t0, ops)
    requires i < |ops| && ops[i] == Result(a.res, fetch, a.alloc)
    modifies table, table.lastScanRes, table.listed
    ensures Follows(table, t0, ops, i + 1)
    ensures fresh({table.lastScanRes} - {old(table.lastScanRes)}) && fresh(table.listed - old(table.listed))
  {
    NextStep(t0, ops, i);
    table.UpdateScanRes(a.res, fetch, a.alloc);
  }

  /** The results of a round, one after the other. */
  method HandIn(table: BssTable, arrivals: seq<Arrival>, fetch: RelTime, ghost t0: Table, ghost ops: seq<Op>)
    requires Follows(table, t0, ops, 1) && NeverEvicts(t0, ops) && |ops| > |arrivals|
    requires forall i :: 0 <= i < |arrivals| ==> ops[i + 1] == Result(arrivals[i].res, fetch, arrivals[i].alloc)
    modifies table, table.lastScanRes, table.listed
    ensures Follows(table, t0, ops, |arrivals| + 1)
    ensures fresh({table.lastScanRes} - {old(table.lastScanRes)}) && fresh(table.listed - old(table.listed))
  {
    var i := 0;
    while i < |arrivals|
      invariant i <= |arrivals| && Follows(table, t0, ops, i + 1)
      invariant fresh({table.lastScanRes} - {old(table.lastScanRes)}) && fresh(table.listed - old(table.listed))
    {
      HandNext(table, arrivals[i], fetch, t0, ops, i + 1);
      i := i + 1;
    }
  }

  /** A round on results that passed the filter. */
  method RunRound(table: BssTable, arrivals: seq<Arrival>, fetch: RelTime, info: Option<ScanInfo>, newScan: bool)
    requires table.Valid() && Healthy(table.view) && NeverEvicts(table.view, Round(arrivals, fetch, info, newScan))
    modifies table, table.lastScanRes, table.listed
    ensures table.Valid() && Healthy(table.view)
            && table.view == Run(old(table.view), Round(arrivals, fetch, info, newScan))
  {
    ghost var t0, ops := table.view, Round(arrivals, fetch, info, newScan);
    RoundBegins(t0, ops);
    table.UpdateStart();
    HandIn(table, arrivals, fetch, t0, ops);
    RoundEnds(t0, ops, table.view);
    table.UpdateEnd(info, newScan);
  }

  lemma RoundBegins(t: Table, ops: seq<Op>)
    requires ops != [] && ops[0] == Begin && Healthy(t) && NeverEvicts(t, ops)
    ensures Run(t, ops[..1]) == Step(t, Begin) && Healthy(Step(t, Begin))
  {
    assert ops[..0] == [];
    NextStep(t, ops, 0);
  }

  lemma RoundEnds(t: Table, ops: seq<Op>, last: Table)
    requires ops != [] && ops[|ops| - 1].Finish? && NeverEvicts(t, ops) && last == Run(t, ops[..|ops| - 1])
             && Healthy(last)
    ensures Run(t, ops) == Step(last, ops[|ops| - 1]) && Healthy(Run(t, ops))
  {
    NextStep(t, ops, |ops| - 1);
    assert ops[..|ops|] == ops;
  }

  /** A scan in memory is the run of its round on the results that pass the filter. If no result
      evicts the entry the station is on, its pointer is good afterwards; keys stay unique. */
  method UpdateRound(table: BssTable, res: array<Arrival>, fetch: RelTime, info: Option<ScanInfo>, newScan: bool)
    requires table.Valid() && Healthy(table.view)
    requires NeverEvicts(table.view, Round(Accepted(table.view.cfg.filter, res[..]), fetch, info, newScan))
    modifies table, table.lastScanRes, table.listed, res
    ensures table.Valid() && Healthy(table.view)
    ensures table.view ==
            Run(old(table.view), Round(Accepted(old(table.view).cfg.filter, old(res[..])), fetch, info, newScan))
    ensures KeysUnique(old(table.view).bss) ==> KeysUnique(table.view.bss)
  {
    ghost var t0 := table.view;
    if KeysUnique(t0.bss) {
      RoundKeys(t0, res[..], fetch, info, newScan);
    }
    var num := FilterScanRes(table.cfg.filter, res);
    RunRound(table, res[..num], fetch, info, newScan);
  }

  /** While the current entry is known or a WPS candidate whenever a result arrives, no round can
      evict it. */
  lemma WantedRound(t: Table, raw: seq<Arrival>, fetch: RelTime, info: Option<ScanInfo>, newScan: bool)
    requires WantedAtResults(t, Round(Accepted(t.cfg.filter, raw), fetch, info, newScan))
    ensures NeverEvicts(t, Round(Accepted(t.cfg.filter, raw), fetch, info, newScan))
  {
    WantedNeverEvicts(t, Round(Accepted(t.cfg.filter, raw), fetch, info, newScan));
  }
}
