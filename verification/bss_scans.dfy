/**
 How results reach the BSS table: both callers drop the ones that the BSSID filter rejects before
 they hand in the rest.
 */
module BssScans {

  import opened Wrappers
  import opened BssModel
  import opened BssTerms
  import opened BssInvariant
  import opened BssRuns
  import opened BssContents

  /** A scan result with the answer the allocator will give. */
  datatype Arrival = Arrival(res: ScanRes, alloc: Alloc)

  /** The results that the filter lets through. */
  ghost function Accepted(filter: Option<seq<Mac>>, raw: seq<Arrival>): (r: seq<Arrival>)
    ensures forall i :: 0 <= i < |r| ==> Passes(filter, r[i].res.bssid)
  {
    if raw == [] then []
    else
      var last := raw[|raw| - 1];
      Accepted(filter, raw[..|raw| - 1]) + if Passes(filter, last.res.bssid) then [last] else []
  }

  /** They are the ones whose BSSID the filter lists, or all of them without a filter. */
  lemma {:induction false} AcceptedAre(filter: Option<seq<Mac>>, raw: seq<Arrival>, a: Arrival)
    ensures a in Accepted(filter, raw) <==> a in raw && Listed(filter, a.res.bssid)
  {
    if raw != [] {
      AcceptedAre(filter, raw[..|raw| - 1], a);
      assert raw == raw[..|raw| - 1] + [raw[|raw| - 1]];
    }
  }

  ghost function Results(arrivals: seq<Arrival>, fetch: RelTime): (ops: seq<Op>)
    ensures |ops| == |arrivals|
    ensures forall i :: 0 <= i < |ops| ==> ops[i] == Result(arrivals[i].res, fetch, arrivals[i].alloc)
  {
    seq(|arrivals|, i requires 0 <= i < |arrivals| => Result(arrivals[i].res, fetch, arrivals[i].alloc))
  }

  /** The operations of an update round. */
  ghost function Round(arrivals: seq<Arrival>, fetch: RelTime, info: Option<ScanInfo>, newScan: bool): (ops: seq<Op>)
    ensures |ops| == |arrivals| + 2 && ops[0] == Begin && ops[|arrivals| + 1] == Finish(info, newScan)
    ensures forall i :: 0 <= i < |arrivals| ==> ops[i + 1] == Result(arrivals[i].res, fetch, arrivals[i].alloc)
  {
    [Begin] + Results(arrivals, fetch) + [Finish(info, newScan)]
  }

  // ---- keys ----

  /** An operation of a round, its result let through by the filter. */
  ghost predicate Screened(filter: Option<seq<Mac>>, op: Op)
  {
    op.Begin? || op.Finish? || (op.Result? && Passes(filter, op.res.bssid))
  }

  lemma {:induction false} ScreenedRun(t: Table, ops: seq<Op>)
    requires forall i :: 0 <= i < |ops| ==> Screened(t.cfg.filter, ops[i])
    ensures Filtered(t, ops) && Run(t, ops).cfg == t.cfg
  {
    if ops != [] {
      ScreenedRun(t, ops[..|ops| - 1]);
      CfgStays(Run(t, ops[..|ops| - 1]), ops[|ops| - 1]);
    }
  }

  lemma CfgStays(t: Table, op: Op)
    requires !op.Reconfigure?
    ensures Step(t, op).cfg == t.cfg
  {
  }

  /** A round of results that were filtered first keeps keys unique. */
  lemma RoundKeys(t: Table, raw: seq<Arrival>, fetch: RelTime, info: Option<ScanInfo>, newScan: bool)
    requires KeysUnique(t.bss)
    ensures KeysUnique(Run(t, Round(Accepted(t.cfg.filter, raw), fetch, info, newScan)).bss)
  {
    var arrivals := Accepted(t.cfg.filter, raw);
    var ops := Round(arrivals, fetch, info, newScan);
    forall i | 0 <= i < |ops|
      ensures Screened(t.cfg.filter, ops[i])
    {
      if 0 < i <= |arrivals| {
        assert ops[i - 1 + 1] == Result(arrivals[i - 1].res, fetch, arrivals[i - 1].alloc);
      }
    }
    ScreenedRun(t, ops);
    RunKeys(t, ops);
  }

  lemma DeliveryKeys(t: Table, raw: seq<Arrival>, fetch: RelTime)
    requires KeysUnique(t.bss)
    ensures KeysUnique(Run(t, Results(Accepted(t.cfg.filter, raw), fetch)).bss)
  {
    var ops := Results(Accepted(t.cfg.filter, raw), fetch);
    ScreenedRun(t, ops);
    RunKeys(t, ops);
  }

  // ---- everything that happens to a table ----

  /** A scan with its round, results picked for a transition request, or anything but a result. */
  datatype Event =
    | Scan(raw: seq<Arrival>, fetch: RelTime, info: Option<ScanInfo>, newScan: bool)
    | Delivery(raw: seq<Arrival>, fetch: RelTime)
    | Around(op: Op)

  ghost function Ops(t: Table, e: Event): seq<Op>
  {
    match e
    case Scan(raw, fetch, info, newScan) => Round(Accepted(t.cfg.filter, raw), fetch, info, newScan)
    case Delivery(raw, fetch) => Results(Accepted(t.cfg.filter, raw), fetch)
    case Around(op) => [op]
  }

  ghost function After(t: Table, es: seq<Event>): Table
  {
    if es == [] then t
    else
      var before := After(t, es[..|es| - 1]);
      Run(before, Ops(before, es[|es| - 1]))
  }

  /** Whatever happens, no two entries have the same BSSID and SSID. */
  lemma {:induction false} KeysStayUnique(t: Table, es: seq<Event>)
    requires KeysUnique(t.bss) && forall i :: 0 <= i < |es| && es[i].Around? ==> !es[i].op.Result?
    ensures KeysUnique(After(t, es).bss)
  {
    if es != [] {
      var before := After(t, es[..|es| - 1]);
      KeysStayUnique(t, es[..|es| - 1]);
      match es[|es| - 1]
      case Scan(raw, fetch, info, newScan) => RoundKeys(before, raw, fetch, info, newScan);
      case Delivery(raw, fetch) => DeliveryKeys(before, raw, fetch);
      case Around(op) =>
        OneStep(before, op);
        StepKeys(before, op);
    }
  }

  lemma OneStep(t: Table, op: Op)
    ensures Run(t, [op]) == Step(t, op)
  {
    assert [op][..0] == [];
  }
}
