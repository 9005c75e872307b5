/**
 Whole runs of the BSS table: every sequence of update rounds, results, flushes and changes made
 around the table.
 */
module BssRuns {

  import opened Wrappers
  import opened BssModel
  import opened BssInvariant

  datatype Op =
    | Begin
    | Result(res: ScanRes, fetch: RelTime, alloc: Alloc)
    | Finish(info: Option<ScanInfo>, newScan: bool)
    | FlushAll
    | FlushOld(limit: RelTime)
    | Roam(to: Option<Current>)
    | Reconfigure(cfg: Config)
    | Schedule(works: seq<Work>)
    | SetCounts(max: nat, expire: nat)

  function Step(t: Table, op: Op): Table
  {
    match op
    case Begin => Start(t)
    case Result(res, fetch, alloc) => ScanResult(t, res, fetch, alloc)
    case Finish(info, newScan) => End(t, info, newScan)
    case FlushAll => Flush(t)
    case FlushOld(limit) => FlushByAge(t, limit)
    case Roam(to) => t.(current := to)
    case Reconfigure(cfg) => t.(cfg := cfg)
    case Schedule(works) => t.(works := works)
    case SetCounts(max, expire) => t.(maxCount := max, expireCount := expire)
  }

  function Run(t: Table, ops: seq<Op>): Table
  {
    if ops == [] then t else Step(Run(t, ops[..|ops| - 1]), ops[|ops| - 1])
  }

  /** New pointers are to entries of the table. */
  ghost predicate Sound(t: Table, op: Op)
  {
    && (op.Roam? ==> CurrentLive(t.(current := op.to)))
    && (op.Schedule? ==> WorksLive(t.(works := op.works)))
  }

  ghost predicate SoundRun(t: Table, ops: seq<Op>)
  {
    ops != [] ==> SoundRun(t, ops[..|ops| - 1]) && Sound(Run(t, ops[..|ops| - 1]), ops[|ops| - 1])
  }

  lemma RunSnoc(t: Table, ops: seq<Op>, op: Op)
    ensures Run(t, ops + [op]) == Step(Run(t, ops), op)
    ensures SoundRun(t, ops + [op]) <==> SoundRun(t, ops) && Sound(Run(t, ops), op)
  {
    assert (ops + [op])[..|ops|] == ops;
  }

  function Empty(maxCount: nat, expireCount: nat, cfg: Config): (t: Table)
    ensures Inv(t) && CurrentLive(t) && WorksLive(t) && KeysUnique(t.bss)
  {
    Table([], 0, 0, 0, [], None, [], maxCount, expireCount, cfg)
  }

  // ---- the invariant holds in every reachable state ----

  lemma StepKeepsInv(t: Table, op: Op)
    requires Inv(t) && Sound(t, op)
    ensures Inv(Step(t, op))
  {
    match op
    case Begin =>
    case Result(res, fetch, alloc) => ScanResultKeeps(t, res, fetch, alloc);
    case Finish(info, newScan) => EndKeeps(t, info, newScan);
    case FlushAll => FlushKeeps(t);
    case FlushOld(limit) => FlushByAgeKeeps(t, limit);
    case Roam(to) =>
    case Reconfigure(cfg) =>
    case Schedule(works) =>
    case SetCounts(max, expire) =>
  }

  lemma {:induction false} RunKeepsInv(t: Table, ops: seq<Op>)
    requires Inv(t) && SoundRun(t, ops)
    ensures Inv(Run(t, ops))
  {
    if ops != [] {
      RunKeepsInv(t, ops[..|ops| - 1]);
      StepKeepsInv(Run(t, ops[..|ops| - 1]), ops[|ops| - 1]);
    }
  }
}
