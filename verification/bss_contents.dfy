/**
 What the table holds: unique keys, the size limit and what eviction takes, and what flushing
 by age leaves behind.
 */
module BssContents {

  import opened BssModel
  import opened BssTerms
  import opened BssInvariant
  import opened BssRuns

  // ---- keys ----

  lemma SelectedKeys(short: seq<Entry>, long: seq<Entry>, m: seq<nat>)
    requires Selects(short, long, m) && KeysUnique(long)
    ensures KeysUnique(short)
  {
    forall i, j | 0 <= i < j < |short|
      ensures short[i].bssid != short[j].bssid || short[i].ssid != short[j].ssid
    {
      assert m[i] < m[j];
    }
  }

  lemma AppendedKeys(bss: seq<Entry>, e: Entry)
    requires KeysUnique(bss)
    ensures KeysUnique(bss + [e]) <==> Find(bss, e.bssid, e.ssid) == |bss|
  {
    var k := Find(bss, e.bssid, e.ssid);
    if k < |bss| {
      assert (bss + [e])[k] == bss[k] && (bss + [e])[|bss|] == e;
    }
  }

  lemma PreparedSelects(t: Table) returns (m: seq<nat>)
    ensures Selects(Prepared(t).bss, t.bss, m)
  {
    var k := Evictee(t);
    if |t.bss| + 1 > t.maxCount && k < |t.bss| {
      WithoutSelects(t.bss, k);
      m := Skip(|t.bss|, k);
    } else {
      m := seq(|t.bss|, i => i);
    }
  }

  /**
   A result for a BSSID that the filter rejects is never matched with an entry. It then duplicates a key if
   an entry with the key is still there once room has been made.
   */
  ghost predicate Duplicates(t: Table, res: ScanRes, fetch: RelTime, alloc: Alloc)
  {
    match FiledUnder(t.cfg, res, fetch)
    case None => false
    case Some(ssid) =>
      && !Passes(t.cfg.filter, res.bssid) && !alloc.NoMemory?
      && Find(Prepared(t).bss, res.bssid, ssid) < |Prepared(t).bss|
  }

  /** Keys stay unique exactly when the result does not bypass the lookup in this way. */
  lemma ScanResultKeys(t: Table, res: ScanRes, fetch: RelTime, alloc: Alloc)
    requires KeysUnique(t.bss)
    ensures KeysUnique(ScanResult(t, res, fetch, alloc).bss) <==> !Duplicates(t, res, fetch, alloc)
  {
    match FiledUnder(t.cfg, res, fetch)
    case None =>
    case Some(ssid) =>
      var k := Target(t, res.bssid, ssid);
      if k < |t.bss| {
        UpdateKeys(t, k, res, fetch, alloc);
      } else if !alloc.NoMemory? {
        AddKeys(t, res, fetch, ssid);
      }
  }

  lemma UpdateKeys(t: Table, k: nat, res: ScanRes, fetch: RelTime, alloc: Alloc)
    requires KeysUnique(t.bss) && k < |t.bss| && t.bss[k].bssid == res.bssid
    ensures KeysUnique(Update(t, k, res, fetch, alloc).bss)
  {
    WithoutSelects(t.bss, k);
    SelectedKeys(Without(t.bss, k), t.bss, Skip(|t.bss|, k));
    FindMisses(t.bss, k);
    AppendedKeys(Without(t.bss, k), Refreshed(t, t.bss[k], res, fetch, alloc));
  }

  lemma AddKeys(t: Table, res: ScanRes, fetch: RelTime, ssid: Ssid)
    requires KeysUnique(t.bss) && Target(t, res.bssid, ssid) == |t.bss|
    ensures KeysUnique(Add(t, ssid, res, fetch).bss) <==>
            Find(Prepared(t).bss, res.bssid, ssid) == |Prepared(t).bss|
    ensures Passes(t.cfg.filter, res.bssid) ==> Find(Prepared(t).bss, res.bssid, ssid) == |Prepared(t).bss|
  {
    var m := PreparedSelects(t);
    SelectedKeys(Prepared(t).bss, t.bss, m);
    AppendedKeys(Prepared(t).bss, NewEntry(t, ssid, res, fetch));
    if Passes(t.cfg.filter, res.bssid) {
      FindInSelection(Prepared(t).bss, t.bss, m, res.bssid, ssid);
    }
  }

  lemma FindMisses(bss: seq<Entry>, k: nat)
    requires KeysUnique(bss) && k < |bss|
    ensures Find(Without(bss, k), bss[k].bssid, bss[k].ssid) == |bss| - 1
  {
  }

  lemma FindInSelection(short: seq<Entry>, long: seq<Entry>, m: seq<nat>, bssid: Mac, ssid: Ssid)
    requires Selects(short, long, m) && Find(long, bssid, ssid) == |long|
    ensures Find(short, bssid, ssid) == |short|
  {
    forall i | 0 <= i < |short|
      ensures short[i].bssid != bssid || short[i].ssid != ssid
    {
      assert long[m[i]].bssid == short[i].bssid && long[m[i]].ssid == short[i].ssid;
    }
  }

  /** Every result of the run passed the filter in force when it arrived. */
  predicate Filtered(t: Table, ops: seq<Op>)
  {
    ops != [] ==>
      && Filtered(t, ops[..|ops| - 1])
      && (ops[|ops| - 1].Result? ==> Passes(Run(t, ops[..|ops| - 1]).cfg.filter, ops[|ops| - 1].res.bssid))
  }

  /** In every run whose results passed the filter, keys are unique. */
  lemma {:induction false} RunKeys(t: Table, ops: seq<Op>)
    requires KeysUnique(t.bss) && Filtered(t, ops)
    ensures KeysUnique(Run(t, ops).bss)
  {
    if ops != [] {
      RunKeys(t, ops[..|ops| - 1]);
      StepKeys(Run(t, ops[..|ops| - 1]), ops[|ops| - 1]);
    }
  }

  lemma StepKeys(t: Table, op: Op)
    requires KeysUnique(t.bss)
    requires op.Result? ==> Passes(t.cfg.filter, op.res.bssid)
    ensures KeysUnique(Step(t, op).bss)
  {
    match op
    case Result(res, fetch, alloc) => ScanResultKeys(t, res, fetch, alloc);
    case Finish(info, newScan) =>
      var m := SurvivorsSelect(t, info);
      SelectedKeys(Survivors(t, info, t.bss), t.bss, m);
    case FlushAll =>
      var m := SiftSelects(t.bss, e => !InUse(t.current, t.cfg, e), e => e);
      SelectedKeys(Busy(t, t.bss), t.bss, m);
    case FlushOld(limit) =>
      var m := YoungerSelects(t, limit, t.bss);
      SelectedKeys(Younger(t, limit, t.bss), t.bss, m);
    case _ =>
  }

  // ---- the limit ----

  /**
   What a full table does for a new entry: it drops one entry. That one is unwanted and no unwanted entry was
   updated in an earlier round; or nothing is unwanted, it is idle, and no idle entry was updated earlier.
   Only if everything is wanted and in use is the limit raised instead, by as much as needed.
   */
  lemma FullTable(t: Table)
    requires Inv(t) && |t.bss| + 1 > t.maxCount
    ensures var t' := Prepared(t);
            if forall i :: 0 <= i < |t.bss| ==> Wanted(t.cfg, t.bss[i]) && InUse(t.current, t.cfg, t.bss[i]) then
              t'.bss == t.bss && t'.maxCount == |t.bss| + 1
            else
              exists k :: 0 <= k < |t.bss| && t'.bss == Without(t.bss, k) && t'.maxCount == t.maxCount
                          && Evictable(t, k)
  {
    if Evictee(t) < |t.bss| {
      EvicteeIsEvictable(t);
    }
  }

  lemma EvicteeIsEvictable(t: Table)
    requires InUpdateOrder(t.bss, t.updateIdx) && Evictee(t) < |t.bss|
    ensures Evictable(t, Evictee(t))
  {
    var u, d := OldestUnwanted(t.cfg, t.bss), OldestIdle(t.current, t.cfg, t.bss);
    if u < |t.bss| {
      FirstIsOldest(t.bss, t.updateIdx, u, e => Wanted(t.cfg, e));
    } else {
      FirstIsOldest(t.bss, t.updateIdx, d, e => InUse(t.current, t.cfg, e));
    }
  }

  /** The first entry without a property was updated no later than any other without it. */
  lemma FirstIsOldest(bss: seq<Entry>, updateIdx: nat, k: nat, p: Entry -> bool)
    requires InUpdateOrder(bss, updateIdx) && k < |bss| && forall j :: 0 <= j < k ==> p(bss[j])
    ensures forall i :: 0 <= i < |bss| && !p(bss[i]) ==> bss[k].lastUpdateIdx <= bss[i].lastUpdateIdx
  {
  }

  ghost predicate Evictable(t: Table, k: nat)
    requires k < |t.bss|
  {
    if exists i :: 0 <= i < |t.bss| && !Wanted(t.cfg, t.bss[i]) then
      && !Wanted(t.cfg, t.bss[k])
      && forall i :: 0 <= i < |t.bss| && !Wanted(t.cfg, t.bss[i]) ==> t.bss[k].lastUpdateIdx <= t.bss[i].lastUpdateIdx
    else
      && !InUse(t.current, t.cfg, t.bss[k])
      && forall i :: 0 <= i < |t.bss| && !InUse(t.current, t.cfg, t.bss[i]) ==>
           t.bss[k].lastUpdateIdx <= t.bss[i].lastUpdateIdx
  }

  /** Unless it is set, the limit never goes down, and goes up only in a step that finds every entry
      wanted and in use. */
  lemma StepLimit(t: Table, op: Op)
    ensures Step(t, op).maxCount >= t.maxCount || op.SetCounts?
    ensures Step(t, op).maxCount > t.maxCount && !op.SetCounts? ==>
              forall i :: 0 <= i < |t.bss| ==> Wanted(t.cfg, t.bss[i]) && InUse(t.current, t.cfg, t.bss[i])
  {
    assert Evictee(t) == |t.bss| ==>
        forall i :: 0 <= i < |t.bss| ==> Wanted(t.cfg, t.bss[i]) && InUse(t.current, t.cfg, t.bss[i]);
  }

  // ---- flushing ----

  /** A flush leaves exactly the entries that are not idle. */
  lemma FlushLeaves(t: Table, e: Entry)
    ensures e in Flush(t).bss <==> e in t.bss && !Idle(t, e)
  {
    IdleIs(t, e);
    var drop := (x: Entry) => !InUse(t.current, t.cfg, x);
    var m := SiftSelects(t.bss, drop, x => x);
    if e in t.bss && !Idle(t, e) {
      var k :| 0 <= k < |t.bss| && t.bss[k] == e;
      SiftComplete(t.bss, drop, x => x, k);
    }
  }

  // ---- flushing by age ----

  /** Flushing by age only removes stale entries. */
  lemma FlushByAgeRemovesStale(t: Table, limit: RelTime, e: Entry)
    requires e in t.bss && !Stale(t, limit, e)
    ensures e in FlushByAge(t, limit).bss
  {
    var k :| 0 <= k < |t.bss| && t.bss[k] == e;
    var n := FirstFresh(t, limit, t.bss);
    if k < n {
      SiftComplete(t.bss[..n], e => Stale(t, limit, e), e => e, k);
    } else {
      assert e in t.bss[n..];
    }
  }

  /**
   Flushing by age removes every stale entry exactly when no stale entry comes after an idle one that is not old:
   the table is ordered by update, and results may be reported with any age.
   */
  lemma FlushByAgeComplete(t: Table, limit: RelTime)
    ensures (forall e :: e in FlushByAge(t, limit).bss ==> !Stale(t, limit, e)) <==>
            forall i, j :: 0 <= i < j < |t.bss| && Stale(t, limit, t.bss[j]) ==>
                             InUse(t.current, t.cfg, t.bss[i]) || Before(t.bss[i].lastUpdate, limit)
  {
    var n := FirstFresh(t, limit, t.bss);
    var left := FlushByAge(t, limit).bss;
    var m := SiftSelects(t.bss[..n], e => Stale(t, limit, e), e => e);
    forall e | e in left && e !in t.bss[n..]
      ensures !Stale(t, limit, e)
    {
      var head := Sift(t.bss[..n], e => Stale(t, limit, e), e => e);
      var i :| 0 <= i < |head| && head[i] == e;
    }
    forall j | n < j < |t.bss|
      ensures t.bss[j] in left
    {
      assert t.bss[j] in t.bss[n..];
    }
    if exists i, j :: 0 <= i < j < |t.bss| && Stale(t, limit, t.bss[j])
                      && !InUse(t.current, t.cfg, t.bss[i]) && !Before(t.bss[i].lastUpdate, limit) {
      var i, j :| 0 <= i < j < |t.bss| && Stale(t, limit, t.bss[j])
                  && !InUse(t.current, t.cfg, t.bss[i]) && !Before(t.bss[i].lastUpdate, limit);
      assert n <= i;
      assert t.bss[j] in left;
    } else {
      forall e | e in left
        ensures !Stale(t, limit, e)
      {
        if e in t.bss[n..] {
          var j :| n <= j < |t.bss| && t.bss[j] == e;
        }
      }
    }
  }
}
