/**
 Pointers held by connect works: exactly when an operation leaves one dangling, said of the table
 before the operation, and what that means for whole runs.
 */
module BssWorks {

  import opened Wrappers
  import opened BssModel
  import opened BssInvariant
  import opened BssRuns
  import opened BssPointers

  /** The operation takes an entry away, or moves it to another block. */
  predicate Leaves(t: Table, op: Op, k: nat)
    requires k < |t.bss|
  {
    match op
    case Result(res, fetch, alloc) => Displaces(t, res, fetch, alloc, k)
    case Finish(info, newScan) => Completed(info, newScan) && Expires(t, info, t.bss[k])
    case FlushAll => !InUse(t.current, t.cfg, t.bss[k])
    case FlushOld(limit) => k < FirstFresh(t, limit, t.bss) && Stale(t, limit, t.bss[k])
    case _ => false
  }

  /** The result is for this entry and outgrows its block, or is new and evicts it. */
  predicate Displaces(t: Table, res: ScanRes, fetch: RelTime, alloc: Alloc, k: nat)
    requires k < |t.bss|
  {
    match FiledUnder(t.cfg, res, fetch)
    case None => false
    case Some(ssid) =>
      var target := Target(t, res.bssid, ssid);
      if target < |t.bss| then k == target && Moves(t.bss[k], res, alloc)
      else !alloc.NoMemory? && |t.bss| + 1 > t.maxCount && k == Evictee(t)
  }

  /** A work other than the pending one names the entry. */
  ghost predicate NamedElsewhere(t: Table, k: nat)
    requires k < |t.bss|
  {
    Overlooked(t.works, {t.bss[k].addr})
  }

  /** An entry leaves that a work other than the pending one names. */
  ghost predicate StrandsWork(t: Table, op: Op)
  {
    exists k :: 0 <= k < |t.bss| && Leaves(t, op, k) && NamedElsewhere(t, k)
  }

  // ---- cutting the table down ----

  /** The entries that leave are the ones whose addresses are missing afterwards. */
  ghost predicate Keeps(t: Table, op: Op, bss: seq<Entry>)
  {
    forall k :: 0 <= k < |t.bss| ==> (t.bss[k].addr in Addrs(bss) <==> !Leaves(t, op, k))
  }

  lemma OverlookedLeaves(t: Table, op: Op, bss: seq<Entry>)
    requires Keeps(t, op, bss) && Overlooked(t.works, Addrs(t.bss) - Addrs(bss))
    ensures StrandsWork(t, op)
  {
    var gone := Addrs(t.bss) - Addrs(bss);
    var i :| 0 <= i < |t.works| && i != Pending(t.works) && t.works[i].bss.Some? && t.works[i].bss.value in gone;
    var k :| 0 <= k < |t.bss| && t.bss[k].addr == t.works[i].bss.value;
    assert Leaves(t, op, k) && NamedElsewhere(t, k);
  }

  lemma LeavesOverlooked(t: Table, op: Op, bss: seq<Entry>)
    requires Keeps(t, op, bss) && StrandsWork(t, op)
    ensures Overlooked(t.works, Addrs(t.bss) - Addrs(bss))
  {
    var k :| 0 <= k < |t.bss| && Leaves(t, op, k) && NamedElsewhere(t, k);
    AddrIn(t.bss, k);
    var i :| 0 <= i < |t.works| && i != Pending(t.works) && t.works[i].bss == Some(t.bss[k].addr);
    assert t.works[i].bss.value in Addrs(t.bss) - Addrs(bss);
  }

  lemma ShrinkStrands(t: Table, op: Op, bss: seq<Entry>)
    requires WorksLive(t) && Keeps(t, op, bss)
    ensures WorksLive(Shrink(t, bss)) <==> !StrandsWork(t, op)
  {
    ShrinkWorks(t, bss);
    if Overlooked(t.works, Addrs(t.bss) - Addrs(bss)) {
      OverlookedLeaves(t, op, bss);
    }
    if StrandsWork(t, op) {
      LeavesOverlooked(t, op, bss);
    }
  }

  lemma SiftKeepsAddr(bss: seq<Entry>, drop: Entry -> bool, change: Entry -> Entry, nextAddr: Addr, nextId: nat, k: nat)
    requires Identified(bss, nextAddr, nextId) && k < |bss|
    requires forall e :: change(e) == e.(scanMiss := change(e).scanMiss)
    ensures bss[k].addr in Addrs(Sift(bss, drop, change)) <==> !drop(bss[k])
  {
    var s := Sift(bss, drop, change);
    if drop(bss[k]) {
      var m := SiftSelects(bss, drop, change);
      forall i | 0 <= i < |s|
        ensures s[i].addr != bss[k].addr
      {
        assert m[i] != k;
      }
    } else {
      SiftComplete(bss, drop, change, k);
      var i :| 0 <= i < |s| && s[i] == change(bss[k]);
      AddrIn(s, i);
    }
  }

  lemma FinishKeeps(t: Table, op: Op)
    requires Inv(t) && op.Finish? && Completed(op.info, op.newScan)
    ensures Keeps(t, op, Survivors(t, op.info, t.bss))
  {
    forall k | 0 <= k < |t.bss|
      ensures t.bss[k].addr in Addrs(Survivors(t, op.info, t.bss)) <==> !Leaves(t, op, k)
    {
      SiftKeepsAddr(t.bss, e => Expires(t, op.info, e), e => Charged(t, op.info, e), t.nextAddr, t.nextId, k);
    }
  }

  lemma FlushKeepsBusy(t: Table)
    requires Inv(t)
    ensures Keeps(t, FlushAll, Busy(t, t.bss))
  {
    forall k | 0 <= k < |t.bss|
      ensures t.bss[k].addr in Addrs(Busy(t, t.bss)) <==> !Leaves(t, FlushAll, k)
    {
      SiftKeepsAddr(t.bss, e => !InUse(t.current, t.cfg, e), e => e, t.nextAddr, t.nextId, k);
    }
  }

  lemma AddrsOfConcat(a: seq<Entry>, b: seq<Entry>)
    ensures Addrs(a + b) == Addrs(a) + Addrs(b)
  {
    forall x | x in Addrs(a) + Addrs(b)
      ensures x in Addrs(a + b)
    {
      if x in Addrs(a) {
        var i :| 0 <= i < |a| && a[i].addr == x;
        assert (a + b)[i] == a[i];
        AddrIn(a + b, i);
      } else {
        var i :| 0 <= i < |b| && b[i].addr == x;
        assert (a + b)[|a| + i] == b[i];
        AddrIn(a + b, |a| + i);
      }
    }
  }

  /** Of two parts, the first sifted: an entry of the first stays unless it is dropped. */
  lemma HeadKeepsAddr(bss: seq<Entry>, n: nat, drop: Entry -> bool, nextAddr: Addr, nextId: nat, k: nat)
    requires Identified(bss, nextAddr, nextId) && n <= |bss| && k < |bss|
    ensures bss[k].addr in Addrs(Sift(bss[..n], drop, e => e) + bss[n..]) <==> !(k < n && drop(bss[k]))
  {
    var head, tail := bss[..n], bss[n..];
    AddrsOfConcat(Sift(head, drop, e => e), tail);
    if k < n {
      SiftKeepsAddr(head, drop, e => e, nextAddr, nextId, k);
      forall i | 0 <= i < |tail|
        ensures tail[i].addr != bss[k].addr
      {
        assert tail[i] == bss[n + i];
      }
    } else {
      AddrIn(tail, k - n);
    }
  }

  lemma FlushByAgeKeepsYounger(t: Table, limit: RelTime)
    requires Inv(t)
    ensures Keeps(t, FlushOld(limit), Younger(t, limit, t.bss))
  {
    var n := FirstFresh(t, limit, t.bss);
    forall k | 0 <= k < |t.bss|
      ensures t.bss[k].addr in Addrs(Younger(t, limit, t.bss)) <==> !Leaves(t, FlushOld(limit), k)
    {
      HeadKeepsAddr(t.bss, n, e => Stale(t, limit, e), t.nextAddr, t.nextId, k);
    }
  }

  // ---- a result ----

  lemma SameWhere(t: Table, t': Table)
    requires t'.works == t.works && Addrs(t'.bss) == Addrs(t.bss)
    ensures WorksLive(t') <==> WorksLive(t)
  {
    forall i | 0 <= i < |t.works|
      ensures WorkLive(t', t'.works[i]) <==> WorkLive(t, t.works[i])
    {
    }
  }

  /** A new entry is named by no work yet. */
  lemma AppendedUnnamed(t: Table, e: Entry)
    requires forall i :: 0 <= i < |t.works| ==> t.works[i].bss != Some(e.addr)
    ensures WorksLive(t.(bss := t.bss + [e])) <==> WorksLive(t)
  {
    AddrsOfAppended(t.bss, e);
    var t' := t.(bss := t.bss + [e]);
    forall i | 0 <= i < |t.works|
      ensures WorkLive(t', t'.works[i]) <==> WorkLive(t, t.works[i])
    {
    }
  }

  lemma PreparedStrands(t: Table, op: Op)
    requires Inv(t) && WorksLive(t) && op.Result? && !op.alloc.NoMemory?
    requires FiledUnder(t.cfg, op.res, op.fetch).Some?
    requires Target(t, op.res.bssid, FiledUnder(t.cfg, op.res, op.fetch).value) == |t.bss|
    ensures WorksLive(Prepared(t)) <==> !StrandsWork(t, op)
  {
    var j := Evictee(t);
    if |t.bss| + 1 > t.maxCount && j < |t.bss| {
      var bss := Without(t.bss, j);
      AddrsOfWithout(t.bss, j, t.nextAddr, t.nextId);
      forall k | 0 <= k < |t.bss|
        ensures t.bss[k].addr in Addrs(bss) <==> !Leaves(t, op, k)
      {
        AddrIn(t.bss, k);
      }
      ShrinkStrands(t, op, bss);
      SameWhere(Shrink(t, bss), Prepared(t));
    } else {
      SameWhere(t, Prepared(t));
    }
  }

  lemma AddStrands(t: Table, op: Op, ssid: Ssid)
    requires Inv(t) && WorksLive(t) && op.Result? && !op.alloc.NoMemory?
    requires FiledUnder(t.cfg, op.res, op.fetch) == Some(ssid) && Target(t, op.res.bssid, ssid) == |t.bss|
    ensures WorksLive(Step(t, op)) <==> !StrandsWork(t, op)
  {
    var room, e := Prepared(t), NewEntry(t, ssid, op.res, op.fetch);
    PreparedStrands(t, op);
    forall i | 0 <= i < |room.works|
      ensures room.works[i].bss != Some(e.addr)
    {
      assert t.works[i].bss != Some(e.addr);
    }
    AppendedUnnamed(room, e);
    SameWhere(room.(bss := room.bss + [e]), Step(t, op));
  }

  lemma UpdateStrands(t: Table, op: Op, ssid: Ssid)
    requires Inv(t) && WorksLive(t) && op.Result?
    requires FiledUnder(t.cfg, op.res, op.fetch) == Some(ssid) && Target(t, op.res.bssid, ssid) < |t.bss|
    ensures WorksLive(Step(t, op)) <==> !StrandsWork(t, op)
  {
    var k := Target(t, op.res.bssid, ssid);
    var t1 := Update(t, k, op.res, op.fetch, op.alloc);
    SameWhere(t1, Step(t, op));
    if Moves(t.bss[k], op.res, op.alloc) {
      MoveWorks(t, k, op.res, op.fetch, op.alloc);
      assert Leaves(t, op, k);
    } else {
      UpdateAddrs(t, k, op.res, op.fetch, op.alloc);
      SameWhere(t, t1);
    }
  }

  // ---- steps and runs ----

  /** An operation leaves every work's pointer good if and only if it takes away or moves no entry
      that a work other than the pending one names. */
  lemma StepWorks(t: Table, op: Op)
    requires Inv(t) && WorksLive(t) && Sound(t, op)
    ensures WorksLive(Step(t, op)) <==> !StrandsWork(t, op)
  {
    match op
    case Result(res, fetch, alloc) =>
      var filed := FiledUnder(t.cfg, res, fetch);
      if filed.Some? {
        if Target(t, res.bssid, filed.value) < |t.bss| {
          UpdateStrands(t, op, filed.value);
        } else if !alloc.NoMemory? {
          AddStrands(t, op, filed.value);
        }
      }
    case Finish(info, newScan) =>
      if Completed(info, newScan) {
        FinishKeeps(t, op);
        ShrinkStrands(t, op, Survivors(t, info, t.bss));
      }
    case FlushAll =>
      FlushKeepsBusy(t);
      ShrinkStrands(t, op, Busy(t, t.bss));
    case FlushOld(limit) =>
      FlushByAgeKeepsYounger(t, limit);
      ShrinkStrands(t, op, Younger(t, limit, t.bss));
    case Schedule(works) =>
    case _ => SameWhere(t, Step(t, op));
  }

  /** Every state of the run has good work pointers. */
  ghost predicate AlwaysGood(t: Table, ops: seq<Op>)
  {
    WorksLive(Run(t, ops)) && (ops != [] ==> AlwaysGood(t, ops[..|ops| - 1]))
  }

  /** No step of the run strands a work. */
  ghost predicate NeverStrands(t: Table, ops: seq<Op>)
  {
    ops != [] ==> NeverStrands(t, ops[..|ops| - 1]) && !StrandsWork(Run(t, ops[..|ops| - 1]), ops[|ops| - 1])
  }

  /** The work pointers are good all through a run if and only if no step of it strands one. */
  lemma {:induction false} RunWorks(t: Table, ops: seq<Op>)
    requires Inv(t) && WorksLive(t) && SoundRun(t, ops)
    ensures AlwaysGood(t, ops) <==> NeverStrands(t, ops)
  {
    if ops != [] {
      var before := ops[..|ops| - 1];
      RunKeepsInv(t, before);
      RunWorks(t, before);
      if AlwaysGood(t, before) {
        GoodAtEnd(t, before);
        StepWorks(Run(t, before), ops[|ops| - 1]);
      }
    }
  }

  lemma GoodAtEnd(t: Table, ops: seq<Op>)
    requires AlwaysGood(t, ops)
    ensures WorksLive(Run(t, ops))
  {
  }
}
