/**
 Pointers to table entries kept outside the table: when they stay good.
 */
module BssPointers {

  import opened Wrappers
  import opened Bytes
  import opened Elements
  import opened BssModel
  import opened BssInvariant
  import opened BssRuns

  // ---- pending connect works ----

  /** Some work other than the one that is kept up to date names one of the addresses. */
  ghost predicate Overlooked(works: seq<Work>, gone: set<Addr>)
  {
    exists i :: 0 <= i < |works| && i != Pending(works) && works[i].bss.Some? && works[i].bss.value in gone
  }

  /** Only the pending connect work holds a pointer. */
  ghost predicate OnePointer(works: seq<Work>)
  {
    forall i :: 0 <= i < |works| && works[i].bss.Some? ==> i == Pending(works)
  }

  lemma {:induction false} FirstOfSameKinds(a: seq<Work>, b: seq<Work>, kind: WorkKind)
    requires |a| == |b| && forall i :: 0 <= i < |a| ==> a[i].kind == b[i].kind
    ensures FirstOf(a, kind) == FirstOf(b, kind)
  {
    if a != [] {
      FirstOfSameKinds(a[1..], b[1..], kind);
    }
  }

  lemma PendingSameKinds(a: seq<Work>, b: seq<Work>)
    requires |a| == |b| && forall i :: 0 <= i < |a| ==> a[i].kind == b[i].kind
    ensures Pending(a) == Pending(b)
  {
    FirstOfSameKinds(a, b, SmeConnect);
    FirstOfSameKinds(a, b, Connect);
  }

  /** After a removal every work is good if and only if no other work named a removed entry. */
  lemma ShrinkWorks(t: Table, bss: seq<Entry>)
    requires WorksLive(t)
    ensures WorksLive(Shrink(t, bss)) <==> !Overlooked(t.works, Addrs(t.bss) - Addrs(bss))
  {
    var gone := Addrs(t.bss) - Addrs(bss);
    var t' := Shrink(t, bss);
    if Overlooked(t.works, gone) {
      var i :| 0 <= i < |t.works| && i != Pending(t.works) && t.works[i].bss.Some? && t.works[i].bss.value in gone;
      assert t'.works[i] == t.works[i] && !WorkLive(t', t'.works[i]);
    } else {
      forall i | 0 <= i < |t'.works|
        ensures WorkLive(t', t'.works[i])
      {
        assert WorkLive(t, t.works[i]);
      }
    }
  }

  /** Addresses of the table after an update. */
  lemma UpdateAddrs(t: Table, k: nat, res: ScanRes, fetch: RelTime, alloc: Alloc)
    requires Inv(t) && k < |t.bss|
    ensures var t1 := Update(t, k, res, fetch, alloc);
            Addrs(t1.bss) ==
              if Moves(t.bss[k], res, alloc) then Addrs(t.bss) - {t.bss[k].addr} + {t.nextAddr} else Addrs(t.bss)
  {
    var e := Refreshed(t, t.bss[k], res, fetch, alloc);
    AddrsOfAppended(Without(t.bss, k), e);
    AddrsOfWithout(t.bss, k, t.nextAddr, t.nextId);
    AddrIn(t.bss, k);
  }

  lemma AddrsOfWithout(bss: seq<Entry>, k: nat, nextAddr: Addr, nextId: nat)
    requires k < |bss| && Identified(bss, nextAddr, nextId)
    ensures Addrs(Without(bss, k)) == Addrs(bss) - {bss[k].addr}
  {
    WithoutSelects(bss, k);
    AddrsOfSelection(Without(bss, k), bss, Skip(|bss|, k));
    assert bss[k].addr !in Addrs(Without(bss, k));
    forall a | a in Addrs(bss) && a != bss[k].addr
      ensures a in Addrs(Without(bss, k))
    {
      var i :| 0 <= i < |bss| && bss[i].addr == a;
      var i' := if i < k then i else i - 1;
      assert Without(bss, k)[i'] == bss[i];
      AddrIn(Without(bss, k), i');
    }
  }

  /** After an update that moves the entry every work is good if and only if no other work named it. */
  lemma MoveWorks(t: Table, k: nat, res: ScanRes, fetch: RelTime, alloc: Alloc)
    requires Inv(t) && WorksLive(t) && k < |t.bss| && Moves(t.bss[k], res, alloc)
    ensures WorksLive(Update(t, k, res, fetch, alloc)) <==> !Overlooked(t.works, {t.bss[k].addr})
  {
    var a := t.bss[k].addr;
    var t' := Update(t, k, res, fetch, alloc);
    UpdateAddrs(t, k, res, fetch, alloc);
    if Overlooked(t.works, {a}) {
      var i :| 0 <= i < |t.works| && i != Pending(t.works) && t.works[i].bss == Some(a);
      assert t'.works[i] == t.works[i] && !WorkLive(t', t'.works[i]);
    } else {
      forall i | 0 <= i < |t'.works|
        ensures WorkLive(t', t'.works[i])
      {
        assert WorkLive(t, t.works[i]);
      }
    }
  }

  lemma OnePointerCleared(works: seq<Work>, gone: set<Addr>)
    requires OnePointer(works)
    ensures OnePointer(Clear(works, gone)) && !Overlooked(works, gone)
  {
    PendingSameKinds(works, Clear(works, gone));
  }

  lemma OnePointerRepointed(works: seq<Work>, from: Addr, to: Option<Addr>)
    requires OnePointer(works)
    ensures OnePointer(Repoint(works, from, to))
  {
    PendingSameKinds(works, Repoint(works, from, to));
  }

  lemma ShrinkOnePointer(t: Table, bss: seq<Entry>)
    requires WorksLive(t) && OnePointer(t.works)
    ensures WorksLive(Shrink(t, bss)) && OnePointer(Shrink(t, bss).works)
  {
    ShrinkWorks(t, bss);
    OnePointerCleared(t.works, Addrs(t.bss) - Addrs(bss));
  }

  lemma AddWorks(t: Table, ssid: Ssid, res: ScanRes, fetch: RelTime)
    requires WorksLive(t) && OnePointer(t.works)
    ensures WorksLive(Add(t, ssid, res, fetch)) && OnePointer(Add(t, ssid, res, fetch).works)
  {
    if |t.bss| + 1 > t.maxCount && Evictee(t) < |t.bss| {
      ShrinkOnePointer(t, Without(t.bss, Evictee(t)));
    }
    SameWorks(if |t.bss| + 1 > t.maxCount && Evictee(t) == |t.bss| then t else MakeRoom(t), Prepared(t));
    AppendWorks(Prepared(t), NewEntry(t, ssid, res, fetch));
  }

  lemma AppendWorks(t: Table, e: Entry)
    requires WorksLive(t)
    ensures WorksLive(t.(bss := t.bss + [e]))
  {
    AddrsOfAppended(t.bss, e);
    forall i | 0 <= i < |t.works|
      ensures WorkLive(t.(bss := t.bss + [e]), t.works[i])
    {
      assert WorkLive(t, t.works[i]);
    }
  }

  lemma UpdateWorks(t: Table, k: nat, res: ScanRes, fetch: RelTime, alloc: Alloc)
    requires Inv(t) && WorksLive(t) && OnePointer(t.works) && k < |t.bss|
    ensures var t1 := Update(t, k, res, fetch, alloc); WorksLive(t1) && OnePointer(t1.works)
  {
    var t1 := Update(t, k, res, fetch, alloc);
    UpdateAddrs(t, k, res, fetch, alloc);
    if Moves(t.bss[k], res, alloc) {
      MoveWorks(t, k, res, fetch, alloc);
      OnePointerCleared(t.works, {t.bss[k].addr});
      OnePointerRepointed(t.works, t.bss[k].addr, Some(t.nextAddr));
    } else {
      forall i | 0 <= i < |t.works|
        ensures WorkLive(t1, t1.works[i])
      {
        assert WorkLive(t, t.works[i]);
      }
    }
  }

  lemma ScanResultWorks(t: Table, res: ScanRes, fetch: RelTime, alloc: Alloc)
    requires Inv(t) && WorksLive(t) && OnePointer(t.works)
    ensures var t' := ScanResult(t, res, fetch, alloc); WorksLive(t') && OnePointer(t'.works)
  {
    match FiledUnder(t.cfg, res, fetch)
    case None =>
    case Some(ssid) =>
      var k := Target(t, res.bssid, ssid);
      if k == |t.bss| {
        if !alloc.NoMemory? {
          AddWorks(t, ssid, res, fetch);
          SameWorks(Add(t, ssid, res, fetch), ScanResult(t, res, fetch, alloc));
        }
      } else {
        UpdateWorks(t, k, res, fetch, alloc);
        SameWorks(Update(t, k, res, fetch, alloc), ScanResult(t, res, fetch, alloc));
      }
  }

  lemma SameWorks(t: Table, t': Table)
    requires WorksLive(t) && t'.bss == t.bss && t'.works == t.works
    ensures WorksLive(t')
  {
    forall i | 0 <= i < |t.works|
      ensures WorkLive(t', t'.works[i])
    {
      assert WorkLive(t, t.works[i]);
    }
  }

  lemma StepOnePointer(t: Table, op: Op)
    requires Inv(t) && WorksLive(t) && OnePointer(t.works) && Sound(t, op)
    requires op.Schedule? ==> OnePointer(op.works)
    ensures WorksLive(Step(t, op)) && OnePointer(Step(t, op).works)
  {
    match op
    case Begin => SameWorks(t, Step(t, op));
    case Result(res, fetch, alloc) => ScanResultWorks(t, res, fetch, alloc);
    case Finish(info, newScan) =>
      if Completed(info, newScan) {
        ShrinkOnePointer(t, Survivors(t, info, t.bss));
      }
    case FlushAll => ShrinkOnePointer(t, Busy(t, t.bss));
    case FlushOld(limit) => ShrinkOnePointer(t, Younger(t, limit, t.bss));
    case Roam(to) => SameWorks(t, Step(t, op));
    case Reconfigure(cfg) => SameWorks(t, Step(t, op));
    case Schedule(works) =>
    case SetCounts(max, expire) => SameWorks(t, Step(t, op));
  }

  /** If never more than the pending connect work holds a pointer, no work ever names a dead entry. */
  lemma {:induction false} RunOnePointer(t: Table, ops: seq<Op>)
    requires Inv(t) && WorksLive(t) && OnePointer(t.works) && SoundRun(t, ops)
    requires forall i :: 0 <= i < |ops| && ops[i].Schedule? ==> OnePointer(ops[i].works)
    ensures WorksLive(Run(t, ops)) && OnePointer(Run(t, ops).works)
  {
    if ops != [] {
      RunKeepsInv(t, ops[..|ops| - 1]);
      RunOnePointer(t, ops[..|ops| - 1]);
      StepOnePointer(Run(t, ops[..|ops| - 1]), ops[|ops| - 1]);
    }
  }

  // ---- the current entry ----

  /** A removal that spares the entries in use spares the current one. */
  lemma SparedCurrent(t: Table, bss: seq<Entry>)
    requires CurrentLive(t)
    requires forall k :: 0 <= k < |t.bss| && InUse(t.current, t.cfg, t.bss[k])
                         ==> Holds(bss, Current(t.bss[k].addr, t.bss[k].ssid))
    ensures CurrentLive(Shrink(t, bss))
  {
    if t.current.Some? {
      var k :| 0 <= k < |t.bss| && t.bss[k].addr == t.current.value.addr && t.bss[k].ssid == t.current.value.ssid;
      assert Holds(bss, Current(t.bss[k].addr, t.bss[k].ssid));
    }
  }

  lemma HeldBySift(t: Table, bss: seq<Entry>, drop: Entry -> bool, change: Entry -> Entry, k: nat)
    requires k < |bss| && !drop(bss[k])
    requires forall e :: change(e) == e.(scanMiss := change(e).scanMiss)
    ensures Holds(Sift(bss, drop, change), Current(bss[k].addr, bss[k].ssid))
  {
    SiftComplete(bss, drop, change, k);
    var s := Sift(bss, drop, change);
    var i :| 0 <= i < |s| && s[i] == change(bss[k]);
  }

  lemma EndSparesCurrent(t: Table, info: Option<ScanInfo>, newScan: bool)
    requires CurrentLive(t)
    ensures CurrentLive(End(t, info, newScan))
  {
    if Completed(info, newScan) {
      forall k | 0 <= k < |t.bss| && InUse(t.current, t.cfg, t.bss[k])
        ensures Holds(Survivors(t, info, t.bss), Current(t.bss[k].addr, t.bss[k].ssid))
      {
        SurvivorsComplete(t, info, k);
        var s := Survivors(t, info, t.bss);
        var i :| 0 <= i < |s| && s[i] == Charged(t, info, t.bss[k]);
      }
      SparedCurrent(t, Survivors(t, info, t.bss));
    }
  }

  lemma FlushSparesCurrent(t: Table)
    requires CurrentLive(t)
    ensures CurrentLive(Flush(t))
  {
    forall k | 0 <= k < |t.bss| && InUse(t.current, t.cfg, t.bss[k])
      ensures Holds(Busy(t, t.bss), Current(t.bss[k].addr, t.bss[k].ssid))
    {
      HeldBySift(t, t.bss, e => !InUse(t.current, t.cfg, e), e => e, k);
    }
    SparedCurrent(t, Busy(t, t.bss));
  }

  lemma FlushByAgeSparesCurrent(t: Table, limit: RelTime)
    requires CurrentLive(t)
    ensures CurrentLive(FlushByAge(t, limit))
  {
    var n := FirstFresh(t, limit, t.bss);
    var head := Sift(t.bss[..n], e => Stale(t, limit, e), e => e);
    forall k | 0 <= k < |t.bss| && InUse(t.current, t.cfg, t.bss[k])
      ensures Holds(Younger(t, limit, t.bss), Current(t.bss[k].addr, t.bss[k].ssid))
    {
      if k < n {
        HeldBySift(t, t.bss[..n], e => Stale(t, limit, e), e => e, k);
        var i :| 0 <= i < |head| && head[i].addr == t.bss[k].addr && head[i].ssid == t.bss[k].ssid;
        assert Younger(t, limit, t.bss)[i] == head[i];
      } else {
        assert Younger(t, limit, t.bss)[|head| + k - n] == t.bss[k];
      }
    }
    SparedCurrent(t, Younger(t, limit, t.bss));
  }

  /** A result that makes the table evict the entry the station is on: it is the oldest one nobody wants. */
  predicate EvictsCurrent(t: Table, res: ScanRes, fetch: RelTime, alloc: Alloc)
  {
    match FiledUnder(t.cfg, res, fetch)
    case None => false
    case Some(ssid) =>
      && Target(t, res.bssid, ssid) == |t.bss| && !alloc.NoMemory? && |t.bss| + 1 > t.maxCount
      && var k := OldestUnwanted(t.cfg, t.bss);
      k < |t.bss| && t.current.Some? && t.current.value.addr == t.bss[k].addr
  }

  lemma RemoveCurrent(t: Table, k: nat)
    requires Identified(t.bss, t.nextAddr, t.nextId) && CurrentLive(t) && k < |t.bss|
    ensures CurrentLive(Shrink(t, Without(t.bss, k))) <==> !(t.current.Some? && t.current.value.addr == t.bss[k].addr)
  {
    if t.current.Some? {
      var c :| 0 <= c < |t.bss| && t.bss[c].addr == t.current.value.addr && t.bss[c].ssid == t.current.value.ssid;
      if c != k {
        assert Without(t.bss, k)[if c < k then c else c - 1] == t.bss[c];
      }
    }
  }

  lemma PreparedCurrent(t: Table)
    requires Inv(t) && CurrentLive(t)
    ensures CurrentLive(Prepared(t)) <==>
            !(|t.bss| + 1 > t.maxCount && OldestUnwanted(t.cfg, t.bss) < |t.bss| && t.current.Some?
              && t.current.value.addr == t.bss[OldestUnwanted(t.cfg, t.bss)].addr)
    ensures Prepared(t).current == t.current
  {
    if |t.bss| + 1 > t.maxCount && Evictee(t) < |t.bss| {
      RemoveCurrent(t, Evictee(t));
    }
  }

  lemma AppendCurrent(t: Table, e: Entry, scan: seq<Addr>)
    requires t.current.Some? ==> t.current.value.addr != e.addr
    ensures CurrentLive(t.(bss := t.bss + [e], lastScan := scan)) <==> CurrentLive(t)
  {
    if CurrentLive(t) && t.current.Some? {
      var c :| 0 <= c < |t.bss| && t.bss[c].addr == t.current.value.addr && t.bss[c].ssid == t.current.value.ssid;
      assert (t.bss + [e])[c] == t.bss[c];
    }
  }

  lemma UpdateCurrent(t: Table, k: nat, res: ScanRes, fetch: RelTime, alloc: Alloc)
    requires Inv(t) && CurrentLive(t) && k < |t.bss|
    ensures CurrentLive(Update(t, k, res, fetch, alloc))
  {
    if t.current.Some? {
      var c :| 0 <= c < |t.bss| && t.bss[c].addr == t.current.value.addr && t.bss[c].ssid == t.current.value.ssid;
      if c == k {
        UpdateFollows(t, k, res, fetch, alloc);
      } else {
        UpdateLeaves(t, k, c, res, fetch, alloc);
      }
    }
  }

  /** The current entry is the one updated: the pointer goes with it. */
  lemma UpdateFollows(t: Table, k: nat, res: ScanRes, fetch: RelTime, alloc: Alloc)
    requires k < |t.bss| && t.current == Some(Current(t.bss[k].addr, t.bss[k].ssid))
    ensures CurrentLive(Update(t, k, res, fetch, alloc))
  {
    var t1 := Update(t, k, res, fetch, alloc);
    var e := Refreshed(t, t.bss[k], res, fetch, alloc);
    assert t1.bss[|t.bss| - 1] == e;
    assert t1.current == Some(Current(e.addr, e.ssid));
  }

  /** The current entry is another one: it stays, and so does the pointer. */
  lemma UpdateLeaves(t: Table, k: nat, c: nat, res: ScanRes, fetch: RelTime, alloc: Alloc)
    requires k < |t.bss| && c < |t.bss| && t.bss[c].addr != t.bss[k].addr
    requires t.current == Some(Current(t.bss[c].addr, t.bss[c].ssid))
    ensures CurrentLive(Update(t, k, res, fetch, alloc))
  {
    var t1 := Update(t, k, res, fetch, alloc);
    assert t1.bss[if c < k then c else c - 1] == t.bss[c];
    assert t1.current == t.current;
  }

  /** A result leaves the current pointer good exactly when it does not evict the current entry. */
  lemma ScanResultCurrent(t: Table, res: ScanRes, fetch: RelTime, alloc: Alloc)
    requires Inv(t) && CurrentLive(t)
    ensures CurrentLive(ScanResult(t, res, fetch, alloc)) <==> !EvictsCurrent(t, res, fetch, alloc)
  {
    match FiledUnder(t.cfg, res, fetch)
    case None =>
    case Some(ssid) =>
      var k := Target(t, res.bssid, ssid);
      if k == |t.bss| {
        if !alloc.NoMemory? {
          var room, e := Prepared(t), NewEntry(t, ssid, res, fetch);
          PreparedCurrent(t);
          AppendCurrent(room, e, room.lastScan + [t.nextAddr]);
        }
      } else {
        UpdateCurrent(t, k, res, fetch, alloc);
      }
  }

  // ---- the current entry over runs ----

  /** The step is a result that evicts the current entry. */
  predicate Evicts(t: Table, op: Op)
  {
    op.Result? && EvictsCurrent(t, op.res, op.fetch, op.alloc)
  }

  /** An operation leaves the current pointer good if and only if it does not evict the entry. */
  lemma StepCurrent(t: Table, op: Op)
    requires Inv(t) && CurrentLive(t) && Sound(t, op)
    ensures CurrentLive(Step(t, op)) <==> !Evicts(t, op)
  {
    match op
    case Begin =>
    case Result(res, fetch, alloc) => ScanResultCurrent(t, res, fetch, alloc);
    case Finish(info, newScan) => EndSparesCurrent(t, info, newScan);
    case FlushAll => FlushSparesCurrent(t);
    case FlushOld(limit) => FlushByAgeSparesCurrent(t, limit);
    case Roam(to) =>
    case Reconfigure(cfg) =>
    case Schedule(works) =>
    case SetCounts(max, expire) =>
  }

  /** The current pointer is good in every state of the run. */
  ghost predicate AlwaysLive(t: Table, ops: seq<Op>)
  {
    CurrentLive(Run(t, ops)) && (ops != [] ==> AlwaysLive(t, ops[..|ops| - 1]))
  }

  /** No result of the run evicts the current entry. */
  predicate NeverEvicts(t: Table, ops: seq<Op>)
  {
    ops != [] ==> NeverEvicts(t, ops[..|ops| - 1]) && !Evicts(Run(t, ops[..|ops| - 1]), ops[|ops| - 1])
  }

  /** The current pointer is good all through a run if and only if no result of it evicts the entry. */
  lemma {:induction false} RunCurrent(t: Table, ops: seq<Op>)
    requires Inv(t) && CurrentLive(t) && SoundRun(t, ops)
    ensures AlwaysLive(t, ops) <==> NeverEvicts(t, ops)
  {
    if ops != [] {
      var before := ops[..|ops| - 1];
      RunKeepsInv(t, before);
      RunCurrent(t, before);
      if CurrentLive(Run(t, before)) {
        StepCurrent(Run(t, before), ops[|ops| - 1]);
      }
    }
  }

  // ---- entries that are spared ----

  /** The entry the station is on belongs to a configured network or is a WPS candidate. */
  ghost predicate CurrentWanted(t: Table)
  {
    t.current.Some? ==>
      forall k :: 0 <= k < |t.bss| && t.bss[k].addr == t.current.value.addr ==> Wanted(t.cfg, t.bss[k])
  }

  lemma WantedIsNotEvicted(t: Table, res: ScanRes, fetch: RelTime, alloc: Alloc)
    requires CurrentWanted(t)
    ensures !EvictsCurrent(t, res, fetch, alloc)
  {
  }

  /** Whenever a result arrives, the current entry is known or a WPS candidate. */
  ghost predicate WantedAtResults(t: Table, ops: seq<Op>)
  {
    ops != [] ==>
      && WantedAtResults(t, ops[..|ops| - 1])
      && (ops[|ops| - 1].Result? ==> CurrentWanted(Run(t, ops[..|ops| - 1])))
  }

  /** While the current entry is known or a WPS candidate, its pointer never dangles. */
  lemma RunWanted(t: Table, ops: seq<Op>)
    requires Inv(t) && CurrentLive(t) && SoundRun(t, ops) && WantedAtResults(t, ops)
    ensures AlwaysLive(t, ops)
  {
    WantedNeverEvicts(t, ops);
    RunCurrent(t, ops);
  }

  lemma {:induction false} WantedNeverEvicts(t: Table, ops: seq<Op>)
    requires WantedAtResults(t, ops)
    ensures NeverEvicts(t, ops)
  {
    if ops != [] {
      var before, last := ops[..|ops| - 1], ops[|ops| - 1];
      WantedNeverEvicts(t, before);
      if last.Result? {
        WantedIsNotEvicted(Run(t, before), last.res, last.fetch, last.alloc);
      }
    }
  }

  /** The network the station is on is configured. */
  ghost predicate CurrentKnown(t: Table)
  {
    t.current.Some? ==> Known(t.cfg.networks, t.current.value.ssid)
  }

  lemma KnownIsWanted(t: Table)
    requires Inv(t) && CurrentLive(t) && CurrentKnown(t)
    ensures CurrentWanted(t)
  {
    forall k | 0 <= k < |t.bss| && t.current.Some? && t.bss[k].addr == t.current.value.addr
      ensures Wanted(t.cfg, t.bss[k])
    {
      var c :| 0 <= c < |t.bss| && t.bss[c].addr == t.current.value.addr && t.bss[c].ssid == t.current.value.ssid;
      assert c == k;
    }
  }

  /** Every roam is to a configured network, and no configuration change drops the one in use. */
  ghost predicate StaysKnown(t: Table, ops: seq<Op>)
  {
    ops != [] ==>
      && StaysKnown(t, ops[..|ops| - 1])
      && (ops[|ops| - 1].Roam? || ops[|ops| - 1].Reconfigure? ==> CurrentKnown(Run(t, ops)))
  }

  lemma StepKnown(t: Table, op: Op)
    requires CurrentKnown(t) && (op.Roam? || op.Reconfigure? ==> CurrentKnown(Step(t, op)))
    ensures CurrentKnown(Step(t, op))
  {
  }

  /** While the station stays on configured networks, the current pointer never dangles, whatever
      results arrive. */
  lemma {:induction false} RunKnown(t: Table, ops: seq<Op>)
    requires Inv(t) && CurrentLive(t) && CurrentKnown(t)
    requires SoundRun(t, ops) && StaysKnown(t, ops)
    ensures AlwaysLive(t, ops) && CurrentKnown(Run(t, ops))
  {
    if ops != [] {
      var before, last := ops[..|ops| - 1], ops[|ops| - 1];
      RunKeepsInv(t, before);
      RunKnown(t, before);
      KnownIsWanted(Run(t, before));
      if last.Result? {
        WantedIsNotEvicted(Run(t, before), last.res, last.fetch, last.alloc);
      }
      StepCurrent(Run(t, before), last);
      StepKnown(Run(t, before), last);
    }
  }

  /** The elements of a beacon that carries nothing but an SSID. */
  function BeaconOf(ssid: Ssid): seq<byte>
    requires |ssid| < 256
  {
    Encode([Element(SSID, ssid)])
  }

  lemma BeaconFiled(ssid: Ssid, res: ScanRes, fetch: RelTime, cfg: Config)
    requires |ssid| <= SSID_MAX_LEN && res.ies == BeaconOf(ssid) && !cfg.ignoreOld && !cfg.p2pInterface
    ensures FiledUnder(cfg, res, fetch) == Some(ssid)
  {
    var es := [Element(SSID, ssid)];
    DecodeEncode(es);
    assert es[1..] == [];
    assert First(es, ById(SSID)) == Some(es[0]);
    assert !Matches(es[0], ByVendor(P2P_IE_VENDOR_TYPE)) && First(es, ByVendor(P2P_IE_VENDOR_TYPE)) == None;
    assert !Matches(es[0], ById(MESH_ID)) && First(es, ById(MESH_ID)) == None;
  }
}
