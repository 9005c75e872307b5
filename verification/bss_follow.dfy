/**
 Pointers follow their entry: the entry that the station is on and the one that the pending connect
 work names stay the same ones, by id, wherever the table moves them, and a work is told when its
 entry is gone.
 */
module BssFollow {

  import opened Wrappers
  import opened BssModel
  import opened BssInvariant
  import opened BssRuns
  import opened BssExpiry

  /** The address is that of the entry with the id. */
  ghost predicate At(bss: seq<Entry>, a: Addr, id: nat)
  {
    exists i :: 0 <= i < |bss| && bss[i].addr == a && bss[i].id == id
  }

  ghost predicate Has(bss: seq<Entry>, id: nat)
  {
    exists i :: 0 <= i < |bss| && bss[i].id == id
  }

  /** If the entry is still there, the pointer is to it. */
  ghost predicate Follows(bss: seq<Entry>, a: Addr, id: nat)
  {
    Has(bss, id) ==> At(bss, a, id)
  }

  /** What becomes of the work that named the entry: it names it where it is now, or has no pointer
      and is told so. */
  ghost predicate Told(bss: seq<Entry>, w: Work, w': Work, id: nat)
  {
    if Has(bss, id) then w'.bss.Some? && At(bss, w'.bss.value, id) && w' == w.(bss := w'.bss)
    else w' == w.(bss := None, bssRemoved := true)
  }

  /** Between two tables: the current pointer and the pending work follow, and nothing else happens
      to works. */
  ghost predicate Followed(t: Table, t': Table)
  {
    && (t.current.None? ==> t'.current.None?)
    && (t.current.Some? ==> t'.current.Some? && t'.current.value.ssid == t.current.value.ssid)
    && (forall id :: t.current.Some? && At(t.bss, t.current.value.addr, id) ==>
          Follows(t'.bss, t'.current.value.addr, id))
    && |t'.works| == |t.works|
    && (forall k :: 0 <= k < |t.works| && k != Pending(t.works) ==> t'.works[k] == t.works[k])
    && PendingFollowed(t, t')
  }

  ghost predicate PendingFollowed(t: Table, t': Table)
    requires |t'.works| == |t.works|
  {
    var k := Pending(t.works);
    k < |t.works| ==>
      && (t.works[k].bss.None? ==> t'.works[k] == t.works[k])
      && forall id :: t.works[k].bss.Some? && At(t.bss, t.works[k].bss.value, id) ==>
           Told(t'.bss, t.works[k], t'.works[k], id)
  }

  // ---- entries that stay where they are ----

  /** Each entry kept its address, or left. */
  ghost predicate Stays(bss: seq<Entry>, bss': seq<Entry>, a: Addr, id: nat)
  {
    && (Has(bss', id) ==> At(bss', a, id))
    && (Has(bss', id) <==> a in Addrs(bss'))
  }

  lemma SelectionStays(bss: seq<Entry>, short: seq<Entry>, m: seq<nat>, nextAddr: Addr, nextId: nat, a: Addr, id: nat)
    requires Selects(short, bss, m) && Identified(bss, nextAddr, nextId) && At(bss, a, id)
    ensures Stays(bss, short, a, id)
  {
    var i :| 0 <= i < |bss| && bss[i].addr == a && bss[i].id == id;
    if Has(short, id) {
      var j :| 0 <= j < |short| && short[j].id == id;
      assert bss[m[j]].id == id;
      AddrIn(short, j);
    }
    if a in Addrs(short) {
      var j :| 0 <= j < |short| && short[j].addr == a;
      assert bss[m[j]].addr == a;
    }
  }

  lemma ShrinkFollows(t: Table, bss: seq<Entry>, m: seq<nat>)
    requires Inv(t) && Selects(bss, t.bss, m)
    ensures Followed(t, Shrink(t, bss))
  {
    var t' := Shrink(t, bss);
    forall a, id | At(t.bss, a, id)
      ensures Stays(t.bss, bss, a, id) && a in Addrs(t.bss)
    {
      SelectionStays(t.bss, bss, m, t.nextAddr, t.nextId, a, id);
    }
  }

  // ---- a new entry ----

  lemma AppendFollows(t: Table, room: Table, e: Entry, scan: seq<Addr>)
    requires Followed(t, room) && (forall i :: 0 <= i < |t.bss| ==> t.bss[i].id != e.id)
    ensures Followed(t, room.(bss := room.bss + [e], lastScan := scan))
  {
    var t', bss := room.(bss := room.bss + [e], lastScan := scan), room.bss + [e];
    forall a, id
      ensures At(room.bss, a, id) ==> At(bss, a, id)
      ensures id != e.id ==> (Has(bss, id) <==> Has(room.bss, id))
    {
      AppendHas(room.bss, e, a, id);
    }
    forall a, id | At(t.bss, a, id)
      ensures id != e.id
    {
    }
  }

  lemma AppendHas(bss: seq<Entry>, e: Entry, a: Addr, id: nat)
    ensures At(bss, a, id) ==> At(bss + [e], a, id)
    ensures id != e.id ==> (Has(bss + [e], id) <==> Has(bss, id))
  {
    if At(bss, a, id) {
      var i :| 0 <= i < |bss| && bss[i].addr == a && bss[i].id == id;
      assert (bss + [e])[i] == bss[i];
    }
    if Has(bss, id) {
      var i :| 0 <= i < |bss| && bss[i].id == id;
      assert (bss + [e])[i] == bss[i];
    }
  }

  lemma AddFollows(t: Table, ssid: Ssid, res: ScanRes, fetch: RelTime)
    requires Inv(t)
    ensures var t1 := Add(t, ssid, res, fetch); Followed(t, t1.(lastScan := t1.lastScan + [t.nextAddr]))
  {
    var room, e := Prepared(t), NewEntry(t, ssid, res, fetch);
    RoomFollows(t);
    AppendFollows(t, room, e, room.lastScan + [t.nextAddr]);
  }

  lemma RoomFollows(t: Table)
    requires Inv(t)
    ensures Followed(t, Prepared(t))
  {
    var k := Evictee(t);
    if |t.bss| + 1 > t.maxCount && k < |t.bss| {
      WithoutSelects(t.bss, k);
      ShrinkFollows(t, Without(t.bss, k), Skip(|t.bss|, k));
    } else {
      Unmoved(t, Prepared(t));
    }
  }

  lemma Unmoved(t: Table, t': Table)
    requires t'.bss == t.bss && t'.current == t.current && t'.works == t.works
    ensures Followed(t, t')
  {
  }

  // ---- a moved entry ----

  /** Where an entry is after an update. */
  lemma UpdateWhere(t: Table, k: nat, res: ScanRes, fetch: RelTime, alloc: Alloc, a: Addr, id: nat)
    requires Inv(t) && k < |t.bss| && At(t.bss, a, id)
    ensures var bss := Update(t, k, res, fetch, alloc).bss;
            At(bss, if a == t.bss[k].addr && Moves(t.bss[k], res, alloc) then t.nextAddr else a, id)
  {
    var bss := Update(t, k, res, fetch, alloc).bss;
    UpdateAt(t, k, res, fetch, alloc);
    var i :| 0 <= i < |t.bss| && t.bss[i].addr == a && t.bss[i].id == id;
    if i == k {
      assert bss[|bss| - 1].id == id;
    } else {
      assert a != t.bss[k].addr;
      assert bss[if i < k then i else i - 1] == t.bss[i];
    }
  }

  lemma UpdateFollows(t: Table, k: nat, res: ScanRes, fetch: RelTime, alloc: Alloc)
    requires Inv(t) && k < |t.bss|
    ensures Followed(t, Update(t, k, res, fetch, alloc))
  {
    var t' := Update(t, k, res, fetch, alloc);
    forall a, id | At(t.bss, a, id)
      ensures Has(t'.bss, id)
      ensures At(t'.bss, if a == t.bss[k].addr && Moves(t.bss[k], res, alloc) then t.nextAddr else a, id)
    {
      UpdateWhere(t, k, res, fetch, alloc, a, id);
    }
  }

  // ---- every operation ----

  /** Unless the station itself goes elsewhere or the works are changed from outside, every operation
      lets the pointers follow. */
  lemma StepFollows(t: Table, op: Op)
    requires Inv(t) && !op.Roam? && !op.Schedule?
    ensures Followed(t, Step(t, op))
  {
    match op
    case Result(res, fetch, alloc) => ResultFollows(t, res, fetch, alloc);
    case Finish(info, newScan) =>
      if Completed(info, newScan) {
        var m := SurvivorsSelect(t, info);
        ShrinkFollows(t, Survivors(t, info, t.bss), m);
      } else {
        Unmoved(t, t);
      }
    case FlushAll =>
      var m := SiftSelects(t.bss, e => !InUse(t.current, t.cfg, e), e => e);
      ShrinkFollows(t, Busy(t, t.bss), m);
    case FlushOld(limit) =>
      var m := YoungerSelects(t, limit, t.bss);
      ShrinkFollows(t, Younger(t, limit, t.bss), m);
    case _ => Unmoved(t, Step(t, op));
  }

  lemma ResultFollows(t: Table, res: ScanRes, fetch: RelTime, alloc: Alloc)
    requires Inv(t)
    ensures Followed(t, ScanResult(t, res, fetch, alloc))
  {
    match FiledUnder(t.cfg, res, fetch)
    case None => Unmoved(t, t);
    case Some(ssid) =>
      var k := Target(t, res.bssid, ssid);
      if k < |t.bss| {
        UpdateFollows(t, k, res, fetch, alloc);
      } else if alloc.NoMemory? {
        Unmoved(t, t);
      } else {
        AddFollows(t, ssid, res, fetch);
      }
  }

  // ---- runs ----

  /** An entry that has left never comes back under its id. */
  lemma NoReturn(t: Table, op: Op, id: nat)
    requires Inv(t) && id < t.nextId && !Has(t.bss, id)
    ensures !Has(Step(t, op).bss, id) && id < Step(t, op).nextId
  {
    forall j | 0 <= j < |Step(t, op).bss|
      ensures Step(t, op).bss[j].id != id
    {
      StepExplained(t, op, j);
    }
  }

  lemma {:induction false} GoneForGood(t: Table, ops: seq<Op>, id: nat)
    requires Inv(t) && SoundRun(t, ops) && id < t.nextId && !Has(t.bss, id)
    ensures !Has(Run(t, ops).bss, id) && id < Run(t, ops).nextId
  {
    if ops != [] {
      GoneForGood(t, ops[..|ops| - 1], id);
      RunKeepsInv(t, ops[..|ops| - 1]);
      NoReturn(Run(t, ops[..|ops| - 1]), ops[|ops| - 1], id);
    }
  }

  /** Through every run in which the station does not go elsewhere, its pointer is to the same entry
      for as long as that entry is there. */
  lemma {:induction false} RunFollows(t: Table, ops: seq<Op>, id: nat)
    requires Inv(t) && SoundRun(t, ops) && t.current.Some? && At(t.bss, t.current.value.addr, id)
    requires forall i :: 0 <= i < |ops| ==> !ops[i].Roam?
    ensures Run(t, ops).current.Some? && Run(t, ops).current.value.ssid == t.current.value.ssid
    ensures Follows(Run(t, ops).bss, Run(t, ops).current.value.addr, id)
  {
    if ops != [] {
      var before, op := ops[..|ops| - 1], ops[|ops| - 1];
      var t1 := Run(t, before);
      RunFollows(t, before, id);
      RunKeepsInv(t, before);
      NextIdGrows(t, before);
      if Has(t1.bss, id) {
        CurrentFollows(t1, op, id);
      } else {
        NoReturn(t1, op, id);
        CurrentStays(t1, op);
      }
    }
  }

  lemma CurrentStays(t: Table, op: Op)
    requires Inv(t) && !op.Roam? && t.current.Some?
    ensures Step(t, op).current.Some? && Step(t, op).current.value.ssid == t.current.value.ssid
  {
    if !op.Schedule? {
      StepFollows(t, op);
    }
  }

  lemma CurrentFollows(t: Table, op: Op, id: nat)
    requires Inv(t) && !op.Roam? && t.current.Some? && At(t.bss, t.current.value.addr, id)
    ensures Step(t, op).current.Some? && Step(t, op).current.value.ssid == t.current.value.ssid
    ensures Follows(Step(t, op).bss, Step(t, op).current.value.addr, id)
  {
    if !op.Schedule? {
      StepFollows(t, op);
    }
  }

  lemma {:induction false} NextIdGrows(t: Table, ops: seq<Op>)
    ensures t.nextId <= Run(t, ops).nextId
  {
    if ops != [] {
      NextIdGrows(t, ops[..|ops| - 1]);
    }
  }
}
