/**
 What every operation of the BSS table keeps.
 */
module BssInvariant {

  import opened Wrappers
  import opened Elements
  import opened BssModel

  // ---- the invariant ----

  /** Ids and addresses are unique and were handed out before. */
  ghost predicate Identified(bss: seq<Entry>, nextAddr: Addr, nextId: nat)
  {
    && (forall i :: 0 <= i < |bss| ==> bss[i].addr < nextAddr && bss[i].id < nextId)
    && (forall i, j :: 0 <= i < j < |bss| ==> bss[i].addr != bss[j].addr && bss[i].id != bss[j].id)
  }

  /** The table is in the order of the rounds that last updated its entries. */
  ghost predicate InUpdateOrder(bss: seq<Entry>, updateIdx: nat)
  {
    && (forall i :: 0 <= i < |bss| ==> bss[i].lastUpdateIdx <= updateIdx)
    && (forall i, j :: 0 <= i < j < |bss| ==> bss[i].lastUpdateIdx <= bss[j].lastUpdateIdx)
  }

  ghost predicate NoRepeats<T>(s: seq<T>)
  {
    forall i, j :: 0 <= i < j < |s| ==> s[i] != s[j]
  }

  /** The record of the last scan names each entry of the current round once, and nothing else. */
  ghost predicate LastScanExact(t: Table)
  {
    && NoRepeats(t.lastScan)
    && (forall a :: a in t.lastScan ==> a in Addrs(t.bss))
    && (forall i :: 0 <= i < |t.bss| ==> (t.bss[i].addr in t.lastScan <==> t.bss[i].lastUpdateIdx == t.updateIdx))
  }

  /** Entries of the current round have missed no scan. */
  ghost predicate SeenNotMissed(t: Table, bss: seq<Entry>)
  {
    forall i :: 0 <= i < |bss| ==> bss[i].lastUpdateIdx == t.updateIdx ==> bss[i].scanMiss == 0
  }

  /** Cached HESSIDs agree with the stored elements. */
  ghost predicate HessidsCurrent(t: Table)
  {
    forall i :: 0 <= i < |t.bss| ==> t.bss[i].hessid == Hessid(t.bss[i].ies)
  }

  /** Pointers held outside were handed out by the allocator. */
  ghost predicate PointersAllocated(t: Table)
  {
    && (t.current.Some? ==> t.current.value.addr < t.nextAddr)
    && (forall i :: 0 <= i < |t.works| ==> t.works[i].bss.Some? ==> t.works[i].bss.value < t.nextAddr)
  }

  ghost predicate Inv(t: Table)
  {
    && Identified(t.bss, t.nextAddr, t.nextId)
    && InUpdateOrder(t.bss, t.updateIdx)
    && LastScanExact(t)
    && SeenNotMissed(t, t.bss)
    && HessidsCurrent(t)
    && PointersAllocated(t)
  }

  /** The current pointer, if any, names an entry of the table with the SSID it had when it was set. */
  ghost predicate CurrentLive(t: Table)
  {
    t.current.Some? ==> Holds(t.bss, t.current.value)
  }

  ghost predicate Holds(bss: seq<Entry>, c: Current)
  {
    exists i :: 0 <= i < |bss| && bss[i].addr == c.addr && bss[i].ssid == c.ssid
  }

  ghost predicate WorkLive(t: Table, w: Work)
  {
    w.bss.Some? ==> w.bss.value in Addrs(t.bss)
  }

  ghost predicate WorksLive(t: Table)
  {
    forall i :: 0 <= i < |t.works| ==> WorkLive(t, t.works[i])
  }

  /** No two entries have both BSSID and SSID in common. */
  ghost predicate KeysUnique(bss: seq<Entry>)
  {
    forall i, j :: 0 <= i < j < |bss| ==> bss[i].bssid != bss[j].bssid || bss[i].ssid != bss[j].ssid
  }

  // ---- cutting the table down ----

  /** A shorter list made of entries of another, in the same order, at most their miss counts changed. */
  ghost predicate Selects(short: seq<Entry>, long: seq<Entry>, m: seq<nat>)
  {
    && |m| == |short|
    && (forall i :: 0 <= i < |m| ==> m[i] < |long| && short[i] == long[m[i]].(scanMiss := short[i].scanMiss))
    && (forall i, j :: 0 <= i < j < |m| ==> m[i] < m[j])
  }

  lemma {:induction false} KeepIsFilter(scan: seq<Addr>, gone: set<Addr>)
    ensures forall a :: a in Keep(scan, gone) <==> a in scan && a !in gone
    ensures NoRepeats(scan) ==> NoRepeats(Keep(scan, gone))
  {
    if scan != [] {
      var rest := scan[1..];
      KeepIsFilter(rest, gone);
      assert forall a :: a in scan <==> a == scan[0] || a in rest;
      if NoRepeats(scan) {
        assert scan[0] !in rest;
        assert NoRepeats(rest);
      }
    }
  }

  /** What is kept stays in its order. */
  lemma {:induction false} KeepInOrder(scan: seq<Addr>, gone: set<Addr>) returns (m: seq<nat>)
    ensures |m| == |Keep(scan, gone)| && forall i :: 0 <= i < |m| ==> m[i] < |scan| && Keep(scan, gone)[i] == scan[m[i]]
    ensures forall i, j :: 0 <= i < j < |m| ==> m[i] < m[j]
  {
    m := [];
    if scan != [] {
      m := KeepInOrder(scan[1..], gone);
      m := Shift(m);
      if scan[0] !in gone {
        m := [0] + m;
      }
    }
  }

  lemma AddrIn(bss: seq<Entry>, i: nat)
    requires i < |bss|
    ensures bss[i].addr in Addrs(bss)
  {
  }

  lemma AddrsOfSelection(short: seq<Entry>, long: seq<Entry>, m: seq<nat>)
    requires Selects(short, long, m)
    ensures Addrs(short) <= Addrs(long)
  {
    forall a | a in Addrs(short)
      ensures a in Addrs(long)
    {
      var i :| 0 <= i < |short| && short[i].addr == a;
      AddrIn(long, m[i]);
    }
  }

  lemma SelectedInOrder(short: seq<Entry>, long: seq<Entry>, m: seq<nat>, nextAddr: Addr, nextId: nat, updateIdx: nat)
    requires Selects(short, long, m)
    requires Identified(long, nextAddr, nextId) && InUpdateOrder(long, updateIdx)
    ensures Identified(short, nextAddr, nextId) && InUpdateOrder(short, updateIdx)
  {
    forall i, j | 0 <= i < j < |short|
      ensures short[i].addr != short[j].addr && short[i].id != short[j].id
      ensures short[i].lastUpdateIdx <= short[j].lastUpdateIdx
    {
      assert m[i] < m[j];
    }
  }

  lemma AppendedInOrder(bss: seq<Entry>, e: Entry, nextAddr: Addr, nextId: nat, updateIdx: nat)
    requires Identified(bss, nextAddr, nextId) && InUpdateOrder(bss, updateIdx)
    requires e.addr < nextAddr && e.id < nextId && e.lastUpdateIdx == updateIdx
    requires forall i :: 0 <= i < |bss| ==> bss[i].addr != e.addr && bss[i].id != e.id
    ensures Identified(bss + [e], nextAddr, nextId) && InUpdateOrder(bss + [e], updateIdx)
  {
  }

  lemma ShrinkLastScan(t: Table, bss: seq<Entry>, m: seq<nat>)
    requires LastScanExact(t) && Selects(bss, t.bss, m)
    ensures LastScanExact(Shrink(t, bss))
  {
    var gone := Addrs(t.bss) - Addrs(bss);
    var t' := Shrink(t, bss);
    KeepIsFilter(t.lastScan, gone);
    forall a | a in t'.lastScan
      ensures a in Addrs(bss)
    {
      assert a in t.lastScan && a !in gone;
    }
    forall i | 0 <= i < |bss|
      ensures bss[i].addr in t'.lastScan <==> bss[i].lastUpdateIdx == t'.updateIdx
    {
      AddrIn(bss, i);
      assert bss[i].addr == t.bss[m[i]].addr;
    }
  }

  lemma ShrinkPointers(t: Table, bss: seq<Entry>)
    requires PointersAllocated(t)
    ensures PointersAllocated(Shrink(t, bss))
  {
  }

  /** Removing any entries keeps the invariant, if no miss count goes out of bounds on the way. */
  lemma ShrinkKeeps(t: Table, bss: seq<Entry>, m: seq<nat>)
    requires Inv(t) && Selects(bss, t.bss, m) && SeenNotMissed(t, bss)
    ensures Inv(Shrink(t, bss))
  {
    SelectedInOrder(bss, t.bss, m, t.nextAddr, t.nextId, t.updateIdx);
    ShrinkLastScan(t, bss, m);
    ShrinkPointers(t, bss);
  }

  lemma LengthOfSelection(short: seq<Entry>, long: seq<Entry>, m: seq<nat>)
    requires Selects(short, long, m)
    ensures |short| <= |long|
  {
    IncreasingBelow(m, |m|);
    assert m != [] ==> m[|m| - 1] < |long|;
  }

  /** The k-th number of a strictly increasing sequence is at least k. */
  lemma {:induction false} IncreasingBelow(m: seq<nat>, k: nat)
    requires k <= |m| && forall i, j :: 0 <= i < j < |m| ==> m[i] < m[j]
    ensures forall i :: 0 <= i < k ==> m[i] >= i
  {
    if k > 0 {
      IncreasingBelow(m, k - 1);
      assert k > 1 ==> m[k - 2] < m[k - 1];
    }
  }

  function Skip(n: nat, k: nat): (m: seq<nat>)
    requires k < n
    ensures |m| == n - 1
    ensures forall i :: 0 <= i < n - 1 ==> m[i] == if i < k then i else i + 1
  {
    seq(n - 1, i requires 0 <= i < n - 1 => if i < k then i else i + 1)
  }

  lemma WithoutSelects(bss: seq<Entry>, k: nat)
    requires k < |bss|
    ensures Selects(Without(bss, k), bss, Skip(|bss|, k))
  {
  }

  lemma RemoveKeeps(t: Table, k: nat)
    requires Inv(t) && k < |t.bss|
    ensures Inv(Shrink(t, Without(t.bss, k)))
  {
    WithoutSelects(t.bss, k);
    ShrinkKeeps(t, Without(t.bss, k), Skip(|t.bss|, k));
  }

  // ---- rounds ----

  function Shift(m: seq<nat>): (r: seq<nat>)
    ensures |r| == |m| && forall i :: 0 <= i < |m| ==> r[i] == m[i] + 1
  {
    seq(|m|, i requires 0 <= i < |m| => m[i] + 1)
  }

  lemma SelectsCons(e: Entry, e': Entry, short: seq<Entry>, long: seq<Entry>, m: seq<nat>)
    requires Selects(short, long, m) && e' == e.(scanMiss := e'.scanMiss)
    ensures Selects(short, [e] + long, Shift(m))
    ensures Selects([e'] + short, [e] + long, [0] + Shift(m))
  {
  }

  /** Position by position, what sifting makes of a list. */
  ghost predicate SiftedBy(short: seq<Entry>, bss: seq<Entry>, drop: Entry -> bool, change: Entry -> Entry, m: seq<nat>)
  {
    Selects(short, bss, m) && forall i :: 0 <= i < |m| ==> !drop(bss[m[i]]) && short[i] == change(bss[m[i]])
  }

  lemma SiftedCons(e: Entry, short: seq<Entry>, bss: seq<Entry>, drop: Entry -> bool, change: Entry -> Entry,
                   m: seq<nat>)
    requires SiftedBy(short, bss, drop, change, m) && change(e) == e.(scanMiss := change(e).scanMiss)
    ensures drop(e) ==> SiftedBy(short, [e] + bss, drop, change, Shift(m))
    ensures !drop(e) ==> SiftedBy([change(e)] + short, [e] + bss, drop, change, [0] + Shift(m))
  {
    SelectsCons(e, change(e), short, bss, m);
  }

  /** Sifting selects, if the change affects at most miss counts. */
  lemma {:induction false} SiftSelects(bss: seq<Entry>, drop: Entry -> bool, change: Entry -> Entry)
    returns (m: seq<nat>)
    requires forall e :: change(e) == e.(scanMiss := change(e).scanMiss)
    ensures SiftedBy(Sift(bss, drop, change), bss, drop, change, m)
  {
    m := [];
    if bss != [] {
      var rest := Sift(bss[1..], drop, change);
      m := SiftSelects(bss[1..], drop, change);
      SiftedCons(bss[0], rest, bss[1..], drop, change, m);
      assert bss == [bss[0]] + bss[1..];
      if drop(bss[0]) {
        m := Shift(m);
        assert Sift(bss, drop, change) == rest;
      } else {
        m := [0] + Shift(m);
      }
    }
  }

  lemma {:induction false} SiftComplete(bss: seq<Entry>, drop: Entry -> bool, change: Entry -> Entry, k: nat)
    requires k < |bss| && !drop(bss[k])
    ensures change(bss[k]) in Sift(bss, drop, change)
  {
    if k > 0 {
      SiftComplete(bss[1..], drop, change, k - 1);
    }
  }

  /** Which entries survive the end of a round, and how. */
  lemma SurvivorsSelect(t: Table, info: Option<ScanInfo>) returns (m: seq<nat>)
    ensures Selects(Survivors(t, info, t.bss), t.bss, m)
    ensures forall i :: 0 <= i < |m| ==>
                          !Expires(t, info, t.bss[m[i]])
                          && Survivors(t, info, t.bss)[i] == Charged(t, info, t.bss[m[i]])
  {
    m := SiftSelects(t.bss, e => Expires(t, info, e), e => Charged(t, info, e));
  }

  lemma SurvivorsComplete(t: Table, info: Option<ScanInfo>, k: nat)
    requires k < |t.bss| && !Expires(t, info, t.bss[k])
    ensures Charged(t, info, t.bss[k]) in Survivors(t, info, t.bss)
  {
    SiftComplete(t.bss, e => Expires(t, info, e), e => Charged(t, info, e), k);
  }

  lemma SurvivorsNotMissed(t: Table, info: Option<ScanInfo>, m: seq<nat>)
    requires SeenNotMissed(t, t.bss) && InUpdateOrder(t.bss, t.updateIdx)
             && Selects(Survivors(t, info, t.bss), t.bss, m)
    requires forall i :: 0 <= i < |m| ==>
                           !Expires(t, info, t.bss[m[i]])
                           && Survivors(t, info, t.bss)[i] == Charged(t, info, t.bss[m[i]])
    ensures SeenNotMissed(t, Survivors(t, info, t.bss))
  {
    var s := Survivors(t, info, t.bss);
    forall i | 0 <= i < |s|
      ensures s[i].lastUpdateIdx == t.updateIdx ==> s[i].scanMiss == 0
    {
      assert s[i] == Charged(t, info, t.bss[m[i]]) && !Expires(t, info, t.bss[m[i]]);
    }
  }

  lemma EndKeeps(t: Table, info: Option<ScanInfo>, newScan: bool)
    requires Inv(t)
    ensures Inv(End(t, info, newScan))
  {
    if Completed(info, newScan) {
      var m := SurvivorsSelect(t, info);
      SurvivorsNotMissed(t, info, m);
      ShrinkKeeps(t, Survivors(t, info, t.bss), m);
    }
  }

  lemma FlushKeeps(t: Table)
    requires Inv(t)
    ensures Inv(Flush(t))
  {
    var m := SiftSelects(t.bss, e => !InUse(t.current, t.cfg, e), e => e);
    ShrinkKeeps(t, Busy(t, t.bss), m);
  }

  lemma SelectsConcat(short: seq<Entry>, long: seq<Entry>, m: seq<nat>, tail: seq<Entry>) returns (r: seq<nat>)
    requires Selects(short, long, m)
    ensures Selects(short + tail, long + tail, r)
    ensures (forall i :: 0 <= i < |m| ==> short[i] == long[m[i]])
            ==> forall i :: 0 <= i < |r| ==> (short + tail)[i] == (long + tail)[r[i]]
  {
    r := m + seq(|tail|, i => |long| + i);
  }

  lemma YoungerSelects(t: Table, limit: RelTime, bss: seq<Entry>) returns (m: seq<nat>)
    ensures Selects(Younger(t, limit, bss), bss, m)
    ensures forall i :: 0 <= i < |m| ==> Younger(t, limit, bss)[i] == bss[m[i]]
  {
    var k := FirstFresh(t, limit, bss);
    var m0 := SiftSelects(bss[..k], e => Stale(t, limit, e), e => e);
    m := SelectsConcat(Sift(bss[..k], e => Stale(t, limit, e), e => e), bss[..k], m0, bss[k..]);
    assert bss[..k] + bss[k..] == bss;
  }

  lemma FlushByAgeKeeps(t: Table, limit: RelTime)
    requires Inv(t)
    ensures Inv(FlushByAge(t, limit))
  {
    var m := YoungerSelects(t, limit, t.bss);
    ShrinkKeeps(t, Younger(t, limit, t.bss), m);
  }

  lemma StartKeeps(t: Table)
    requires Inv(t)
    ensures Inv(Start(t))
  {
  }

  // ---- scan results ----

  lemma PreparedKeeps(t: Table)
    requires Inv(t)
    ensures Inv(Prepared(t))
    ensures forall i :: 0 <= i < |Prepared(t).bss| ==>
              Prepared(t).bss[i].addr < t.nextAddr && Prepared(t).bss[i].id < t.nextId
    ensures Prepared(t).updateIdx == t.updateIdx && Prepared(t).nextAddr == t.nextAddr + 1
    ensures Prepared(t).nextId == t.nextId + 1 && Prepared(t).expireCount == t.expireCount
  {
    var k := Evictee(t);
    if |t.bss| + 1 > t.maxCount && k < |t.bss| {
      RemoveKeeps(t, k);
    }
  }

  lemma AddrsOfAppended(bss: seq<Entry>, e: Entry)
    ensures Addrs(bss + [e]) == Addrs(bss) + {e.addr}
  {
    AddrIn(bss + [e], |bss|);
    forall i | 0 <= i < |bss|
      ensures bss[i].addr in Addrs(bss + [e])
    {
      assert (bss + [e])[i] == bss[i];
      AddrIn(bss + [e], i);
    }
  }

  /** Linking in an entry of the current round under a new address, and noting it. */
  lemma AppendKeeps(t: Table, e: Entry)
    requires Inv(t)
    requires forall i :: 0 <= i < |t.bss| ==> t.bss[i].addr < e.addr && t.bss[i].id < e.id
    requires e.addr < t.nextAddr && e.id < t.nextId
    requires e.lastUpdateIdx == t.updateIdx && e.scanMiss == 0 && e.hessid == Hessid(e.ies)
    ensures Inv(t.(bss := t.bss + [e], lastScan := t.lastScan + [e.addr]))
  {
    AppendedInOrder(t.bss, e, t.nextAddr, t.nextId, t.updateIdx);
    AppendedLastScan(t, e);
  }

  lemma AppendedLastScan(t: Table, e: Entry)
    requires LastScanExact(t) && e.lastUpdateIdx == t.updateIdx
    requires forall i :: 0 <= i < |t.bss| ==> t.bss[i].addr < e.addr
    ensures LastScanExact(t.(bss := t.bss + [e], lastScan := t.lastScan + [e.addr]))
  {
    AddrsOfAppended(t.bss, e);
    assert e.addr !in Addrs(t.bss);
  }

  lemma AddKeeps(t: Table, ssid: Ssid, res: ScanRes, fetch: RelTime)
    requires Inv(t)
    ensures var t1 := Add(t, ssid, res, fetch); Inv(t1.(lastScan := t1.lastScan + [t.nextAddr]))
  {
    var room, e := Prepared(t), NewEntry(t, ssid, res, fetch);
    PreparedKeeps(t);
    AppendKeeps(room, e);
    var t1 := Add(t, ssid, res, fetch);
    assert t1.(lastScan := t1.lastScan + [t.nextAddr])
        == room.(bss := room.bss + [e], lastScan := room.lastScan + [e.addr]);
  }

  /** A refreshed entry has the HESSID of the elements it then holds, whichever way they were stored. */
  lemma RefreshedHessid(t: Table, e: Entry, res: ScanRes, fetch: RelTime, alloc: Alloc)
    requires e.hessid == Hessid(e.ies)
    ensures Refreshed(t, e, res, fetch, alloc).hessid == Hessid(Refreshed(t, e, res, fetch, alloc).ies)
  {
  }

  /** What an update leaves at each position. */
  lemma UpdateAt(t: Table, k: nat, res: ScanRes, fetch: RelTime, alloc: Alloc)
    requires k < |t.bss|
    ensures var bss := Update(t, k, res, fetch, alloc).bss; var n := |t.bss| - 1;
            |bss| == n + 1 && bss[n] == Refreshed(t, t.bss[k], res, fetch, alloc) && bss[..n] == Without(t.bss, k)
            && forall i :: 0 <= i < n ==> bss[i] == if i < k then t.bss[i] else t.bss[i + 1]
  {
  }

  lemma UpdateInOrder(t: Table, k: nat, res: ScanRes, fetch: RelTime, alloc: Alloc)
    requires Inv(t) && k < |t.bss|
    ensures var t1 := Update(t, k, res, fetch, alloc);
            Identified(t1.bss, t1.nextAddr, t1.nextId) && InUpdateOrder(t1.bss, t1.updateIdx)
  {
    var t1 := Update(t, k, res, fetch, alloc);
    WithoutSelects(t.bss, k);
    SelectedInOrder(Without(t.bss, k), t.bss, Skip(|t.bss|, k), t1.nextAddr, t.nextId, t.updateIdx);
    AppendedInOrder(Without(t.bss, k), Refreshed(t, t.bss[k], res, fetch, alloc), t1.nextAddr, t.nextId, t.updateIdx);
  }

  /** Where the updated entry is, and what the update did to the record of the last scan. */
  lemma UpdateMoves(t: Table, k: nat, res: ScanRes, fetch: RelTime, alloc: Alloc)
    requires Inv(t) && k < |t.bss|
    ensures var t1 := Update(t, k, res, fetch, alloc); var was, a := t.bss[k].addr, t1.bss[|t1.bss| - 1].addr;
            && t1.lastScan == Replace(t.lastScan, was, a)
            && (a != was ==> a !in Addrs(t.bss) && a == t.nextAddr)
            && forall i :: 0 <= i < |t1.bss| - 1 ==> t1.bss[i].addr != a && t1.bss[i].addr != was
  {
    var t1 := Update(t, k, res, fetch, alloc);
    UpdateAt(t, k, res, fetch, alloc);
    assert Replace(t.lastScan, t.bss[k].addr, t.bss[k].addr) == t.lastScan;
    assert t.nextAddr !in Addrs(t.bss);
  }

  /** The record of the last scan after entry k went to the end of the table, possibly under a new address. */
  lemma ReplacedExact(t: Table, k: nat, t1: Table)
    requires LastScanExact(t) && k < |t.bss| == |t1.bss| && t1.updateIdx == t.updateIdx
    requires forall i, j :: 0 <= i < j < |t.bss| ==> t.bss[i].addr != t.bss[j].addr
    requires t1.bss[..|t1.bss| - 1] == Without(t.bss, k)
    requires var was, a := t.bss[k].addr, t1.bss[|t1.bss| - 1].addr;
             (a == was || a !in Addrs(t.bss)) && t1.lastScan == Replace(t.lastScan, was, a)
    ensures NoRepeats(t1.lastScan) && forall b :: b in t1.lastScan ==> b in Addrs(t1.bss)
    ensures forall i :: 0 <= i < |t1.bss| - 1 ==>
                          (t1.bss[i].addr in t1.lastScan <==> t1.bss[i].lastUpdateIdx == t.updateIdx)
  {
    var was, a := t.bss[k].addr, t1.bss[|t1.bss| - 1].addr;
    ReplaceKeeps(t.lastScan, was, a);
    AddrIn(t1.bss, |t1.bss| - 1);
    forall b | b in t1.lastScan && b != a
      ensures b in Addrs(t1.bss)
    {
      assert b in t.lastScan && b != was;
      var i :| 0 <= i < |t.bss| && t.bss[i].addr == b;
      var i' := if i < k then i else i - 1;
      assert t1.bss[i'] == Without(t.bss, k)[i'] == t.bss[i];
      AddrIn(t1.bss, i');
    }
    forall i | 0 <= i < |t1.bss| - 1
      ensures t1.bss[i].addr in t1.lastScan <==> t1.bss[i].lastUpdateIdx == t.updateIdx
    {
      var i0 := if i < k then i else i + 1;
      assert t1.bss[i] == Without(t.bss, k)[i] == t.bss[i0];
      AddrIn(t.bss, i0);
      assert t.bss[i0].addr != was;
    }
  }

  lemma UpdateScan(t: Table, k: nat, res: ScanRes, fetch: RelTime, alloc: Alloc)
    requires Inv(t) && k < |t.bss|
    ensures var t1 := Update(t, k, res, fetch, alloc);
            LastScanExact(Noted(t1, t1.bss[|t1.bss| - 1].addr))
  {
    var t1 := Update(t, k, res, fetch, alloc);
    UpdateAt(t, k, res, fetch, alloc);
    UpdateMoves(t, k, res, fetch, alloc);
    ReplacedExact(t, k, t1);
    NotedExact(t1);
  }

  lemma NotedExact(t: Table)
    requires t.bss != [] && t.bss[|t.bss| - 1].lastUpdateIdx == t.updateIdx
    requires NoRepeats(t.lastScan) && forall b :: b in t.lastScan ==> b in Addrs(t.bss)
    requires forall i :: 0 <= i < |t.bss| - 1 ==> t.bss[i].addr != t.bss[|t.bss| - 1].addr
    requires forall i :: 0 <= i < |t.bss| - 1 ==>
                           (t.bss[i].addr in t.lastScan <==> t.bss[i].lastUpdateIdx == t.updateIdx)
    ensures LastScanExact(Noted(t, t.bss[|t.bss| - 1].addr))
  {
    AddrIn(t.bss, |t.bss| - 1);
  }

  lemma ReplaceKeeps(s: seq<Addr>, from: Addr, to: Addr)
    requires NoRepeats(s) && (to == from || to !in s)
    ensures NoRepeats(Replace(s, from, to))
    ensures forall b :: b != to ==> (b in Replace(s, from, to) <==> b in s && b != from)
  {
    forall b | b != to && b in s && b != from
      ensures b in Replace(s, from, to)
    {
      var j :| 0 <= j < |s| && s[j] == b;
      assert Replace(s, from, to)[j] == b;
    }
  }

  lemma UpdateContents(t: Table, k: nat, res: ScanRes, fetch: RelTime, alloc: Alloc)
    requires Inv(t) && k < |t.bss|
    ensures SeenNotMissed(t, Update(t, k, res, fetch, alloc).bss) && HessidsCurrent(Update(t, k, res, fetch, alloc))
  {
    UpdateAt(t, k, res, fetch, alloc);
    RefreshedHessid(t, t.bss[k], res, fetch, alloc);
  }

  lemma UpdatePointers(t: Table, k: nat, res: ScanRes, fetch: RelTime, alloc: Alloc)
    requires PointersAllocated(t) && k < |t.bss|
    ensures PointersAllocated(Update(t, k, res, fetch, alloc))
  {
  }

  lemma UpdateKeeps(t: Table, k: nat, res: ScanRes, fetch: RelTime, alloc: Alloc)
    requires Inv(t) && k < |t.bss|
    ensures var t1 := Update(t, k, res, fetch, alloc);
            Inv(Noted(t1, t1.bss[|t1.bss| - 1].addr))
  {
    var t1 := Update(t, k, res, fetch, alloc);
    UpdateInOrder(t, k, res, fetch, alloc);
    UpdateScan(t, k, res, fetch, alloc);
    UpdateContents(t, k, res, fetch, alloc);
    UpdatePointers(t, k, res, fetch, alloc);
    var t2 := Noted(t1, t1.bss[|t1.bss| - 1].addr);
    assert t2.bss == t1.bss && t2.updateIdx == t.updateIdx;
    assert SeenNotMissed(t2, t2.bss);
  }

  lemma ScanResultKeeps(t: Table, res: ScanRes, fetch: RelTime, alloc: Alloc)
    requires Inv(t)
    ensures Inv(ScanResult(t, res, fetch, alloc))
  {
    match FiledUnder(t.cfg, res, fetch)
    case None =>
    case Some(ssid) =>
      var k := Target(t, res.bssid, ssid);
      if k == |t.bss| {
        AddKeeps(t, ssid, res, fetch);
      } else {
        UpdateKeeps(t, k, res, fetch, alloc);
      }
  }
}
