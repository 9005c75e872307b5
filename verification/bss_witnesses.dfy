/**
 Runs from the empty table on which the table operations fall short: the current entry evicted, an
 old entry that flushing by age leaves, and a work that names an entry no longer there.
 */
module BssWitnesses {

  import opened Wrappers
  import opened Elements
  import opened BssModel
  import opened BssInvariant
  import opened BssRuns
  import opened BssPointers

  /** Nothing that makes the table ignore a beacon. */
  predicate Plain(cfg: Config)
  {
    !cfg.ignoreOld && !cfg.p2pInterface && cfg.filter == None
  }

  /** A beacon of a network: no element but its SSID. */
  predicate Beacon(res: ScanRes, ssid: Ssid)
  {
    |ssid| <= SSID_MAX_LEN && res.ies == BeaconOf(ssid)
  }

  /** A beacon that is new to a table with room becomes its last entry. */
  lemma Hears(t: Table, res: ScanRes, ssid: Ssid, now: RelTime)
    requires Plain(t.cfg) && Beacon(res, ssid) && Find(t.bss, res.bssid, ssid) == |t.bss| < t.maxCount
    ensures Step(t, Result(res, now, SameBlock)) ==
            t.(bss := t.bss + [NewEntry(t, ssid, res, now)], nextId := t.nextId + 1, nextAddr := t.nextAddr + 1,
              lastScan := t.lastScan + [t.nextAddr])
  {
    BeaconFiled(ssid, res, now, t.cfg);
  }

  /** The table after the first beacon of a round. */
  lemma FirstHeard(max: nat, cfg: Config, res: ScanRes, ssid: Ssid, now: RelTime)
    requires max >= 1 && Plain(cfg) && Beacon(res, ssid)
    ensures var ops := [Begin] + [Result(res, now, SameBlock)];
            SoundRun(Empty(max, 2, cfg), ops)
            && Run(Empty(max, 2, cfg), ops) ==
               Table([NewEntryOf(0, 0, 1, ssid, res, now)], 1, 1, 1, [0], None, [], max, 2, cfg)
  {
    var t, first := Empty(max, 2, cfg), Table([], 0, 0, 1, [], None, [], max, 2, cfg);
    assert SoundRun(t, [Begin]) && Run(t, [Begin]) == first by {
      RunSnoc(t, [], Begin);
      assert [] + [Begin] == [Begin];
    }
    RunSnoc(t, [Begin], Result(res, now, SameBlock));
    assert Step(first, Result(res, now, SameBlock)) ==
           Table([NewEntryOf(0, 0, 1, ssid, res, now)], 1, 1, 1, [0], None, [], max, 2, cfg) by {
      Hears(first, res, ssid, now);
    }
  }

  // ---- the current entry ----

  lemma NoWps(ssid: Ssid)
    requires |ssid| < 256
    ensures Multi(BeaconOf(ssid), WPS_IE_VENDOR_TYPE) == None
  {
    var es := [Element(SSID, ssid)];
    MultiOfEncoded(es, WPS_IE_VENDOR_TYPE);
    assert es[1..] == [] && !Matches(es[0], ByVendor(WPS_IE_VENDOR_TYPE));
  }

  /** One beacon, a connection to it, and one beacon of another network. */
  function ConnectedRun(a: ScanRes, b: ScanRes, now: RelTime, mine: Ssid): seq<Op>
  {
    [Begin] + [Result(a, now, SameBlock)] + [Roam(Some(Current(0, mine)))] + [Begin] + [Result(b, now, SameBlock)]
  }

  lemma Connected(cfg: Config, a: ScanRes, now: RelTime, mine: Ssid)
    requires Plain(cfg) && Beacon(a, mine)
    ensures var ops := [Begin] + [Result(a, now, SameBlock)] + [Roam(Some(Current(0, mine)))] + [Begin];
            var t := Run(Empty(1, 2, cfg), ops);
            SoundRun(Empty(1, 2, cfg), ops) && t.bss == [NewEntryOf(0, 0, 1, mine, a, now)] && CurrentLive(t)
            && t.current == Some(Current(0, mine)) && t.maxCount == 1 && t.cfg == cfg
  {
    var t, roam := Empty(1, 2, cfg), Roam(Some(Current(0, mine)));
    var ops := [Begin] + [Result(a, now, SameBlock)];
    FirstHeard(1, cfg, a, mine, now);
    RunSnoc(t, ops, roam);
    RunSnoc(t, ops + [roam], Begin);
    var bss := Run(t, ops).bss;
    assert bss[0].addr == 0 && bss[0].ssid == mine;
  }

  /** A network configured without an SSID protects nothing: in a full table the next beacon of
      another network evicts the entry the station is on. */
  lemma CurrentCanBeStranded(cfg: Config, a: ScanRes, b: ScanRes, now: RelTime, mine: Ssid, other: Ssid)
    requires Plain(cfg) && cfg.networks == [Network([], false, false, false)]
    requires mine != other && Beacon(a, mine) && Beacon(b, other)
    ensures var ops := ConnectedRun(a, b, now, mine);
            SoundRun(Empty(1, 2, cfg), ops) && !CurrentLive(Run(Empty(1, 2, cfg), ops))
  {
    var ops := [Begin] + [Result(a, now, SameBlock)] + [Roam(Some(Current(0, mine)))] + [Begin];
    var t := Run(Empty(1, 2, cfg), ops);
    Connected(cfg, a, now, mine);
    RunKeepsInv(Empty(1, 2, cfg), ops);
    RunSnoc(Empty(1, 2, cfg), ops, Result(b, now, SameBlock));
    BeaconFiled(other, b, now, cfg);
    NoWps(mine);
    assert !Wanted(cfg, t.bss[0]);
    ScanResultCurrent(t, b, now, SameBlock);
  }

  // ---- works ----

  /** A station that is not connected. */
  predicate Unconnected(cfg: Config)
  {
    cfg.bssid == ZERO_ADDR && cfg.pendingBssid == ZERO_ADDR
  }

  lemma SiftsOut(e: Entry, drop: Entry -> bool, change: Entry -> Entry)
    requires drop(e)
    ensures Sift([e], drop, change) == []
  {
    assert [e][1..] == [];
  }

  /** One pending work for authentication and one for association, for the same entry. */
  function BothWorks(): seq<Work>
  {
    [Work(SmeConnect, Some(0), false), Work(Connect, Some(0), false)]
  }

  lemma FlushStrands(t: Table, e: Entry)
    requires t.bss == [e] && t.works == BothWorks() && !InUse(t.current, t.cfg, e)
    ensures !WorksLive(Flush(t))
  {
    SiftsOut(e, x => !InUse(t.current, t.cfg, x), x => x);
    assert Flush(t).works[1] == t.works[1];
    assert !WorkLive(Flush(t), Flush(t).works[1]);
  }

  /** With both works pending for an entry, a flush clears the pointer of the first only. */
  lemma SecondWorkIsStranded(cfg: Config, a: ScanRes, now: RelTime, mine: Ssid)
    requires Plain(cfg) && Unconnected(cfg) && Beacon(a, mine)
    ensures var ops := [Begin] + [Result(a, now, SameBlock)] + [Schedule(BothWorks())] + [FlushAll];
            SoundRun(Empty(1, 2, cfg), ops) && !WorksLive(Run(Empty(1, 2, cfg), ops))
  {
    var t := Empty(1, 2, cfg);
    var ops := [Begin] + [Result(a, now, SameBlock)];
    FirstHeard(1, cfg, a, mine, now);
    RunSnoc(t, ops, Schedule(BothWorks()));
    RunSnoc(t, ops + [Schedule(BothWorks())], FlushAll);
    AddrIn(Run(t, ops).bss, 0);
    FlushStrands(Run(t, ops + [Schedule(BothWorks())]), NewEntryOf(0, 0, 1, mine, a, now));
  }

  // ---- the counts ----

  /** The table after two beacons of a round. */
  lemma TwoHeard(cfg: Config, a: ScanRes, b: ScanRes, mine: Ssid, other: Ssid, now: RelTime)
    requires Plain(cfg) && mine != other && Beacon(a, mine) && Beacon(b, other)
    ensures var ops := [Begin] + [Result(a, now, SameBlock)] + [Result(b, now, SameBlock)];
            SoundRun(Empty(2, 2, cfg), ops) && |Run(Empty(2, 2, cfg), ops).bss| == 2
  {
    var t, ops := Empty(2, 2, cfg), [Begin] + [Result(a, now, SameBlock)];
    FirstHeard(2, cfg, a, mine, now);
    RunSnoc(t, ops, Result(b, now, SameBlock));
    Hears(Run(t, ops), b, other, now);
  }

  /** Two beacons, and then a limit of one: the table holds more than it allows. */
  lemma LimitBelowSize(cfg: Config, a: ScanRes, b: ScanRes, mine: Ssid, other: Ssid, now: RelTime)
    requires Plain(cfg) && mine != other && Beacon(a, mine) && Beacon(b, other)
    ensures var ops := [Begin] + [Result(a, now, SameBlock)] + [Result(b, now, SameBlock)] + [SetCounts(1, 2)];
            var t := Run(Empty(2, 2, cfg), ops);
            SoundRun(Empty(2, 2, cfg), ops) && |t.bss| == 2 && t.maxCount == 1
  {
    TwoHeard(cfg, a, b, mine, other, now);
    RunSnoc(Empty(2, 2, cfg), [Begin] + [Result(a, now, SameBlock)] + [Result(b, now, SameBlock)], SetCounts(1, 2));
  }

  lemma MissedOnce(t: Table, e: Entry)
    requires t.bss == [e] && e.scanMiss == 0 && e.lastUpdateIdx < t.updateIdx
    requires !InUse(t.current, t.cfg, e) && t.expireCount == 2
    ensures End(t, None, true).bss == [e.(scanMiss := 1)]
  {
    SiftsThrough(e, x => Expires(t, None, x), x => Charged(t, None, x));
  }

  lemma SiftsThrough(e: Entry, drop: Entry -> bool, change: Entry -> Entry)
    requires !drop(e)
    ensures Sift([e], drop, change) == [change(e)]
  {
    assert [e][1..] == [];
  }

  /** A beacon, a scan that misses it, and then an expiration count of one: the entry stays although
      it missed as many scans. */
  lemma CountBelowMisses(cfg: Config, a: ScanRes, mine: Ssid, now: RelTime)
    requires Plain(cfg) && Unconnected(cfg) && Beacon(a, mine)
    ensures var ops := [Begin] + [Result(a, now, SameBlock)] + [Begin] + [Finish(None, true)] + [SetCounts(1, 1)];
            var t := Run(Empty(1, 2, cfg), ops);
            SoundRun(Empty(1, 2, cfg), ops) && |t.bss| == 1 && t.bss[0].scanMiss == t.expireCount == 1
  {
    var t, ops := Empty(1, 2, cfg), [Begin] + [Result(a, now, SameBlock)];
    FirstHeard(1, cfg, a, mine, now);
    RunSnoc(t, ops, Begin);
    RunSnoc(t, ops + [Begin], Finish(None, true));
    MissedOnce(Run(t, ops + [Begin]), NewEntryOf(0, 0, 1, mine, a, now));
    RunSnoc(t, ops + [Begin] + [Finish(None, true)], SetCounts(1, 1));
  }

  // ---- flushing by age ----

  lemma StopsAtOnce(t: Table, limit: RelTime)
    requires t.bss != [] && !InUse(t.current, t.cfg, t.bss[0]) && !Before(t.bss[0].lastUpdate, limit)
    ensures FlushByAge(t, limit).bss == t.bss
  {
    assert FirstFresh(t, limit, t.bss) == 0;
    assert t.bss[..0] == [];
  }

  /** Two beacons of a round, the second received long before: flushing by age stops at the fresh
      entry and leaves the old one behind it. */
  lemma OldEntryStays(cfg: Config, a: ScanRes, b: ScanRes, mine: Ssid, other: Ssid, now: RelTime, limit: RelTime)
    requires Plain(cfg) && Unconnected(cfg) && mine != other && Beacon(a, mine) && Beacon(b, other)
    requires !Before(UpdateTime(now, a.age), limit) && Before(UpdateTime(now, b.age), limit)
    ensures var t := Run(Empty(2, 2, cfg), [Begin] + [Result(a, now, SameBlock)] + [Result(b, now, SameBlock)]);
            |t.bss| == 2 && FlushByAge(t, limit).bss == t.bss && Stale(t, limit, t.bss[1])
  {
    var ops := [Begin] + [Result(a, now, SameBlock)];
    FirstHeard(2, cfg, a, mine, now);
    RunSnoc(Empty(2, 2, cfg), ops, Result(b, now, SameBlock));
    Hears(Run(Empty(2, 2, cfg), ops), b, other, now);
    StopsAtOnce(Run(Empty(2, 2, cfg), ops + [Result(b, now, SameBlock)]), limit);
  }
}
