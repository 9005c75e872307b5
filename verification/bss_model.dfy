/**
 The BSS table as a value: what each table operation does to the entries, to the record of the
 last scan and to every pointer held elsewhere.

 Pointers are addresses. Every allocation takes a new address, so a pointer to a freed or moved
 entry stays recognisable: it is an address that no table entry has.
 */
module BssModel {

  import opened Wrappers
  import opened Bytes
  import opened Elements

  type Addr = nat
  type Mac = seq<byte>
  type Ssid = seq<byte>

  // ---- time ----

  datatype RelTime = RelTime(sec: int, usec: int) {
    function Total(): int {
      sec * 1000000 + usec
    }

    predicate Normal() {
      0 <= usec < 1000000
    }
  }

  predicate Before(a: RelTime, b: RelTime)
  {
    a.sec < b.sec || (a.sec == b.sec && a.usec < b.usec)
  }

  /** When a result fetched at a given time and this old was received. */
  function UpdateTime(fetch: RelTime, ageMs: nat): (u: RelTime)
    ensures u.Total() == fetch.Total() - 1000 * ageMs && (fetch.Normal() ==> u.Normal())
  {
    var usec := ageMs % 1000 * 1000;
    if fetch.usec < usec then RelTime(fetch.sec - ageMs / 1000 - 1, fetch.usec + 1000000 - usec)
    else RelTime(fetch.sec - ageMs / 1000, fetch.usec - usec)
  }

  // ---- data ----

  /** The fields copied from every scan result as they are. */
  datatype Radio = Radio(flags: nat, freq: int, beaconInt: nat, caps: nat, qual: int, noise: int,
                         level: int, tsf: nat, estThroughput: nat, snr: int)

  datatype ScanRes = ScanRes(bssid: Mac, radio: Radio, age: nat, ies: seq<byte>, beaconIes: seq<byte>)

  datatype Entry = Entry(addr: Addr, id: nat, scanMiss: nat, lastUpdateIdx: nat, bssid: Mac,
                         hessid: Mac, ssid: Ssid, radio: Radio, lastUpdate: RelTime,
                         ies: seq<byte>, beaconIes: seq<byte>)

  /** A configured network. */
  datatype Network = Network(ssid: Ssid, wps: bool, pbcEnrollee: bool, pinEnrollee: bool)

  /** A radio work; only the two connect kinds hold a pointer to an entry. */
  datatype WorkKind = SmeConnect | Connect | Other

  datatype Work = Work(kind: WorkKind, bss: Option<Addr>, bssRemoved: bool)

  /** The entry the station is on: its address, and the SSID found there. */
  datatype Current = Current(addr: Addr, ssid: Ssid)

  /** Everything around the table that its operations read. The last two fields stand for the WPS parser. */
  datatype Config = Config(networks: seq<Network>, ignoreOld: bool, scanTrigger: RelTime,
                           filter: Option<seq<Mac>>, p2pInterface: bool, bssid: Mac, pendingBssid: Mac,
                           selectedPbc: seq<byte> -> bool, addrAuthorized: seq<byte> -> bool)

  datatype ScanInfo = ScanInfo(aborted: bool, freqs: seq<int>, ssids: seq<Ssid>)

  /** How the allocator answers: no memory, the same block, or another block. */
  datatype Alloc = NoMemory | SameBlock | NewBlock

  datatype Table = Table(
    bss: seq<Entry>,        // in update order
    nextId: nat,
    nextAddr: Addr,
    updateIdx: nat,
    lastScan: seq<Addr>,
    current: Option<Current>,
    works: seq<Work>,
    maxCount: nat,
    expireCount: nat,
    cfg: Config)

  const SSID_MAX_LEN := 32
  const P2P_WILDCARD_SSID: Ssid := [68, 73, 82, 69, 67, 84, 45]

  // ---- questions about one entry ----

  predicate Known(networks: seq<Network>, ssid: Ssid)
  {
    exists i :: 0 <= i < |networks| && networks[i].ssid != [] && networks[i].ssid == ssid
  }

  predicate WpsApplies(n: Network, ssid: Ssid)
  {
    n.wps && (n.ssid == [] || n.ssid == ssid)
  }

  /** The answer of the first WPS network the entry could belong to. */
  function WpsEnrollee(networks: seq<Network>, ssid: Ssid, pbc: bool): bool
  {
    if networks == [] then false
    else if WpsApplies(networks[0], ssid) then
      if pbc then networks[0].pbcEnrollee else networks[0].pinEnrollee
    else WpsEnrollee(networks[1..], ssid, pbc)
  }

  predicate WpsCandidate(cfg: Config, ies: seq<byte>, ssid: Ssid)
  {
    match Multi(ies, WPS_IE_VENDOR_TYPE)
    case None => false
    case Some(wps) =>
      (cfg.selectedPbc(wps) || cfg.addrAuthorized(wps)) && WpsEnrollee(cfg.networks, ssid, cfg.selectedPbc(wps))
  }

  /** An entry that eviction spares in its first round. */
  predicate Wanted(cfg: Config, e: Entry)
  {
    Known(cfg.networks, e.ssid) || WpsCandidate(cfg, e.ies, e.ssid)
  }

  predicate InUse(current: Option<Current>, cfg: Config, e: Entry)
  {
    if current.Some? && current.value.addr == e.addr then true
    else if current.Some? && current.value.ssid != e.ssid then false
    else e.bssid != ZERO_ADDR && (e.bssid == cfg.bssid || e.bssid == cfg.pendingBssid)
  }

  /** Whether the scan described by info should have seen the entry. */
  predicate Covers(info: Option<ScanInfo>, e: Entry)
  {
    info.Some? ==>
      && (info.value.freqs == [] || e.radio.freq in info.value.freqs)
      && (info.value.ssids == [] || [] in info.value.ssids || e.ssid in info.value.ssids)
  }

  // ---- removal ----

  function Addrs(bss: seq<Entry>): set<Addr>
  {
    set i | 0 <= i < |bss| :: bss[i].addr
  }

  /** The work whose pointer is kept up to date: the first sme-connect, else the first connect, else none. */
  function FirstOf(works: seq<Work>, kind: WorkKind): (k: nat)
    ensures k <= |works|
    ensures k < |works| ==> works[k].kind == kind
    ensures forall i :: 0 <= i < k ==> works[i].kind != kind
  {
    if works == [] then 0 else if works[0].kind == kind then 0 else 1 + FirstOf(works[1..], kind)
  }

  function Pending(works: seq<Work>): (k: nat)
    ensures k <= |works|
  {
    if FirstOf(works, SmeConnect) < |works| then FirstOf(works, SmeConnect) else FirstOf(works, Connect)
  }

  /** Point the pending connect work elsewhere if it names the given address. */
  function Repoint(works: seq<Work>, from: Addr, to: Option<Addr>): seq<Work>
  {
    var k := Pending(works);
    if k < |works| && works[k].bss == Some(from) then
      works[k := works[k].(bss := to, bssRemoved := works[k].bssRemoved || to.None?)]
    else works
  }

  /** Clear the pending connect work if it names any of the given addresses. */
  function Clear(works: seq<Work>, gone: set<Addr>): seq<Work>
  {
    var k := Pending(works);
    if k < |works| && works[k].bss.Some? && works[k].bss.value in gone then
      works[k := works[k].(bss := None, bssRemoved := true)]
    else works
  }

  function Keep(scan: seq<Addr>, gone: set<Addr>): seq<Addr>
  {
    if scan == [] then []
    else if scan[0] in gone then Keep(scan[1..], gone)
    else [scan[0]] + Keep(scan[1..], gone)
  }

  /** The table after its entries are cut down to a shorter list. The current pointer is not looked at. */
  function Shrink(t: Table, bss: seq<Entry>): Table
  {
    var gone := Addrs(t.bss) - Addrs(bss);
    t.(bss := bss, lastScan := Keep(t.lastScan, gone), works := Clear(t.works, gone))
  }

  function Without<T>(s: seq<T>, k: nat): (r: seq<T>)
    requires k < |s|
    ensures |r| == |s| - 1
    ensures forall i :: 0 <= i < k ==> r[i] == s[i]
    ensures forall i :: k <= i < |r| ==> r[i] == s[i + 1]
  {
    s[..k] + s[k + 1..]
  }

  /** Least recently updated entry that no configured network wants; the length if there is none. */
  function OldestUnwanted(cfg: Config, bss: seq<Entry>): (k: nat)
    ensures k <= |bss|
    ensures k < |bss| ==> !Wanted(cfg, bss[k])
    ensures forall i :: 0 <= i < k ==> Wanted(cfg, bss[i])
  {
    if bss == [] then 0 else if !Wanted(cfg, bss[0]) then 0 else 1 + OldestUnwanted(cfg, bss[1..])
  }

  /** Least recently updated entry not in use; the length if there is none. */
  function OldestIdle(current: Option<Current>, cfg: Config, bss: seq<Entry>): (k: nat)
    ensures k <= |bss|
    ensures k < |bss| ==> !InUse(current, cfg, bss[k])
    ensures forall i :: 0 <= i < k ==> InUse(current, cfg, bss[i])
  {
    if bss == [] then 0 else if !InUse(current, cfg, bss[0]) then 0 else 1 + OldestIdle(current, cfg, bss[1..])
  }

  /** The entry eviction takes; the length if every entry is both wanted and in use. */
  function Evictee(t: Table): (k: nat)
    ensures k <= |t.bss|
    ensures k == |t.bss| <==>
            forall i :: 0 <= i < |t.bss| ==> Wanted(t.cfg, t.bss[i]) && InUse(t.current, t.cfg, t.bss[i])
  {
    if OldestUnwanted(t.cfg, t.bss) < |t.bss| then OldestUnwanted(t.cfg, t.bss)
    else OldestIdle(t.current, t.cfg, t.bss)
  }

  // ---- adding and updating ----

  /** Make room for one more entry: evict, or raise the limit if nothing can be evicted. */
  function MakeRoom(t: Table): Table
  {
    if |t.bss| + 1 <= t.maxCount then t
    else if Evictee(t) < |t.bss| then Shrink(t, Without(t.bss, Evictee(t)))
    else t.(maxCount := |t.bss| + 1)
  }

  function NewEntryOf(addr: Addr, id: nat, updateIdx: nat, ssid: Ssid, res: ScanRes, fetch: RelTime): Entry
  {
    Entry(addr, id, 0, updateIdx, res.bssid, Hessid(res.ies), ssid, res.radio,
          UpdateTime(fetch, res.age), res.ies, res.beaconIes)
  }

  function NewEntry(t: Table, ssid: Ssid, res: ScanRes, fetch: RelTime): Entry
  {
    NewEntryOf(t.nextAddr, t.nextId, t.updateIdx, ssid, res, fetch)
  }

  /** The table just before a new entry is linked in. */
  function Prepared(t: Table): Table
  {
    MakeRoom(t).(nextId := t.nextId + 1, nextAddr := t.nextAddr + 1)
  }

  function Add(t: Table, ssid: Ssid, res: ScanRes, fetch: RelTime): Table
  {
    var e := NewEntry(t, ssid, res, fetch);
    var room := Prepared(t);
    room.(bss := room.bss + [e])
  }

  /** A result without P2P element does not replace elements that have one. */
  predicate KeepsElements(e: Entry, res: ScanRes)
  {
    Lookup(e.ies, ByVendor(P2P_IE_VENDOR_TYPE)).Some? && Lookup(res.ies, ByVendor(P2P_IE_VENDOR_TYPE)).None?
  }

  predicate FitsInPlace(e: Entry, res: ScanRes)
  {
    |e.ies| + |e.beaconIes| >= |res.ies| + |res.beaconIes|
  }

  predicate Moves(e: Entry, res: ScanRes, alloc: Alloc)
  {
    !KeepsElements(e, res) && !FitsInPlace(e, res) && alloc.NewBlock?
  }

  predicate TakesElements(e: Entry, res: ScanRes, alloc: Alloc)
  {
    !KeepsElements(e, res) && (FitsInPlace(e, res) || !alloc.NoMemory?)
  }

  /** The entry after a result for it; its HESSID is only looked at again when the elements differ. */
  function Refreshed(t: Table, e: Entry, res: ScanRes, fetch: RelTime, alloc: Alloc): Entry
  {
    var e1 := e.(scanMiss := 0, lastUpdateIdx := t.updateIdx, bssid := res.bssid, radio := res.radio,
                 lastUpdate := UpdateTime(fetch, res.age));
    var e2 := if TakesElements(e, res, alloc) then e1.(ies := res.ies, beaconIes := res.beaconIes) else e1;
    var e3 := if Moves(e, res, alloc) then e2.(addr := t.nextAddr) else e2;
    if e.ies != res.ies then e3.(hessid := Hessid(e3.ies)) else e3
  }

  function Replace(s: seq<Addr>, from: Addr, to: Addr): (r: seq<Addr>)
    ensures |r| == |s|
    ensures forall i :: 0 <= i < |s| ==> r[i] == if s[i] == from then to else s[i]
  {
    seq(|s|, i requires 0 <= i < |s| => if s[i] == from then to else s[i])
  }

  /** Every pointer the table repairs when an entry changes place. */
  function Redirect(t: Table, from: Addr, to: Addr): Table
  {
    t.(lastScan := Replace(t.lastScan, from, to),
       current := if t.current.Some? && t.current.value.addr == from then Some(t.current.value.(addr := to))
                  else t.current,
       works := Repoint(t.works, from, Some(to)))
  }

  function Update(t: Table, k: nat, res: ScanRes, fetch: RelTime, alloc: Alloc): Table
    requires k < |t.bss|
  {
    var e := t.bss[k];
    var bss := Without(t.bss, k) + [Refreshed(t, e, res, fetch, alloc)];
    if Moves(e, res, alloc) then
      Redirect(t, e.addr, t.nextAddr).(bss := bss, nextAddr := t.nextAddr + 1)
    else t.(bss := bss)
  }

  /** The SSID under which a scan result is filed; none when the result is ignored. */
  function FiledUnder(cfg: Config, res: ScanRes, fetch: RelTime): (r: Option<Ssid>)
    ensures r.Some? ==> |r.value| <= SSID_MAX_LEN
  {
    var ssid := Lookup(res.ies, ById(SSID));
    var p2p := Lookup(res.ies, ByVendor(P2P_IE_VENDOR_TYPE));
    var mesh := Lookup(res.ies, ById(MESH_ID));
    if cfg.ignoreOld && Before(UpdateTime(fetch, res.age), cfg.scanTrigger) then None
    else if ssid.None? || |ssid.value.payload| > SSID_MAX_LEN then None
    else if p2p.None? && cfg.p2pInterface then None
    else if p2p.Some? && ssid.value.payload == P2P_WILDCARD_SSID then None
    else if mesh.Some? && |mesh.value.payload| <= SSID_MAX_LEN then Some(mesh.value.payload)
    else Some(ssid.value.payload)
  }

  predicate Passes(filter: Option<seq<Mac>>, bssid: Mac)
  {
    filter.Some? ==> bssid in filter.value
  }

  /** First entry with the key; the length if there is none. */
  function Find(bss: seq<Entry>, bssid: Mac, ssid: Ssid): (k: nat)
    ensures k <= |bss|
    ensures k < |bss| ==> bss[k].bssid == bssid && bss[k].ssid == ssid
    ensures forall i :: 0 <= i < k ==> bss[i].bssid != bssid || bss[i].ssid != ssid
  {
    if bss == [] then 0 else if bss[0].bssid == bssid && bss[0].ssid == ssid then 0
    else 1 + Find(bss[1..], bssid, ssid)
  }

  /** Where a filed result finds its entry; a filtered BSSID never finds one. */
  function Target(t: Table, bssid: Mac, ssid: Ssid): (k: nat)
    ensures k <= |t.bss|
  {
    if Passes(t.cfg.filter, bssid) then Find(t.bss, bssid, ssid) else |t.bss|
  }

  function Noted(t: Table, a: Addr): Table
  {
    if a in t.lastScan then t else t.(lastScan := t.lastScan + [a])
  }

  function ScanResult(t: Table, res: ScanRes, fetch: RelTime, alloc: Alloc): Table
  {
    match FiledUnder(t.cfg, res, fetch)
    case None => t
    case Some(ssid) =>
      var k := Target(t, res.bssid, ssid);
      if k == |t.bss| then
        if alloc.NoMemory? then t
        else
          var t1 := Add(t, ssid, res, fetch);
          t1.(lastScan := t1.lastScan + [t.nextAddr])
      else
        var t1 := Update(t, k, res, fetch, alloc);
        Noted(t1, t1.bss[|t1.bss| - 1].addr)
  }

  // ---- rounds, expiry and flushing ----

  function Start(t: Table): Table
  {
    t.(updateIdx := t.updateIdx + 1, lastScan := [])
  }

  /** An entry whose absence from a finished scan counts. */
  predicate Examined(t: Table, info: Option<ScanInfo>, e: Entry)
  {
    !InUse(t.current, t.cfg, e) && Covers(info, e)
  }

  function Charged(t: Table, info: Option<ScanInfo>, e: Entry): Entry
  {
    if Examined(t, info, e) && e.lastUpdateIdx < t.updateIdx then e.(scanMiss := e.scanMiss + 1) else e
  }

  predicate Expires(t: Table, info: Option<ScanInfo>, e: Entry)
  {
    Examined(t, info, e) && Charged(t, info, e).scanMiss >= t.expireCount
  }

  /** Drop some entries and change the others, in order. */
  function Sift(bss: seq<Entry>, drop: Entry -> bool, change: Entry -> Entry): seq<Entry>
  {
    if bss == [] then []
    else (if drop(bss[0]) then [] else [change(bss[0])]) + Sift(bss[1..], drop, change)
  }

  function Survivors(t: Table, info: Option<ScanInfo>, bss: seq<Entry>): seq<Entry>
  {
    Sift(bss, e => Expires(t, info, e), e => Charged(t, info, e))
  }

  predicate Completed(info: Option<ScanInfo>, newScan: bool)
  {
    newScan && (info.Some? ==> !info.value.aborted)
  }

  function End(t: Table, info: Option<ScanInfo>, newScan: bool): Table
  {
    if Completed(info, newScan) then Shrink(t, Survivors(t, info, t.bss)) else t
  }

  function Busy(t: Table, bss: seq<Entry>): seq<Entry>
  {
    Sift(bss, e => !InUse(t.current, t.cfg, e), e => e)
  }

  function Flush(t: Table): Table
  {
    Shrink(t, Busy(t, t.bss))
  }

  /** What flushing by age is after: an idle entry older than the limit. */
  predicate Stale(t: Table, limit: RelTime, e: Entry)
  {
    !InUse(t.current, t.cfg, e) && Before(e.lastUpdate, limit)
  }

  /** First idle entry that is not old, where flushing by age stops; the length if there is none. */
  function FirstFresh(t: Table, limit: RelTime, bss: seq<Entry>): (k: nat)
    ensures k <= |bss|
    ensures k < |bss| ==> !InUse(t.current, t.cfg, bss[k]) && !Before(bss[k].lastUpdate, limit)
    ensures forall i :: 0 <= i < k ==> InUse(t.current, t.cfg, bss[i]) || Before(bss[i].lastUpdate, limit)
  {
    if bss == [] then 0
    else if !InUse(t.current, t.cfg, bss[0]) && !Before(bss[0].lastUpdate, limit) then 0
    else 1 + FirstFresh(t, limit, bss[1..])
  }

  function Younger(t: Table, limit: RelTime, bss: seq<Entry>): seq<Entry>
  {
    var k := FirstFresh(t, limit, bss);
    Sift(bss[..k], e => Stale(t, limit, e), e => e) + bss[k..]
  }

  function FlushByAge(t: Table, limit: RelTime): Table
  {
    Shrink(t, Younger(t, limit, t.bss))
  }
}
