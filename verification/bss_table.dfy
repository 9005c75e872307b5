/**
 The BSS table in memory: entries are objects that two lists, the record of the last scan, the
 current pointer and the radio works all refer to. Every operation is proved to do to the value
 of the table what the model says.
 */
module BssTables {

  import opened Wrappers
  import opened Bytes
  import opened Elements
  import opened BssModel
  import opened BssInvariant
  import opened BssRuns
  import opened BssPointers
  import opened BssChanges
  import opened BssObjects

  /** A radio work with its pointer. */
  datatype WorkRef = WorkRef(kind: WorkKind, bss: Bss?, bssRemoved: bool) {
    function Value(): Work {
      Work(kind, if bss == null then None else Some(bss.addr), bssRemoved)
    }
  }

  /** The facts about a table that single removals rely on and keep. */
  ghost predicate Core(t: Table)
  {
    && Identified(t.bss, t.nextAddr, t.nextId)
    && NoRepeats(t.lastScan)
    && PointersAllocated(t)
  }

  // ---- what the memory has to do with the value ----

  ghost predicate Mirrored(bss: seq<Bss>, values: seq<Entry>)
    reads bss`contents
  {
    |bss| == |values| && forall i :: 0 <= i < |bss| ==> bss[i].Value() == values[i]
  }

  /** The list by id holds the entries of the table, each once, in the order of their ids. */
  ghost predicate IdOrdered(byId: seq<Bss>, bss: seq<Bss>)
  {
    && |byId| == |bss|
    && (forall x :: x in bss ==> x in byId)
    && (forall x :: x in byId ==> x in bss)
    && (forall i, j :: 0 <= i < j < |byId| ==> byId[i].id < byId[j].id)
  }

  /** The record of the last scan points to entries of the table with the given addresses. */
  ghost predicate ScanNames(scan: seq<Bss?>, bss: seq<Bss>, addrs: seq<Addr>)
  {
    && |scan| == |addrs|
    && forall i :: 0 <= i < |scan| ==> scan[i] != null && scan[i] in bss && scan[i].addr == addrs[i]
  }

  /** A pointer with the address of an entry is a pointer to that entry. */
  ghost predicate Names(b: Bss?, bss: seq<Bss>)
  {
    b != null ==> forall i :: 0 <= i < |bss| && bss[i].addr == b.addr ==> bss[i] == b
  }

  ghost predicate WorksName(works: seq<WorkRef>, bss: seq<Bss>, values: seq<Work>)
  {
    && |works| == |values|
    && forall i :: 0 <= i < |works| ==> works[i].Value() == values[i] && Names(works[i].bss, bss)
  }

  function CurrentOf(b: Bss?): Option<Current>
  {
    if b == null then None else Some(Current(b.addr, b.ssid))
  }

  // ---- values ----

  /** Dropping one address from a record without repeats drops one position. */
  lemma {:induction false} KeepWithout(scan: seq<Addr>, a: Addr, i: nat)
    requires NoRepeats(scan) && i < |scan| && scan[i] == a
    ensures Keep(scan, {a}) == Without(scan, i)
  {
    if i == 0 {
      KeepAll(scan[1..], {a});
    } else {
      KeepWithout(scan[1..], a, i - 1);
      assert [scan[0]] + Without(scan[1..], i - 1) == Without(scan, i);
    }
  }

  lemma {:induction false} KeepAll(scan: seq<Addr>, gone: set<Addr>)
    requires forall i :: 0 <= i < |scan| ==> scan[i] !in gone
    ensures Keep(scan, gone) == scan
  {
    if scan != [] {
      KeepAll(scan[1..], gone);
    }
  }

  lemma {:induction false} KeepTwice(scan: seq<Addr>, g1: set<Addr>, g2: set<Addr>)
    ensures Keep(Keep(scan, g1), g2) == Keep(scan, g1 + g2)
  {
    if scan != [] {
      KeepTwice(scan[1..], g1, g2);
      if scan[0] !in g1 {
        assert ([scan[0]] + Keep(scan[1..], g1))[1..] == Keep(scan[1..], g1);
      }
    }
  }

  lemma ClearTwice(works: seq<Work>, g1: set<Addr>, g2: set<Addr>)
    ensures Clear(Clear(works, g1), g2) == Clear(works, g1 + g2)
  {
    PendingSameKinds(works, Clear(works, g1));
  }

  /** Removing in two goes is removing at once. */
  lemma ShrinkTwice(t: Table, a: seq<Entry>, b: seq<Entry>)
    requires Addrs(b) <= Addrs(a) <= Addrs(t.bss)
    ensures Shrink(Shrink(t, a), b) == Shrink(t, b)
  {
    var g1, g2 := Addrs(t.bss) - Addrs(a), Addrs(a) - Addrs(b);
    KeepTwice(t.lastScan, g1, g2);
    ClearTwice(t.works, g1, g2);
    assert g1 + g2 == Addrs(t.bss) - Addrs(b);
  }

  lemma ShrinkCore(t: Table, bss: seq<Entry>, m: seq<nat>)
    requires Core(t) && Selects(bss, t.bss, m)
    ensures Core(Shrink(t, bss))
  {
    forall i, j | 0 <= i < j < |bss|
      ensures bss[i].addr != bss[j].addr && bss[i].id != bss[j].id
    {
      assert m[i] < m[j];
    }
    KeepIsFilter(t.lastScan, Addrs(t.bss) - Addrs(bss));
    ShrinkPointers(t, bss);
  }

  lemma RemoveIsShrink(t: Table, k: nat)
    requires Core(t) && k < |t.bss|
    ensures var a := t.bss[k].addr;
            Shrink(t, Without(t.bss, k)) == t.(bss := Without(t.bss, k), lastScan := Keep(t.lastScan, {a}),
                                               works := Repoint(t.works, a, None))
    ensures Core(Shrink(t, Without(t.bss, k)))
  {
    AddrsOfWithout(t.bss, k, t.nextAddr, t.nextId);
    AddrIn(t.bss, k);
    assert Addrs(t.bss) - Addrs(Without(t.bss, k)) == {t.bss[k].addr};
    WithoutSelects(t.bss, k);
    ShrinkCore(t, Without(t.bss, k), Skip(|t.bss|, k));
  }

  lemma LinkCore(t: Table, e: Entry)
    requires Core(t) && e.id == t.nextId && e.addr == t.nextAddr
    ensures Core(t.(bss := t.bss + [e], nextId := t.nextId + 1, nextAddr := t.nextAddr + 1))
  {
  }

  lemma RewriteCore(t: Table, k: nat, e: Entry)
    requires Core(t) && k < |t.bss| && e.addr == t.bss[k].addr && e.id == t.bss[k].id
    ensures Core(t.(bss := t.bss[k := e]))
  {
  }

  lemma MoveCore(t: Table, k: nat)
    requires Core(t) && k < |t.bss|
    ensures Core(t.(bss := ToEnd(t.bss, k)))
  {
  }

  lemma RelocateCore(t: Table, k: nat)
    requires Core(t) && k < |t.bss| && forall i :: 0 <= i < |t.lastScan| ==> t.lastScan[i] in Addrs(t.bss)
    ensures Core(Relocated(t, k))
  {
    assert t.nextAddr !in Addrs(t.bss);
    ReplaceKeeps(t.lastScan, t.bss[k].addr, t.nextAddr);
  }

  function ToEnd<T>(s: seq<T>, k: nat): (r: seq<T>)
    requires k < |s|
    ensures |r| == |s|
    ensures forall i :: 0 <= i < |s| ==> r[i] == if i < k then s[i] else if i < |s| - 1 then s[i + 1] else s[k]
  {
    Without(s, k) + [s[k]]
  }

  lemma AddInSteps(t: Table, ssid: Ssid, res: ScanRes, fetch: RelTime)
    ensures var room, e := MakeRoom(t), NewEntry(t, ssid, res, fetch);
            && room.nextId == t.nextId && room.nextAddr == t.nextAddr
            && Add(t, ssid, res, fetch) == room.(bss := room.bss + [e], nextId := e.id + 1, nextAddr := e.addr + 1)
  {
  }

  /** The table with a new entry for a result, noted. */
  function Admitted(t: Table, ssid: Ssid, res: ScanRes, fetch: RelTime): Table
  {
    var t1 := Add(t, ssid, res, fetch);
    t1.(lastScan := t1.lastScan + [t.nextAddr])
  }

  lemma FiledResult(t: Table, ssid: Ssid, res: ScanRes, fetch: RelTime, alloc: Alloc)
    requires FiledUnder(t.cfg, res, fetch) == Some(ssid)
    ensures var k := Target(t, res.bssid, ssid);
            ScanResult(t, res, fetch, alloc) ==
              if k < |t.bss| then Renewed(t, k, res, fetch, alloc)
              else if alloc.NoMemory? then t else Admitted(t, ssid, res, fetch)
  {
  }

  /** The table with entry k updated and noted. */
  function Renewed(t: Table, k: nat, res: ScanRes, fetch: RelTime, alloc: Alloc): Table
    requires k < |t.bss|
  {
    var t1 := Update(t, k, res, fetch, alloc);
    Noted(t1, t1.bss[|t1.bss| - 1].addr)
  }

  /** The table after entry k got a new block, before its contents change. */
  function Relocated(t: Table, k: nat): Table
    requires k < |t.bss|
  {
    Redirect(t, t.bss[k].addr, t.nextAddr).(
      bss := t.bss[k := t.bss[k].(addr := t.nextAddr)], nextAddr := t.nextAddr + 1)
  }

  // ---- pointers ----

  lemma NamesEntry(bss: seq<Bss>, values: seq<Entry>, k: nat, nextAddr: Addr, nextId: nat)
    requires Mirrored(bss, values) && Identified(values, nextAddr, nextId) && k < |bss|
    ensures Names(bss[k], bss)
    ensures forall i :: 0 <= i < |bss| && i != k ==> bss[i].addr != bss[k].addr && bss[i] != bss[k]
  {
    forall i | 0 <= i < |bss| && i != k
      ensures bss[i].addr != bss[k].addr
    {
      assert values[i].addr != values[k].addr;
      assert bss[i].Value() == values[i] && bss[k].Value() == values[k];
    }
  }

  /** A pointer to an entry of the table is unambiguous and good. */
  lemma NamesMember(bss: seq<Bss>, t: Table, b: Bss?)
    requires Mirrored(bss, t.bss) && Core(t) && (b == null || b in bss)
    ensures Names(b, bss)
    ensures b != null ==> b.addr in Addrs(t.bss) && b.addr < t.nextAddr && Holds(t.bss, Current(b.addr, b.ssid))
  {
    if b != null {
      var k := Position(bss, b);
      NamesEntry(bss, t.bss, k, t.nextAddr, t.nextId);
      assert bss[k].Value() == t.bss[k];
      AddrIn(t.bss, k);
    }
  }

  function WorkValues(ws: seq<WorkRef>): (r: seq<Work>)
    ensures |r| == |ws| && forall i :: 0 <= i < |ws| ==> r[i] == ws[i].Value()
  {
    seq(|ws|, i requires 0 <= i < |ws| => ws[i].Value())
  }

  lemma NamedOnce(bss: seq<Bss>, values: seq<Entry>, nextAddr: Addr, nextId: nat)
    requires Mirrored(bss, values) && Identified(values, nextAddr, nextId)
    ensures Distinct(bss)
  {
    forall i, j | 0 <= i < j < |bss|
      ensures bss[i] != bss[j]
    {
      assert bss[i].Value() == values[i] && bss[j].Value() == values[j];
    }
  }

  /** Addresses not handed out yet are nowhere. */
  lemma BelowNext(t: Table, bss: seq<Bss>, current: Bss?, works: seq<WorkRef>)
    requires Core(t) && Mirrored(bss, t.bss) && t.current == CurrentOf(current) && WorksName(works, bss, t.works)
    ensures forall i :: 0 <= i < |bss| ==> bss[i].addr < t.nextAddr && bss[i].id < t.nextId
    ensures current != null ==> current.addr < t.nextAddr
    ensures forall i :: 0 <= i < |works| && works[i].bss != null ==> works[i].bss.addr < t.nextAddr
  {
    forall i | 0 <= i < |bss|
      ensures bss[i].addr < t.nextAddr && bss[i].id < t.nextId
    {
      assert bss[i].Value() == t.bss[i];
    }
    forall i | 0 <= i < |works| && works[i].bss != null
      ensures works[i].bss.addr < t.nextAddr
    {
      assert works[i].Value() == t.works[i];
    }
  }

  /** A pointer stays unambiguous when entries go, and when one with another address comes. */
  lemma NamesAfter(b: Bss?, bss: seq<Bss>, bss': seq<Bss>, nb: Bss?)
    requires Names(b, bss) && forall i :: 0 <= i < |bss'| ==> bss'[i] in bss || bss'[i] == nb
    requires b != null && nb != null && b.addr == nb.addr ==> b == nb
    ensures Names(b, bss')
  {
  }

  lemma WorksNameAfter(works: seq<WorkRef>, bss: seq<Bss>, values: seq<Work>, bss': seq<Bss>, nb: Bss?)
    requires WorksName(works, bss, values) && forall i :: 0 <= i < |bss'| ==> bss'[i] in bss || bss'[i] == nb
    requires forall i :: 0 <= i < |works| && works[i].bss != null && nb != null && works[i].bss.addr == nb.addr ==>
               works[i].bss == nb
    ensures WorksName(works, bss', values)
  {
    forall i | 0 <= i < |works|
      ensures Names(works[i].bss, bss')
    {
      NamesAfter(works[i].bss, bss, bss', nb);
    }
  }

  lemma WithoutMembers(s: seq<Bss>, k: nat)
    requires k < |s| && forall i :: 0 <= i < |s| && i != k ==> s[i] != s[k]
    ensures forall x :: x in Without(s, k) <==> x in s && x != s[k]
  {
    forall x | x in s && x != s[k]
      ensures x in Without(s, k)
    {
      var i :| 0 <= i < |s| && s[i] == x;
      assert Without(s, k)[if i < k then i else i - 1] == x;
    }
  }

  lemma ToEndMembers(s: seq<Bss>, k: nat)
    requires k < |s|
    ensures forall x :: x in ToEnd(s, k) <==> x in s
  {
    forall x | x in s
      ensures x in ToEnd(s, k)
    {
      var i :| 0 <= i < |s| && s[i] == x;
      assert ToEnd(s, k)[if i < k then i else if i == k then |s| - 1 else i - 1] == x;
    }
  }

  lemma ReplacedMember(s: seq<Bss>, k: nat, nb: Bss, x: Bss)
    requires k < |s| && (x == nb || (x in s && x != s[k]))
    ensures x in s[k := nb]
  {
    if x == nb {
      assert s[k := nb][k] == x;
    } else {
      var i :| 0 <= i < |s| && s[i] == x;
      assert s[k := nb][i] == x;
    }
  }

  /** Where an object is in a list. */
  lemma Position(s: seq<Bss>, b: Bss) returns (p: nat)
    requires b in s
    ensures p < |s| && s[p] == b
  {
    p :| p < |s| && s[p] == b;
  }

  lemma IdOrderedWithout(byId: seq<Bss>, bss: seq<Bss>, p: nat, k: nat)
    requires IdOrdered(byId, bss) && p < |byId| && k < |bss| && byId[p] == bss[k]
    requires forall i :: 0 <= i < |bss| && i != k ==> bss[i] != bss[k]
    ensures IdOrdered(Without(byId, p), Without(bss, k))
  {
    WithoutMembers(bss, k);
    assert forall i :: 0 <= i < |byId| && i != p ==> byId[i] != byId[p];
    WithoutMembers(byId, p);
  }

  lemma ReplacedHas(s: seq<Bss>, k: nat, nb: Bss, x: Bss)
    requires k < |s| && forall i :: 0 <= i < |s| && i != k ==> s[i] != s[k]
    ensures x in s[k := nb] <==> x == nb || (x in s && x != s[k])
  {
    if x == nb || (x in s && x != s[k]) {
      ReplacedMember(s, k, nb, x);
    }
    if x in s[k := nb] {
      var i :| 0 <= i < |s| && s[k := nb][i] == x;
      assert i != k ==> s[i] == x;
    }
  }

  lemma IdOrderedReplaced(byId: seq<Bss>, bss: seq<Bss>, p: nat, k: nat, nb: Bss)
    requires IdOrdered(byId, bss) && p < |byId| && k < |bss| && byId[p] == bss[k] && nb.id == bss[k].id
    requires Distinct(bss)
    ensures IdOrdered(byId[p := nb], bss[k := nb])
  {
    var byId', bss' := byId[p := nb], bss[k := nb];
    assert forall i :: 0 <= i < |byId| && i != p ==> byId[i] != byId[p] by {
      assert forall i :: 0 <= i < |byId| && i != p ==> byId[i].id != byId[p].id;
    }
    forall x: Bss
      ensures x in bss' <==> x in byId'
    {
      ReplacedHas(bss, k, nb, x);
      ReplacedHas(byId, p, nb, x);
    }
    forall i, j | 0 <= i < j < |byId'|
      ensures byId'[i].id < byId'[j].id
    {
      assert byId[i].id < byId[j].id;
    }
  }

  /** An object taken off a list by id is not on it, and the list still names none twice. */
  lemma OffList(byId: seq<Bss>, p: nat)
    requires p < |byId| && forall i, j :: 0 <= i < j < |byId| ==> byId[i].id < byId[j].id
    ensures Distinct(Without(byId, p)) && byId[p] !in Without(byId, p)
            && Nth(Without(byId, p), p - 1) == Nth(byId, p - 1)
  {
    var s := Without(byId, p);
    forall i | 0 <= i < |s|
      ensures s[i] != byId[p]
    {
      assert s[i] == byId[if i < p then i else i + 1];
    }
  }

  /** What holds of the ids of one list holds of the other. */
  lemma SameIds(byId: seq<Bss>, bss: seq<Bss>, j: nat, first: nat, last: nat)
    requires IdOrdered(byId, bss) && j <= |byId| && forall i :: 0 <= i < j ==> !(first <= byId[i].id <= last)
    ensures forall i :: 0 <= i < |bss| && first <= bss[i].id <= last ==> j < |byId| && byId[j].id <= bss[i].id
  {
    forall i | 0 <= i < |bss| && first <= bss[i].id <= last
      ensures j < |byId| && byId[j].id <= bss[i].id
    {
      assert bss[i] in bss;
      var p := Position(byId, bss[i]);
      assert byId[p] == bss[i];
      assert p > j ==> byId[j].id < byId[p].id;
    }
  }

  lemma ScanNamesWithout(scan: seq<Bss?>, bss: seq<Bss>, addrs: seq<Addr>, k: nat)
    requires ScanNames(scan, bss, addrs) && k < |bss| && bss[k] !in scan
    requires forall i :: 0 <= i < |bss| && i != k ==> bss[i] != bss[k]
    ensures ScanNames(scan, Without(bss, k), addrs)
  {
    WithoutMembers(bss, k);
  }

  lemma ScanNamesReplaced(scan: seq<Bss?>, bss: seq<Bss>, addrs: seq<Addr>, k: nat, nb: Bss)
    requires |scan| == |addrs| && k < |bss|
    requires forall i :: 0 <= i < |bss| && i != k ==> bss[i] != bss[k]
    requires forall i :: 0 <= i < |scan| ==> scan[i] != null && scan[i].addr == addrs[i]
    requires forall i :: 0 <= i < |scan| ==> scan[i] == nb || (scan[i] in bss && scan[i] != bss[k])
    ensures ScanNames(scan, bss[k := nb], addrs)
  {
    forall i | 0 <= i < |scan|
      ensures scan[i] in bss[k := nb]
    {
      ReplacedMember(bss, k, nb, scan[i]);
    }
  }

  /** Pointers are unambiguous after entry k was replaced, once those to it point to the new object. */
  lemma NamesReplaced(b: Bss?, bss: seq<Bss>, k: nat, nb: Bss)
    requires k < |bss| && (b == nb || (Names(b, bss) && (b != null ==> b.addr != nb.addr)))
    requires forall i :: 0 <= i < |bss| ==> bss[i].addr != nb.addr
    ensures Names(b, bss[k := nb])
  {
  }

  /** Everything around the list of entries is right for the list without one of them. */
  lemma AroundWithout(bss: seq<Bss>, k: nat, scan: seq<Bss?>, addrs: seq<Addr>,
                      current: Bss?, works: seq<WorkRef>, values: seq<Work>)
    requires k < |bss| && (forall i :: 0 <= i < |bss| && i != k ==> bss[i] != bss[k])
    requires ScanNames(scan, bss, addrs) && bss[k] !in scan && Names(current, bss) && WorksName(works, bss, values)
    ensures ScanNames(scan, Without(bss, k), addrs)
    ensures Names(current, Without(bss, k)) && WorksName(works, Without(bss, k), values)
  {
    ScanNamesWithout(scan, bss, addrs, k);
    assert forall i :: 0 <= i < |bss| - 1 ==> Without(bss, k)[i] in bss;
    NamesAfter(current, bss, Without(bss, k), null);
    WorksNameAfter(works, bss, values, Without(bss, k), null);
  }

  lemma AroundToEnd(bss: seq<Bss>, k: nat, scan: seq<Bss?>, addrs: seq<Addr>,
                    current: Bss?, works: seq<WorkRef>, values: seq<Work>)
    requires k < |bss| && ScanNames(scan, bss, addrs) && Names(current, bss) && WorksName(works, bss, values)
    ensures ScanNames(scan, ToEnd(bss, k), addrs)
    ensures Names(current, ToEnd(bss, k)) && WorksName(works, ToEnd(bss, k), values)
  {
    ToEndMembers(bss, k);
    NamesAfter(current, bss, ToEnd(bss, k), null);
    WorksNameAfter(works, bss, values, ToEnd(bss, k), null);
  }

  lemma AroundLinked(bss: seq<Bss>, b: Bss, scan: seq<Bss?>, addrs: seq<Addr>,
                     current: Bss?, works: seq<WorkRef>, values: seq<Work>)
    requires ScanNames(scan, bss, addrs) && Names(current, bss) && WorksName(works, bss, values)
    requires current != null ==> current.addr < b.addr
    requires forall i :: 0 <= i < |works| && works[i].bss != null ==> works[i].bss.addr < b.addr
    ensures ScanNames(scan, bss + [b], addrs)
    ensures Names(current, bss + [b]) && WorksName(works, bss + [b], values)
  {
    NamesAfter(current, bss, bss + [b], b);
    WorksNameAfter(works, bss, values, bss + [b], b);
  }

  lemma IdOrderedLinked(byId: seq<Bss>, bss: seq<Bss>, b: Bss)
    requires IdOrdered(byId, bss) && forall i :: 0 <= i < |bss| ==> bss[i].id < b.id
    ensures IdOrdered(Inserted(byId, |byId|, b), bss + [b]) && b !in byId && Distinct(byId)
  {
    assert Inserted(byId, |byId|, b) == byId + [b];
    forall i | 0 <= i < |byId|
      ensures byId[i].id < b.id
    {
      assert byId[i] in byId;
      var j := Position(bss, byId[i]);
    }
  }

  lemma MirroredReplaced(bss: seq<Bss>, values: seq<Entry>, k: nat, nb: Bss)
    requires Mirrored(bss, values) && k < |bss|
    ensures Mirrored(bss[k := nb], values[k := nb.Value()])
  {
  }

  lemma MirroredAppended(bss: seq<Bss>, values: seq<Entry>, b: Bss)
    requires Mirrored(bss, values)
    ensures Mirrored(bss + [b], values + [b.Value()])
  {
  }

  lemma MirroredWithout(bss: seq<Bss>, values: seq<Entry>, k: nat)
    requires Mirrored(bss, values) && k < |bss|
    ensures Mirrored(Without(bss, k), Without(values, k)) && Mirrored(ToEnd(bss, k), ToEnd(values, k))
  {
  }

  // ---- pointer arrays and works ----

  function AddrOf(b: Bss?): Option<Addr>
  {
    if b == null then None else Some(b.addr)
  }

  method FindWork(works: seq<WorkRef>, kind: WorkKind, ghost values: seq<Work>) returns (k: nat)
    requires |works| == |values| && forall i :: 0 <= i < |works| ==> works[i].Value() == values[i]
    ensures k == FirstOf(values, kind)
  {
    k := 0;
    while k < |works| && works[k].kind != kind
      invariant 0 <= k <= |works|
      invariant forall i :: 0 <= i < k ==> values[i].kind != kind
    {
      k := k + 1;
    }
  }

  method RepointWorks(works: seq<WorkRef>, ghost values: seq<Work>, from: Bss, to: Bss?, ghost bss: seq<Bss>)
    returns (r: seq<WorkRef>)
    requires WorksName(works, bss, values) && from in bss
    ensures |r| == |Repoint(values, from.addr, AddrOf(to))| == |works|
    ensures forall i :: 0 <= i < |r| ==> r[i].bss == works[i].bss || r[i].bss == to
    ensures forall i :: 0 <= i < |r| ==> r[i].Value() == Repoint(values, from.addr, AddrOf(to))[i]
  {
    assert forall i :: 0 <= i < |works| && works[i].bss != null && works[i].bss.addr == from.addr ==>
             works[i].bss == from;
    r := works;
    var k := FindWork(works, SmeConnect, values);
    if k == |works| {
      k := FindWork(works, Connect, values);
    }
    if k < |works| && works[k].bss == from {
      r := works[k := works[k].(bss := to, bssRemoved := works[k].bssRemoved || to == null)];
    }
  }

  /** Drop a pointer from the used part of an array, moving the rest down. */
  method DropPointer(a: array<Bss?>, used: nat, b: Bss, ghost bss: seq<Bss>, ghost addrs: seq<Addr>) returns (left: nat)
    requires used <= a.Length && ScanNames(a[..used], bss, addrs) && NoRepeats(addrs) && Names(b, bss)
    modifies a
    ensures left <= used && ScanNames(a[..left], bss, Keep(addrs, {b.addr}))
    ensures b !in a[..left]
  {
    assert forall i :: 0 <= i < used ==> a[..used][i] == a[i];
    assert forall i :: 0 <= i < used ==> (a[i] == b <==> addrs[i] == b.addr);
    var i := 0;
    while i < used && a[i] != b
      invariant 0 <= i <= used
      invariant forall j :: 0 <= j < i ==> a[j] != b
    {
      i := i + 1;
    }
    if i == used {
      KeepAll(addrs, {b.addr});
      return used;
    }
    KeepWithout(addrs, b.addr, i);
    forall j | i <= j < used - 1 {
      a[j] := a[j + 1];
    }
    assert forall j :: 0 <= j < used - 1 ==> a[j] == old(a[if j < i then j else j + 1]);
    return used - 1;
  }

  /** Replace a pointer in the used part of an array. */
  method ReplacePointer(a: array<Bss?>, used: nat, b: Bss, nb: Bss, ghost bss: seq<Bss>, ghost addrs: seq<Addr>)
    requires used <= a.Length && ScanNames(a[..used], bss, addrs) && NoRepeats(addrs) && Names(b, bss)
    modifies a
    ensures |addrs| == |a[..used]|
    ensures forall i :: 0 <= i < used ==>
              a[..used][i] != null && a[..used][i].addr == Replace(addrs, b.addr, nb.addr)[i]
    ensures forall i :: 0 <= i < used ==> a[..used][i] == nb || (a[..used][i] in bss && a[..used][i] != b)
  {
    assert forall i :: 0 <= i < used ==> a[..used][i] == a[i];
    assert forall i :: 0 <= i < used ==> (a[i] == b <==> addrs[i] == b.addr);
    var i := 0;
    while i < used && a[i] != b
      invariant 0 <= i <= used
      invariant forall j :: 0 <= j < i ==> a[j] != b
    {
      i := i + 1;
    }
    if i < used {
      assert forall j :: i < j < used ==> addrs[j] != addrs[i];
      a[i] := nb;
    }
  }

  // ---- questions asked in loops ----

  method IsKnown(networks: seq<Network>, ssid: Ssid) returns (r: bool)
    ensures r == Known(networks, ssid)
  {
    for i := 0 to |networks|
      invariant forall j :: 0 <= j < i ==> networks[j].ssid == [] || networks[j].ssid != ssid
    {
      if networks[i].ssid == [] {
        continue;
      }
      if networks[i].ssid == ssid {
        return true;
      }
    }
    return false;
  }

  method IsWpsCandidate(cfg: Config, ies: seq<byte>, ssid: Ssid) returns (r: bool)
    ensures r == WpsCandidate(cfg, ies, ssid)
  {
    var wps := GetVendorIeMulti(ies, WPS_IE_VENDOR_TYPE);
    if wps.None? {
      return false;
    }
    var pbc := cfg.selectedPbc(wps.value);
    if !pbc && !cfg.addrAuthorized(wps.value) {
      return false;
    }
    for i := 0 to |cfg.networks|
      invariant WpsEnrollee(cfg.networks[i..], ssid, pbc) == WpsEnrollee(cfg.networks, ssid, pbc)
    {
      var n := cfg.networks[i];
      assert cfg.networks[i..][0] == n && cfg.networks[i..][1..] == cfg.networks[i + 1..];
      if !n.wps {
        continue;
      }
      if n.ssid != [] && n.ssid != ssid {
        continue;
      }
      return if pbc then n.pbcEnrollee else n.pinEnrollee;
    }
    return false;
  }

  method IsCovered(info: Option<ScanInfo>, freq: int, ssid: Ssid, ghost e: Entry) returns (r: bool)
    requires e.radio.freq == freq && e.ssid == ssid
    ensures r == Covers(info, e)
  {
    if info.None? {
      return true;
    }
    var found := true;
    if info.value.freqs != [] {
      found := false;
      for i := 0 to |info.value.freqs|
        invariant !found && freq !in info.value.freqs[..i]
      {
        if freq == info.value.freqs[i] {
          found := true;
          break;
        }
      }
      if !found {
        return false;
      }
    }
    if info.value.ssids != [] {
      found := false;
      for i := 0 to |info.value.ssids|
        invariant !found && [] !in info.value.ssids[..i] && ssid !in info.value.ssids[..i]
      {
        if info.value.ssids[i] == [] || info.value.ssids[i] == ssid {
          found := true;
          break;
        }
      }
      if !found {
        return false;
      }
    }
    return true;
  }

  class BssTable {
    var bss: seq<Bss>
    var idFirst: Bss?
    var idLast: Bss?
    var numBss: nat
    var nextId: nat
    var nextAddr: Addr
    var updateIdx: nat
    var lastScanRes: array<Bss?>
    var lastScanUsed: nat
    var current: Bss?
    var works: seq<WorkRef>
    var maxCount: nat
    var expireCount: nat
    var cfg: Config

    /** The list by id, from its first object on, and the objects that have been on it. */
    ghost var bssId: seq<Bss>
    ghost var listed: set<Bss>

    /** The value of the table. */
    ghost var view: Table

    ghost predicate NumbersMirror()
      reads `nextId, `nextAddr, `updateIdx, `maxCount, `expireCount, `cfg, `view
    {
      && nextId == view.nextId && nextAddr == view.nextAddr && updateIdx == view.updateIdx
      && maxCount == view.maxCount && expireCount == view.expireCount && cfg == view.cfg
    }

    // The predicates below name their conjunction before they return it: the verifier then keeps it
    // in one piece.

    /** The list by id is whole. */
    ghost predicate IdListed()
      reads `bss, `bssId, `idFirst, `idLast, `listed, listed`idPrev, listed`idNext
    {
      var whole := IdOrdered(bssId, bss) && Within(bss, listed) && Threaded(bssId, idFirst, idLast, listed);
      whole
    }

    /** Everything but the list by id agrees with the value of the table. */
    ghost predicate Agrees()
      reads `bss, `numBss, `nextId, `nextAddr, `updateIdx, `lastScanRes, `lastScanUsed, `current, `works
      reads `maxCount, `expireCount, `cfg, `view, lastScanRes, bss`contents
    {
      var same := && numBss == |bss| && Mirrored(bss, view.bss)
                  && lastScanUsed <= lastScanRes.Length && ScanNames(lastScanRes[..lastScanUsed], bss, view.lastScan)
                  && view.current == CurrentOf(current) && Names(current, bss)
                  && WorksName(works, bss, view.works)
                  && NumbersMirror();
      same
    }

    ghost predicate Mirrors()
      reads this, bss, listed, lastScanRes
    {
      Agrees() && IdListed()
    }

    ghost predicate Valid()
      reads this, bss, listed, lastScanRes
    {
      var consistent := Mirrors() && Core(view);
      consistent
    }

    // ---- removal ----

    /** Point the pending connect work at another object if it names the given one. */
    method UpdatePendingConnect(from: Bss)
      requires Agrees() && from in bss
      modifies this`works, this`view
      ensures Agrees() && view == old(view).(works := Repoint(old(view).works, from.addr, None))
    {
      works := RepointWorks(works, view.works, from, null, bss);
      view := view.(works := Repoint(view.works, from.addr, None));
    }

    /** Drop an object from the record of the last scan. */
    method ForgetScanRes(b: Bss)
      requires Agrees() && Names(b, bss) && NoRepeats(view.lastScan)
      modifies this`lastScanUsed, this`view, lastScanRes
      ensures Agrees() && b !in lastScanRes[..lastScanUsed]
      ensures view == old(view).(lastScan := Keep(old(view).lastScan, {b.addr}))
    {
      lastScanUsed := DropPointer(lastScanRes, lastScanUsed, b, bss, view.lastScan);
      view := view.(lastScan := Keep(view.lastScan, {b.addr}));
    }

    method Remove(k: nat)
      requires Valid() && k < |bss|
      modifies `bss, `bssId, `idFirst, `idLast, `numBss, `works, `lastScanUsed, `view
      modifies lastScanRes, listed`idPrev, listed`idNext
      ensures Valid() && bss == Without(old(bss), k) && view == Shrink(old(view), Without(old(view).bss, k))
    {
      ghost var t := view;
      var b := bss[k];
      NamesEntry(bss, view.bss, k, view.nextAddr, view.nextId);
      ForgetScanRes(b);
      UpdatePendingConnect(b);
      Unlink(k);
      RemoveIsShrink(t, k);
    }

    /** Take an entry that no scan record names off both lists. */
    method Unlink(k: nat)
      requires Mirrors() && k < |bss|
      requires forall i :: 0 <= i < |bss| && i != k ==> bss[i] != bss[k]
      requires bss[k] !in lastScanRes[..lastScanUsed]
      modifies `bss, `bssId, `idFirst, `idLast, `numBss, `view, listed`idPrev, listed`idNext
      ensures bss == Without(old(bss), k) && view == old(view).(bss := Without(old(view).bss, k))
      ensures Mirrors()
    {
      TakeOff(k);
      DropEntry(k);
    }

    /** Take an entry off the list by id for good. */
    method TakeOff(k: nat)
      requires Agrees() && IdListed() && k < |bss|
      requires forall i :: 0 <= i < |bss| && i != k ==> bss[i] != bss[k]
      modifies `bssId, `idFirst, `idLast, listed`idPrev, listed`idNext
      ensures Agrees() && IdOrdered(bssId, Without(bss, k)) && Threaded(bssId, idFirst, idLast, listed)
      ensures Within(Without(bss, k), listed)
    {
      ghost var p := Position(bssId, bss[k]);
      IdOrderedWithout(bssId, bss, p, k);
      var prev := Detach(k, p);
    }

    /** Take an entry that no scan record names off the table. */
    method DropEntry(k: nat)
      requires Agrees() && k < |bss|
      requires forall i :: 0 <= i < |bss| && i != k ==> bss[i] != bss[k]
      requires bss[k] !in lastScanRes[..lastScanUsed]
      modifies `bss, `numBss, `view
      ensures bss == Without(old(bss), k) && view == old(view).(bss := Without(old(view).bss, k))
      ensures Agrees()
    {
      assert AroundIs(Without(bss, k)) by {
        AroundWithout(bss, k, lastScanRes[..lastScanUsed], view.lastScan, current, works, view.works);
      }
      assert Mirrored(Without(bss, k), Without(view.bss, k)) by {
        MirroredWithout(bss, view.bss, k);
      }
      bss := Without(bss, k);
      numBss := numBss - 1;
      view := view.(bss := Without(view.bss, k));
    }

    /** Take an entry off the list by id; the result is the object before it. */
    method Detach(k: nat, ghost p: nat) returns (prev: Bss?)
      requires Mirrored(bss, view.bss) && IdListed() && k < |bss| && p < |bssId| && bssId[p] == bss[k]
      modifies `bssId, `idFirst, `idLast, listed`idPrev, listed`idNext
      ensures Mirrored(bss, view.bss) && bssId == Without(old(bssId), p)
              && Threaded(bssId, idFirst, idLast, listed) && prev == Nth(old(bssId), p - 1)
    {
      prev := bss[k].idPrev;
      idFirst, idLast := DelId(idFirst, idLast, bss[k], bssId, p, listed);
      bssId := Without(bssId, p);
    }

    /** Put an object on the list by id, behind another. */
    method Attach(prev: Bss?, b: Bss, ghost p: nat)
      requires Mirrored(bss, view.bss) && Threaded(bssId, idFirst, idLast, listed) && Distinct(bssId) && b !in bssId
      requires p <= |bssId| && prev == Nth(bssId, p - 1)
      modifies `bssId, `idFirst, `idLast, `listed, b`idPrev, b`idNext, listed`idPrev, listed`idNext
      ensures Mirrored(bss, view.bss) && bssId == Inserted(old(bssId), p, b) && listed == old(listed) + {b}
      ensures Threaded(bssId, idFirst, idLast, listed)
    {
      idFirst, idLast := AddId(idFirst, idLast, prev, b, bssId, p, listed);
      bssId := Inserted(bssId, p, b);
      listed := listed + {b};
    }

    // ---- eviction ----

    method IsInUse(b: Bss) returns (r: bool)
      requires Valid() && CurrentLive(view) && b in bss
      ensures r == InUse(view.current, view.cfg, b.Value())
    {
      if b == current {
        return true;
      }
      if current != null && b.ssid != current.ssid {
        return false;
      }
      var bssid := b.Value().bssid;
      return bssid != ZERO_ADDR && (bssid == cfg.bssid || bssid == cfg.pendingBssid);
    }

    /** First entry that is neither known nor a WPS candidate. */
    method FindUnknown() returns (k: nat)
      requires Mirrored(bss, view.bss) && cfg == view.cfg
      ensures k == OldestUnwanted(view.cfg, view.bss)
    {
      for i := 0 to |bss|
        invariant forall j :: 0 <= j < i ==> Wanted(view.cfg, view.bss[j])
      {
        assert view.bss[i] == bss[i].Value();
        var known := IsKnown(cfg.networks, bss[i].ssid);
        if !known {
          var candidate := IsWpsCandidate(cfg, bss[i].Value().ies, bss[i].ssid);
          if !candidate {
            return i;
          }
        }
      }
      return |bss|;
    }

    /** First entry that is not in use. */
    method FindIdle() returns (k: nat)
      requires Valid() && CurrentLive(view)
      ensures k == OldestIdle(view.current, view.cfg, view.bss)
    {
      for i := 0 to |bss|
        invariant forall j :: 0 <= j < i ==> InUse(view.current, view.cfg, view.bss[j])
      {
        assert view.bss[i] == bss[i].Value();
        var busy := IsInUse(bss[i]);
        if !busy {
          return i;
        }
      }
      return |bss|;
    }

    method RemoveOldest() returns (ok: bool)
      requires Valid() && CurrentLive(view)
      modifies `bss, `bssId, `idFirst, `idLast, `numBss, `works, `lastScanUsed, `view
      modifies lastScanRes, listed`idPrev, listed`idNext
      ensures Valid() && (ok <==> Evictee(old(view)) < |old(view).bss|)
      ensures view == if ok then Shrink(old(view), Without(old(view).bss, Evictee(old(view)))) else old(view)
    {
      var k := FindUnknown();
      if k == |bss| {
        k := FindIdle();
      }
      if k == |bss| {
        return false;
      }
      Remove(k);
      return true;
    }

    // ---- adding ----

    /** Everything around the list of entries is right for the given lists. */
    ghost predicate AroundIs(list: seq<Bss>)
      reads this, lastScanRes
    {
      && lastScanUsed <= lastScanRes.Length
      && ScanNames(lastScanRes[..lastScanUsed], list, view.lastScan)
      && Names(current, list) && WorksName(works, list, view.works)
    }

    /** Link a new object with the next id and address in at the end of both lists. */
    method Link(e: Entry) returns (b: Bss)
      requires Valid() && e.id == nextId && e.addr == nextAddr
      modifies `bss, `bssId, `listed, `idFirst, `idLast, `numBss, `nextId, `nextAddr, `view
      modifies listed`idPrev, listed`idNext
      ensures Valid() && fresh(b) && b.addr == e.addr && bss == old(bss) + [b] && listed == old(listed) + {b}
      ensures view == old(view).(bss := old(view).bss + [e], nextId := e.id + 1, nextAddr := e.addr + 1)
    {
      assert forall i :: 0 <= i < |bss| ==> bss[i].id < e.id by {
        BelowNext(view, bss, current, works);
      }
      b := new Bss(e);
      Enlist(b);
      AppendEntry(b, e);
      assert IdListed();
    }

    /** Put an object with an id above all others at the end of the list by id. */
    method Enlist(b: Bss)
      requires Agrees() && IdListed() && forall i :: 0 <= i < |bss| ==> bss[i].id < b.id
      modifies `bssId, `idFirst, `idLast, `listed, b`idPrev, b`idNext, listed`idPrev, listed`idNext
      ensures Agrees() && listed == old(listed) + {b} && Threaded(bssId, idFirst, idLast, listed)
      ensures IdOrdered(bssId, bss + [b]) && Within(bss + [b], listed)
    {
      IdOrderedLinked(bssId, bss, b);
      Attach(idLast, b, |bssId|);
    }

    method AppendEntry(b: Bss, e: Entry)
      requires Agrees() && Core(view) && b.Value() == e && e.id == nextId && e.addr == nextAddr
      modifies `bss, `numBss, `nextId, `nextAddr, `view
      ensures Agrees() && Core(view) && bss == old(bss) + [b]
      ensures view == old(view).(bss := old(view).bss + [e], nextId := e.id + 1, nextAddr := e.addr + 1)
    {
      LinkCore(view, e);
      assert AroundIs(bss + [b]) by {
        BelowNext(view, bss, current, works);
        AroundLinked(bss, b, lastScanRes[..lastScanUsed], view.lastScan, current, works, view.works);
      }
      assert Mirrored(bss + [b], view.bss + [e]) by {
        MirroredAppended(bss, view.bss, b);
      }
      bss := bss + [b];
      numBss, nextId, nextAddr := numBss + 1, nextId + 1, nextAddr + 1;
      view := view.(bss := view.bss + [e], nextId := nextId, nextAddr := nextAddr);
    }

    method RaiseLimit()
      requires Valid()
      modifies this`maxCount, this`view
      ensures Valid() && view == old(view).(maxCount := |old(view).bss| + 1)
    {
      maxCount := numBss + 1;
      view := view.(maxCount := maxCount);
    }

    /** Keep within the limit when one more entry is coming. */
    method EnsureRoom()
      requires Valid() && CurrentLive(view)
      modifies `bss, `bssId, `idFirst, `idLast, `numBss, `works, `lastScanUsed, `maxCount, `view
      modifies lastScanRes, listed`idPrev, listed`idNext
      ensures Valid() && view == MakeRoom(old(view))
    {
      if numBss + 1 > maxCount {
        var ok := RemoveOldest();
        if !ok {
          RaiseLimit();
        }
      }
    }

    method Add(ssid: Ssid, res: ScanRes, fetch: RelTime) returns (b: Bss)
      requires Valid() && CurrentLive(view)
      modifies `bss, `bssId, `listed, `idFirst, `idLast, `numBss, `nextId, `nextAddr, `works, `lastScanUsed
      modifies `maxCount, `view
      modifies lastScanRes, listed`idPrev, listed`idNext
      ensures Valid() && fresh(b) && bss != [] && bss[|bss| - 1] == b && listed == old(listed) + {b}
      ensures b.addr == old(view).nextAddr && view == BssModel.Add(old(view), ssid, res, fetch)
    {
      var e := NewEntryOf(nextAddr, nextId, updateIdx, ssid, res, fetch);
      AddInSteps(view, ssid, res, fetch);
      EnsureRoom();
      b := Link(e);
    }

    // ---- updating ----

    /** Store new contents in an entry. */
    method Rewrite(k: nat, e: Entry)
      requires Valid() && k < |bss|
      requires e.addr == bss[k].addr && e.id == bss[k].id && e.ssid == bss[k].ssid
      modifies bss[k], this`view
      ensures Valid() && view == old(view).(bss := old(view).bss[k := e])
    {
      NamesEntry(bss, view.bss, k, view.nextAddr, view.nextId);
      RewriteCore(view, k, e);
      bss[k].Set(e);
      view := view.(bss := view.bss[k := e]);
      assert Mirrored(bss, view.bss);
      assert IdListed();
    }

    /** Move an entry to the end of the update order. */
    method MoveToEnd(k: nat)
      requires Valid() && k < |bss|
      modifies this`bss, this`view
      ensures Valid() && bss == ToEnd(old(bss), k) && view == old(view).(bss := ToEnd(old(view).bss, k))
    {
      MoveCore(view, k);
      ToEndMembers(bss, k);
      assert AroundIs(ToEnd(bss, k)) by {
        AroundToEnd(bss, k, lastScanRes[..lastScanUsed], view.lastScan, current, works, view.works);
      }
      assert Mirrored(ToEnd(bss, k), ToEnd(view.bss, k)) by {
        MirroredWithout(bss, view.bss, k);
      }
      bss := ToEnd(bss, k);
      view := view.(bss := ToEnd(view.bss, k));
    }

    /** The allocator moved the block of an entry that is off the list by id: repair every other
        pointer to it. */
    method Relocate(k: nat) returns (nb: Bss)
      requires Agrees() && Core(view) && k < |bss|
      modifies this`bss, this`current, this`works, this`nextAddr, this`view, lastScanRes
      ensures Agrees() && Core(view) && fresh(nb) && nb.id == old(bss)[k].id
      ensures bss == old(bss)[k := nb] && view == Relocated(old(view), k)
    {
      ghost var t := Relocated(view, k);
      assert Core(t) by {
        ScanAddrs(lastScanRes[..lastScanUsed], bss, view.lastScan, view.bss);
        RelocateCore(view, k);
      }
      nb := new Bss(bss[k].Value().(addr := nextAddr));
      NamesEntry(bss, view.bss, k, view.nextAddr, view.nextId);
      RepairPointers(k, nb);
      assert t == view.(bss := view.bss[k := nb.Value()], nextAddr := nextAddr + 1);
      SwitchObject(k, nb);
    }

    /** Point everything that names an entry at its new object. */
    method RepairPointers(k: nat, nb: Bss)
      requires Agrees() && Core(view) && k < |bss| && nb.addr == nextAddr && nb.ssid == bss[k].ssid
      modifies this`current, this`works, this`view, lastScanRes
      ensures view == Redirect(old(view), bss[k].addr, nb.addr)
      ensures view.current == CurrentOf(current) && Names(current, bss[k := nb])
              && WorksName(works, bss[k := nb], view.works)
      ensures ScanNames(lastScanRes[..lastScanUsed], bss[k := nb], view.lastScan)
    {
      NamesEntry(bss, view.bss, k, view.nextAddr, view.nextId);
      BelowNext(view, bss, current, works);
      RepointPointers(k, nb);
      ReplaceScanRes(k, nb);
    }

    /** Point the current pointer and the pending connect work at the new object of an entry. */
    method RepointPointers(k: nat, nb: Bss)
      requires k < |bss| && Names(current, bss) && WorksName(works, bss, view.works)
      requires forall i :: 0 <= i < |bss| ==> bss[i].addr != nb.addr
      requires nb.ssid == bss[k].ssid && view.current == CurrentOf(current)
      requires current != null ==> current.addr != nb.addr
      requires forall i :: 0 <= i < |works| && works[i].bss != null ==> works[i].bss.addr != nb.addr
      modifies this`current, this`works, this`view
      ensures view == Redirect(old(view), bss[k].addr, nb.addr).(lastScan := old(view).lastScan)
      ensures view.current == CurrentOf(current) && Names(current, bss[k := nb])
              && WorksName(works, bss[k := nb], view.works)
    {
      if current == bss[k] {
        current := nb;
      }
      NamesReplaced(current, bss, k, nb);
      ghost var before := works;
      works := RepointWorks(works, view.works, bss[k], nb, bss);
      forall i | 0 <= i < |works|
        ensures Names(works[i].bss, bss[k := nb])
      {
        assert Names(before[i].bss, bss);
        NamesReplaced(works[i].bss, bss, k, nb);
      }
      view := Redirect(view, bss[k].addr, nb.addr).(lastScan := view.lastScan);
    }

    /** Point the record of the last scan at the new object of an entry. */
    method ReplaceScanRes(k: nat, nb: Bss)
      requires lastScanUsed <= lastScanRes.Length && ScanNames(lastScanRes[..lastScanUsed], bss, view.lastScan)
      requires NoRepeats(view.lastScan) && k < |bss| && Names(bss[k], bss)
      requires forall i :: 0 <= i < |bss| && i != k ==> bss[i] != bss[k]
      modifies lastScanRes, this`view
      ensures view == old(view).(lastScan := Replace(old(view).lastScan, bss[k].addr, nb.addr))
      ensures ScanNames(lastScanRes[..lastScanUsed], bss[k := nb], view.lastScan)
    {
      ReplacePointer(lastScanRes, lastScanUsed, bss[k], nb, bss, view.lastScan);
      view := view.(lastScan := Replace(view.lastScan, bss[k].addr, nb.addr));
      ScanNamesReplaced(lastScanRes[..lastScanUsed], bss, view.lastScan, k, nb);
    }

    /** With the pointers repaired, put the new object of an entry in its place. */
    method SwitchObject(k: nat, nb: Bss)
      requires k < |bss| == numBss && Mirrored(bss, view.bss)
      requires lastScanUsed <= lastScanRes.Length && ScanNames(lastScanRes[..lastScanUsed], bss[k := nb], view.lastScan)
      requires view.current == CurrentOf(current) && Names(current, bss[k := nb])
      requires WorksName(works, bss[k := nb], view.works) && NumbersMirror()
      requires Core(view.(bss := view.bss[k := nb.Value()], nextAddr := nextAddr + 1))
      modifies this`bss, this`nextAddr, this`view
      ensures Agrees() && Core(view) && bss == old(bss)[k := nb]
      ensures view == old(view).(bss := old(view).bss[k := nb.Value()], nextAddr := old(view).nextAddr + 1)
    {
      MirroredReplaced(bss, view.bss, k, nb);
      bss := bss[k := nb];
      nextAddr := nextAddr + 1;
      view := view.(bss := view.bss[k := nb.Value()], nextAddr := nextAddr);
    }

    /** Ask for a larger block for an entry. It is off the list by id meanwhile, and then put behind
        the object that was before it, in its old block or in a new one. */
    method Regrow(k: nat, alloc: Alloc)
      requires Valid() && k < |bss|
      modifies `bss, `bssId, `listed, `idFirst, `idLast, `current, `works, `nextAddr, `view
      modifies lastScanRes, listed`idPrev, listed`idNext
      ensures Valid() && fresh(listed - old(listed))
      ensures |bss| == |old(bss)| && view == if alloc.NewBlock? then Relocated(old(view), k) else old(view)
    {
      ghost var byId := bssId;
      var prev, p := LiftOff(k);
      var b := Reallocate(k, alloc, byId, p);
      Reattach(b, prev, byId, p);
    }

    /** The answer of the allocator: the object of the entry from now on. Put where the entry was, it
        makes the list by id whole again. */
    method Reallocate(k: nat, alloc: Alloc, ghost byId: seq<Bss>, ghost p: nat) returns (b: Bss)
      requires Agrees() && Core(view) && k < |bss| && Within(bss, listed)
      requires p < |byId| && byId[p] == bss[k] && IdOrdered(byId, bss) && Distinct(bss)
      modifies `bss, `current, `works, `nextAddr, `view, lastScanRes
      ensures Agrees() && Core(view) && |bss| == |old(bss)| && (fresh(b) || b == byId[p])
      ensures IdOrdered(byId[p := b], bss) && Within(bss, listed + {b})
      ensures view == if alloc.NewBlock? then Relocated(old(view), k) else old(view)
    {
      b := bss[k];
      if alloc.NewBlock? {
        b := Relocate(k);
      }
      assert bss == old(bss)[k := b];
      IdOrderedReplaced(byId, old(bss), p, k, b);
    }

    /** Take an entry off the list by id, to put it or its new object back later. */
    method LiftOff(k: nat) returns (prev: Bss?, ghost p: nat)
      requires Valid() && k < |bss|
      modifies `bssId, `idFirst, `idLast, listed`idPrev, listed`idNext
      ensures Agrees() && Threaded(bssId, idFirst, idLast, listed) && p < |old(bssId)|
              && bssId == Without(old(bssId), p)
      ensures Distinct(bssId) && bss[k] !in bssId && prev == Nth(bssId, p - 1) && Within(bss, listed)
      ensures forall x :: x in bssId ==> x in listed
      ensures old(bssId)[p] == bss[k] && IdOrdered(old(bssId), bss) && Distinct(bss)
    {
      NamedOnce(bss, view.bss, view.nextAddr, view.nextId);
      p := Position(bssId, bss[k]);
      OffList(bssId, p);
      prev := Detach(k, p);
    }

    /** Put an object in the place on the list by id where one was taken off. */
    method Reattach(b: Bss, prev: Bss?, ghost byId: seq<Bss>, ghost p: nat)
      requires Agrees() && p < |byId| && bssId == Without(byId, p) && IdOrdered(byId[p := b], bss)
               && Within(bss, listed + {b})
      requires Threaded(bssId, idFirst, idLast, listed) && Distinct(bssId) && b !in bssId && prev == Nth(bssId, p - 1)
      modifies `bssId, `idFirst, `idLast, `listed, b`idPrev, b`idNext, listed`idPrev, listed`idNext
      ensures Agrees() && IdListed() && listed == old(listed) + {b}
    {
      Attach(prev, b, p);
      PutBack(byId, p, b);
    }

    /** Take over the elements of a result, in the block of the entry or in a larger one. */
    method StoreElements(k: nat, res: ScanRes, alloc: Alloc)
      requires Valid() && k < |bss|
      modifies `bss, `bssId, `listed, `idFirst, `idLast, `current, `works, `nextAddr, `view, lastScanRes, listed
      ensures Valid() && |bss| == |old(bss)| && fresh(listed - old(listed))
      ensures view == Stored(old(view), k, res, alloc)
    {
      var keep, fits := AboutElements(k, res);
      if !keep {
        if fits {
          assert Within(bss, listed);
          TakeElements(k, res);
        } else {
          StoreLarger(k, res, alloc);
        }
      }
    }

    method StoreLarger(k: nat, res: ScanRes, alloc: Alloc)
      requires Valid() && k < |bss|
      modifies `bss, `bssId, `listed, `idFirst, `idLast, `current, `works, `nextAddr, `view, lastScanRes, listed
      ensures Valid() && |bss| == |old(bss)| && fresh(listed - old(listed))
      ensures view == var t := if alloc.NewBlock? then Relocated(old(view), k) else old(view);
                      if alloc.NoMemory? then t else WithElements(t, k, res)
    {
      Regrow(k, alloc);
      if !alloc.NoMemory? {
        assert Within(bss, listed);
        TakeElements(k, res);
      }
    }

    /** Whether an entry keeps the elements it has, and whether those of a result fit in its block. */
    method AboutElements(k: nat, res: ScanRes) returns (keep: bool, fits: bool)
      requires Mirrored(bss, view.bss) && k < |bss|
      ensures keep == KeepsElements(view.bss[k], res) && fits == FitsInPlace(view.bss[k], res)
    {
      assert view.bss[k] == bss[k].Value();
      var had := GetIe(bss[k].Value().ies, ByVendor(P2P_IE_VENDOR_TYPE));
      var has := GetIe(res.ies, ByVendor(P2P_IE_VENDOR_TYPE));
      keep := had.Some? && has.None?;
      fits := |bss[k].Value().ies| + |bss[k].Value().beaconIes| >= |res.ies| + |res.beaconIes|;
    }

    method TakeElements(k: nat, res: ScanRes)
      requires Valid() && k < |bss|
      modifies bss[k], this`view
      ensures Valid() && view == WithElements(old(view), k, res)
    {
      assert view.bss[k] == bss[k].Value();
      Rewrite(k, bss[k].Value().(ies := res.ies, beaconIes := res.beaconIes));
    }

    /** Look the HESSID of an entry up in its elements again. */
    method SetHessid(k: nat)
      requires Valid() && k < |bss|
      modifies bss[k], this`view
      ensures Valid() && view == WithHessid(old(view), k)
    {
      assert view.bss[k] == bss[k].Value();
      var ie := GetIe(bss[k].Value().ies, ById(INTERWORKING));
      var h := ZERO_ADDR;
      if ie.Some? {
        var e := At(bss[k].Value().ies, ie.value);
        if |e.payload| == 7 {
          h := e.payload[1..7];
        } else if |e.payload| == 9 {
          h := e.payload[3..9];
        }
      }
      Rewrite(k, bss[k].Value().(hessid := h));
    }

    /** Refresh the contents of an entry from a result, in its old position. */
    method Refresh(k: nat, res: ScanRes, fetch: RelTime, alloc: Alloc)
      requires Valid() && k < |bss|
      modifies `bss, `bssId, `listed, `idFirst, `idLast, `current, `works, `nextAddr, `view, lastScanRes, listed
      ensures fresh(listed - old(listed))
      ensures Valid() && |bss| == |old(bss)|
      ensures view == RefreshedInPlace(old(view), k, res, fetch, alloc)
    {
      assert view.bss[k] == bss[k].Value();
      var changes := CompareRes(bss[k].Value(), res);
      Rewrite(k, Seen(bss[k].Value(), updateIdx, res, fetch));
      StoreElements(k, res, alloc);
      if changes.ies {
        SetHessid(k);
      }
    }

    method Update(k: nat, res: ScanRes, fetch: RelTime, alloc: Alloc) returns (b: Bss)
      requires Valid() && k < |bss|
      modifies `bss, `bssId, `listed, `idFirst, `idLast, `current, `works, `nextAddr, `view, lastScanRes, listed
      ensures fresh(listed - old(listed))
      ensures Valid() && bss != [] && bss[|bss| - 1] == b
      ensures b in bss && Names(b, bss) && b.addr == view.bss[|view.bss| - 1].addr
      ensures view == BssModel.Update(old(view), k, res, fetch, alloc)
    {
      UpdateInSteps(view, k, res, fetch, alloc);
      Refresh(k, res, fetch, alloc);
      MoveToEnd(k);
      b := bss[|bss| - 1];
      NamesEntry(bss, view.bss, |bss| - 1, view.nextAddr, view.nextId);
      assert view.bss[|bss| - 1] == b.Value();
    }

    // ---- scan results ----

    constructor (max: nat, expire: nat, config: Config)
      ensures Valid() && view == Empty(max, expire, config) && Inv(view) && CurrentLive(view)
      ensures bss == [] && fresh(lastScanRes)
    {
      bss, bssId, listed, idFirst, idLast := [], [], {}, null, null;
      numBss, nextId, nextAddr, updateIdx := 0, 0, 0, 0;
      lastScanRes := new Bss?[0];
      lastScanUsed, current, works := 0, null, [];
      maxCount, expireCount, cfg := max, expire, config;
      view := Empty(max, expire, config);
    }

    method UpdateStart()
      requires Valid() && Inv(view)
      modifies this`updateIdx, this`lastScanUsed, this`view
      ensures Valid() && Inv(view) && view == Start(old(view))
    {
      StartKeeps(view);
      EmptyScan();
    }

    method EmptyScan()
      requires Agrees()
      modifies `updateIdx, `lastScanUsed, `view
      ensures Agrees() && view == Start(old(view))
    {
      updateIdx := updateIdx + 1;
      lastScanUsed := 0;
      view := Start(view);
    }

    /** Look an entry up by BSSID and SSID. */
    method Get(bssid: Mac, ssid: Ssid) returns (k: nat)
      requires Mirrored(bss, view.bss) && cfg == view.cfg
      ensures k == Target(view, bssid, ssid)
    {
      if cfg.filter.Some? && bssid !in cfg.filter.value {
        return |bss|;
      }
      k := 0;
      while k < |bss| && !(bss[k].Value().bssid == bssid && bss[k].ssid == ssid)
        invariant 0 <= k <= |bss|
        invariant forall i :: 0 <= i < k ==> view.bss[i].bssid != bssid || view.bss[i].ssid != ssid
      {
        assert view.bss[k] == bss[k].Value();
        k := k + 1;
      }
      if k < |bss| {
        assert view.bss[k] == bss[k].Value();
      }
    }

    /** Add an entry to the record of the last scan, growing the array if it is full. */
    method Note(b: Bss)
      requires Agrees() && Core(view) && b in bss && b.addr !in view.lastScan
      modifies this`lastScanRes, this`lastScanUsed, this`view, lastScanRes
      ensures Agrees() && Core(view) && (lastScanRes == old(lastScanRes) || fresh(lastScanRes))
      ensures view == old(view).(lastScan := old(view).lastScan + [b.addr])
    {
      assert Core(view.(lastScan := view.lastScan + [b.addr]));
      ghost var scan := lastScanRes[..lastScanUsed];
      ScanNamesAppended(scan, bss, view.lastScan, b);
      lastScanRes := AppendPointer(lastScanRes, lastScanUsed, b);
      lastScanUsed := lastScanUsed + 1;
      assert lastScanRes[..lastScanUsed] == scan + [b];
      view := view.(lastScan := view.lastScan + [b.addr]);
    }

    /** Note an updated entry unless it is noted already. */
    method NoteOnce(b: Bss)
      requires Agrees() && Core(view) && b in bss && Names(b, bss)
      modifies this`lastScanRes, this`lastScanUsed, this`view, lastScanRes
      ensures Agrees() && Core(view) && (lastScanRes == old(lastScanRes) || fresh(lastScanRes))
      ensures view == Noted(old(view), b.addr)
    {
      assert forall i :: 0 <= i < lastScanUsed ==> lastScanRes[..lastScanUsed][i] == lastScanRes[i];
      for i := 0 to lastScanUsed
        invariant forall j :: 0 <= j < i ==> view.lastScan[j] != b.addr
      {
        if lastScanRes[i] == b {
          assert view.lastScan[i] == b.addr;
          return;
        }
      }
      Note(b);
    }

    method UpdateScanRes(res: ScanRes, fetch: RelTime, alloc: Alloc)
      requires Valid() && Inv(view) && CurrentLive(view)
      modifies this, lastScanRes, listed
      ensures fresh(listed - old(listed))
      ensures Valid() && Inv(view) && view == ScanResult(old(view), res, fetch, alloc)
      ensures lastScanRes == old(lastScanRes) || fresh(lastScanRes)
    {
      ScanResultKeeps(view, res, fetch, alloc);
      var ssid := Accept(cfg, res, fetch);
      if ssid.Some? {
        AddedAddr(view, ssid.value, res, fetch);
        FileResult(ssid.value, res, fetch, alloc);
      }
    }

    /** Add an entry for a result, or update the one it belongs to. */
    method FileResult(ssid: Ssid, res: ScanRes, fetch: RelTime, alloc: Alloc)
      requires Valid() && CurrentLive(view) && FiledUnder(view.cfg, res, fetch) == Some(ssid)
      requires view.nextAddr !in BssModel.Add(view, ssid, res, fetch).lastScan
      modifies `bss, `bssId, `listed, `idFirst, `idLast, `numBss, `nextId, `nextAddr, `current, `works, `lastScanRes
      modifies `lastScanUsed, `maxCount, `view, lastScanRes, listed
      ensures fresh(listed - old(listed))
      ensures Valid() && view == ScanResult(old(view), res, fetch, alloc)
      ensures lastScanRes == old(lastScanRes) || fresh(lastScanRes)
    {
      FiledResult(view, ssid, res, fetch, alloc);
      var k := Get(res.bssid, ssid);
      if k < |bss| {
        UpdateResult(k, res, fetch, alloc);
      } else if !alloc.NoMemory? {
        AddResult(ssid, res, fetch);
      }
    }

    method AddResult(ssid: Ssid, res: ScanRes, fetch: RelTime)
      requires Valid() && CurrentLive(view) && view.nextAddr !in BssModel.Add(view, ssid, res, fetch).lastScan
      modifies `bss, `bssId, `listed, `idFirst, `idLast, `numBss, `nextId, `nextAddr, `works, `lastScanRes
      modifies `lastScanUsed
      modifies `maxCount, `view, lastScanRes, listed`idPrev, listed`idNext
      ensures Valid() && fresh(listed - old(listed)) && (lastScanRes == old(lastScanRes) || fresh(lastScanRes))
      ensures view == Admitted(old(view), ssid, res, fetch)
    {
      var b := Add(ssid, res, fetch);
      assert fresh(listed - old(listed));
      Note(b);
    }

    method UpdateResult(k: nat, res: ScanRes, fetch: RelTime, alloc: Alloc)
      requires Valid() && k < |bss|
      modifies `bss, `bssId, `listed, `idFirst, `idLast, `current, `works, `nextAddr, `lastScanRes, `lastScanUsed, `view
      modifies lastScanRes, listed
      ensures Valid() && fresh(listed - old(listed)) && (lastScanRes == old(lastScanRes) || fresh(lastScanRes))
      ensures view == Renewed(old(view), k, res, fetch, alloc)
    {
      var b := Update(k, res, fetch, alloc);
      NoteOnce(b);
    }

    // ---- the end of a round, and flushing ----

    /** A walk that began with table t0 has turned its first c entries into others and not changed the rest. */
    ghost predicate Walking(t0: Table, done: seq<Entry>, c: nat)
      reads this, bss, listed, lastScanRes
    {
      var sound := && Valid() && CurrentLive(view)
                   && c <= |t0.bss| && view.bss == done + t0.bss[c..]
                   && view == Shrink(t0, view.bss) && Addrs(view.bss) <= Addrs(t0.bss);
      sound
    }

    lemma Begin()
      requires Valid() && CurrentLive(view)
      ensures Walking(view, [], 0)
    {
      ShrinkToSelf(view);
    }

    lemma Finish(t0: Table, done: seq<Entry>)
      requires Walking(t0, done, |t0.bss|)
      ensures Valid() && CurrentLive(view) && view == Shrink(t0, done)
    {
      assert view.bss == done;
    }

    /** Leave an entry as it is. */
    lemma Pass(t0: Table, done: seq<Entry>, c: nat)
      requires Walking(t0, done, c) && c < |t0.bss|
      ensures |done| < |bss| && view.bss[|done|] == t0.bss[c] && bss[|done|].Value() == t0.bss[c]
      ensures view.current == t0.current && view.cfg == t0.cfg
      ensures updateIdx == t0.updateIdx && expireCount == t0.expireCount
      ensures Walking(t0, done + [t0.bss[c]], c + 1)
    {
      WalkStep(done, t0.bss, c, t0.bss[c]);
      assert done + [t0.bss[c]] + t0.bss[c + 1..] == done + t0.bss[c..];
    }

    /** Remove an idle entry. */
    method Drop(ghost t0: Table, ghost done: seq<Entry>, ghost c: nat, i: nat, ghost e: Entry)
      requires i == |done| && Walking(t0, done + [e], c) && i < |bss| && !InUse(view.current, view.cfg, e)
      modifies this, lastScanRes, listed
      ensures listed == old(listed)
      ensures Walking(t0, done, c) && lastScanRes == old(lastScanRes)
      ensures |bss| == |old(bss)| - 1
    {
      DropCut(t0, view, done, e, c);
      Remove(i);
    }

    /** Change the miss count of an entry that has just been passed. */
    method Charge(ghost t0: Table, ghost done: seq<Entry>, ghost c: nat, i: nat, ghost e: Entry)
      requires i == |done| && Walking(t0, done + [e], c) && i < |bss|
      modifies bss[i], this`view
      ensures Walking(t0, done + [e.(scanMiss := e.scanMiss + 1)], c)
      ensures i < |view.bss| && bss[i].Value() == view.bss[i] == e.(scanMiss := e.scanMiss + 1)
    {
      assert view.bss[i] == bss[i].Value() == e;
      ghost var t := view;
      Rewrite(i, bss[i].Value().(scanMiss := bss[i].Value().scanMiss + 1));
      ChargedCut(t0, t, i, view.bss[i]);
      assert view.bss == done + [view.bss[i]] + t0.bss[c..];
    }

    /** Whether an entry is idle and should have been seen. */
    method IsExamined(info: Option<ScanInfo>, i: nat) returns (r: bool)
      requires Valid() && CurrentLive(view) && i < |bss|
      ensures r == Examined(view, info, view.bss[i])
    {
      assert view.bss[i] == bss[i].Value();
      var busy := IsInUse(bss[i]);
      if busy {
        return false;
      }
      r := IsCovered(info, bss[i].Value().radio.freq, bss[i].ssid, view.bss[i]);
    }

    /** Charge an idle entry that the finished scan covered with a miss, unless it was seen. */
    method ChargeUnseen(ghost t0: Table, info: Option<ScanInfo>, ghost done: seq<Entry>, ghost c: nat, i: nat)
      requires i == |done| && Walking(t0, done, c) && c < |t0.bss| && i < |bss| && Examined(t0, info, t0.bss[c])
      modifies bss[i], this`view
      ensures Walking(t0, done + [Charged(t0, info, t0.bss[c])], c + 1)
      ensures bss[i].Value() == Charged(t0, info, t0.bss[c])
      ensures expireCount == t0.expireCount && view.current == t0.current && view.cfg == t0.cfg
    {
      Pass(t0, done, c);
      ghost var e := t0.bss[c];
      if bss[i].Value().lastUpdateIdx < updateIdx {
        assert Charged(t0, info, e) == e.(scanMiss := e.scanMiss + 1);
        Charge(t0, done, c + 1, i, e);
      } else {
        assert Charged(t0, info, e) == e;
      }
    }

    /** An idle entry that the finished scan covered goes when it has too many misses. */
    method ExpireExamined(ghost t0: Table, info: Option<ScanInfo>, ghost done: seq<Entry>, ghost c: nat, i: nat)
      returns (gone: bool)
      requires i == |done| && Walking(t0, done, c) && c < |t0.bss| && i < |bss| && Examined(t0, info, t0.bss[c])
      modifies this, lastScanRes, listed
      ensures listed == old(listed)
      ensures Walking(t0, if gone then done else done + [Charged(t0, info, t0.bss[c])], c + 1)
      ensures lastScanRes == old(lastScanRes) && gone == Expires(t0, info, t0.bss[c])
      ensures |bss| == (if gone then |old(bss)| - 1 else |old(bss)|)
    {
      ChargeUnseen(t0, info, done, c, i);
      gone := bss[i].Value().scanMiss >= expireCount;
      if gone {
        Drop(t0, done, c + 1, i, Charged(t0, info, t0.bss[c]));
      }
    }

    /** One entry at the end of a completed scan. */
    method ExpireOne(ghost t0: Table, info: Option<ScanInfo>, ghost done: seq<Entry>, ghost c: nat, i: nat)
      returns (gone: bool)
      requires i == |done| && Walking(t0, done, c) && c < |t0.bss|
      modifies this, lastScanRes, listed
      ensures listed == old(listed)
      ensures Walking(t0, if gone then done else done + [Charged(t0, info, t0.bss[c])], c + 1)
      ensures lastScanRes == old(lastScanRes) && gone == Expires(t0, info, t0.bss[c])
      ensures i < |old(bss)| && |bss| == (if gone then |old(bss)| - 1 else |old(bss)|)
    {
      Pass(t0, done, c);
      var examined := IsExamined(info, i);
      gone := false;
      if examined {
        gone := ExpireExamined(t0, info, done, c, i);
      }
    }

    /** The state of the walk at the end of a completed scan, with c entries behind it and i of them left. */
    ghost predicate Expiring(t0: Table, info: Option<ScanInfo>, c: nat, i: nat)
      reads this, bss, listed, lastScanRes
    {
      var sound := && c <= |t0.bss| && Walking(t0, SurvivorsTo(t0, info, c), c)
                   && i == |SurvivorsTo(t0, info, c)| && |bss| == i + |t0.bss| - c;
      sound
    }

    lemma ExpireBegin(info: Option<ScanInfo>)
      requires Valid() && CurrentLive(view)
      ensures Expiring(view, info, 0, 0)
    {
      Begin();
    }

    lemma ExpireFinish(t0: Table, info: Option<ScanInfo>, c: nat, i: nat)
      requires Expiring(t0, info, c, i) && i >= |bss|
      ensures Valid() && view == Shrink(t0, Survivors(t0, info, t0.bss))
    {
      Finish(t0, SurvivorsTo(t0, info, c));
      SurvivorsToAll(t0, info);
    }

    /** One step of the walk at the end of a completed scan. */
    method ExpireNext(ghost t0: Table, info: Option<ScanInfo>, ghost c: nat, i: nat) returns (next: nat)
      requires Expiring(t0, info, c, i) && i < |bss|
      modifies this, lastScanRes, listed
      ensures listed == old(listed)
      ensures lastScanRes == old(lastScanRes) && Expiring(t0, info, c + 1, next)
      ensures |bss| - next < |old(bss)| - i
    {
      var gone := ExpireOne(t0, info, SurvivorsTo(t0, info, c), c, i);
      next := if gone then i else i + 1;
    }

    /** The walk over the table at the end of a completed scan. */
    method Expire(info: Option<ScanInfo>)
      requires Valid() && CurrentLive(view)
      modifies this, lastScanRes, listed
      ensures listed == old(listed)
      ensures Valid() && view == Shrink(old(view), Survivors(old(view), info, old(view).bss))
      ensures lastScanRes == old(lastScanRes)
    {
      ghost var t0: Table, c: nat := view, 0;
      ExpireBegin(info);
      var i: nat := 0;
      while i < |bss|
        invariant Expiring(t0, info, c, i) && lastScanRes == old(lastScanRes)
        invariant listed == old(listed)
        decreases |bss| - i
      {
        i := ExpireNext(t0, info, c, i);
        c := c + 1;
      }
      ExpireFinish(t0, info, c, i);
    }

    method UpdateEnd(info: Option<ScanInfo>, newScan: bool)
      requires Valid() && Inv(view) && CurrentLive(view)
      modifies this, lastScanRes, listed
      ensures listed == old(listed)
      ensures Valid() && Inv(view) && view == End(old(view), info, newScan)
      ensures lastScanRes == old(lastScanRes)
    {
      EndKeeps(view, info, newScan);
      if (info.Some? && info.value.aborted) || !newScan {
        return;
      }
      Expire(info);
    }

    /** The state of a flush with c entries behind it and i of them left. */
    ghost predicate Flushing(t0: Table, limit: Option<RelTime>, c: nat, i: nat, stop: bool)
      reads this, bss, listed, lastScanRes
    {
      var sound := && c <= HaltAt(t0, limit) && Walking(t0, LeftTo(t0, limit, c), c)
                   && if stop then c == HaltAt(t0, limit) else i == |LeftTo(t0, limit, c)| && |bss| == i + |t0.bss| - c;
      sound
    }

    /** One entry of a flush: it stays if it is in use, and goes if it is stale. Otherwise the walk stops. */
    method FlushOne(ghost t0: Table, limit: Option<RelTime>, ghost c: nat, i: nat)
      returns (ghost c': nat, next: nat, stop: bool)
      requires Flushing(t0, limit, c, i, false) && i < |bss|
      modifies this, lastScanRes, listed
      ensures listed == old(listed)
      ensures lastScanRes == old(lastScanRes)
      ensures Flushing(t0, limit, c', next, stop)
      ensures !stop ==> |bss| - next < |old(bss)| - i
    {
      LeftStep(t0, limit, c);
      var gone;
      gone, stop := FlushEntry(t0, limit, LeftTo(t0, limit, c), c, i);
      next := if gone then i else i + 1;
      c' := if stop then c else c + 1;
    }

    method FlushEntry(ghost t0: Table, limit: Option<RelTime>, ghost done: seq<Entry>, ghost c: nat, i: nat)
      returns (gone: bool, stop: bool)
      requires i == |done| && Walking(t0, done, c) && c < |t0.bss| && i < |bss|
      modifies this, lastScanRes, listed
      ensures listed == old(listed)
      ensures lastScanRes == old(lastScanRes)
      ensures gone == Goes(t0, limit, t0.bss[c]) && stop == Halts(t0, limit, t0.bss[c])
      ensures stop ==> Walking(t0, done, c)
      ensures !stop ==> Walking(t0, if gone then done else done + [t0.bss[c]], c + 1)
      ensures |bss| == (if gone then |old(bss)| - 1 else |old(bss)|)
    {
      gone, stop := false, false;
      Pass(t0, done, c);
      var busy := IsInUse(bss[i]);
      if busy {
        return;
      }
      if limit.Some? && !Before(bss[i].Value().lastUpdate, limit.value) {
        stop := true;
        return;
      }
      gone := true;
      Drop(t0, done, c + 1, i, t0.bss[c]);
    }

    /** The walk of a flush, which goes through the whole table unless it meets an entry that is too young. */
    method RemoveStale(limit: Option<RelTime>) returns (ghost c: nat, i: nat, stop: bool)
      requires Valid() && CurrentLive(view)
      modifies this, lastScanRes, listed
      ensures listed == old(listed)
      ensures lastScanRes == old(lastScanRes)
      ensures Flushing(old(view), limit, c, i, stop) && (stop || i >= |bss|)
    {
      ghost var t0 := view;
      c, i, stop := 0, 0, false;
      FlushBegin(limit);
      while i < |bss| && !stop
        invariant Flushing(t0, limit, c, i, stop) && lastScanRes == old(lastScanRes)
        invariant listed == old(listed)
        decreases !stop, |bss| - i
      {
        c, i, stop := FlushOne(t0, limit, c, i);
      }
    }

    lemma FlushBegin(limit: Option<RelTime>)
      requires Valid() && CurrentLive(view)
      ensures Flushing(view, limit, 0, 0, false)
    {
      Begin();
    }

    lemma FlushFinish(t0: Table, limit: Option<RelTime>, c: nat, i: nat, stop: bool)
      requires Flushing(t0, limit, c, i, stop) && (stop || i >= |bss|)
      ensures c == HaltAt(t0, limit) && Walking(t0, LeftTo(t0, limit, c), c)
    {
    }

    method Flush()
      requires Valid() && Inv(view) && CurrentLive(view)
      modifies this, lastScanRes, listed
      ensures listed == old(listed)
      ensures Valid() && Inv(view) && view == BssModel.Flush(old(view))
      ensures lastScanRes == old(lastScanRes)
    {
      FlushKeeps(view);
      LeftIsBusy(view);
      ghost var t0 := view;
      var c, i, stop := RemoveStale(None);
      FlushFinish(t0, None, c, i, stop);
      Finish(t0, LeftTo(t0, None, c));
    }

    method FlushByAge(limit: RelTime)
      requires Valid() && Inv(view) && CurrentLive(view)
      modifies this, lastScanRes, listed
      ensures listed == old(listed)
      ensures Valid() && Inv(view) && view == BssModel.FlushByAge(old(view), limit)
      ensures lastScanRes == old(lastScanRes)
    {
      FlushByAgeKeeps(view, limit);
      ghost var t0 := view;
      var c, i, stop := RemoveStale(Some(limit));
      FlushFinish(t0, Some(limit), c, i, stop);
      LeftIsYounger(t0, limit);
    }

    // ---- changes made around the table ----

    /** The station is now on another entry, or on none. */
    method Roam(to: Bss?)
      requires Valid() && (to == null || to in bss)
      modifies `current, `view
      ensures Valid() && current == to && Sound(old(view), Op.Roam(CurrentOf(to)))
      ensures view == Step(old(view), Op.Roam(CurrentOf(to)))
    {
      NamesMember(bss, view, to);
      StoreCurrent(to);
    }

    method StoreCurrent(to: Bss?)
      requires Agrees() && Names(to, bss)
      modifies `current, `view
      ensures Agrees() && current == to && view == old(view).(current := CurrentOf(to))
    {
      current := to;
      view := view.(current := CurrentOf(to));
    }

    method Reconfigure(config: Config)
      requires Valid()
      modifies `cfg, `view
      ensures Valid() && view == Step(old(view), Op.Reconfigure(config))
    {
      cfg := config;
      view := view.(cfg := config);
    }

    /** New values for the limit and the expiration count. */
    method SetCounts(max: nat, expire: nat)
      requires Valid()
      modifies `maxCount, `expireCount, `view
      ensures Valid() && view == Step(old(view), Op.SetCounts(max, expire))
    {
      StoreCounts(max, expire);
    }

    method StoreCounts(max: nat, expire: nat)
      requires Agrees()
      modifies `maxCount, `expireCount, `view
      ensures Agrees() && view == old(view).(maxCount := max, expireCount := expire)
    {
      maxCount, expireCount := max, expire;
      view := view.(maxCount := max, expireCount := expire);
    }

    /** The radio has other works; their pointers are to entries of the table. */
    method Schedule(ws: seq<WorkRef>)
      requires Valid() && forall i :: 0 <= i < |ws| ==> ws[i].bss == null || ws[i].bss in bss
      modifies `works, `view
      ensures Valid() && Sound(old(view), Op.Schedule(WorkValues(ws)))
              && view == Step(old(view), Op.Schedule(WorkValues(ws)))
    {
      forall i | 0 <= i < |ws|
        ensures Names(ws[i].bss, bss) && WorkLive(view, ws[i].Value())
        ensures ws[i].bss != null ==> ws[i].bss.addr < view.nextAddr
      {
        NamesMember(bss, view, ws[i].bss);
      }
      works := ws;
      view := view.(works := WorkValues(ws));
      assert IdListed();
    }

    /** The entry with the smallest id in a range. */
    method GetIdRange(first: nat, last: nat) returns (r: Bss?)
      requires Valid()
      ensures r == null <==> forall i :: 0 <= i < |bss| ==> !(first <= bss[i].id <= last)
      ensures r != null ==> r in bss && first <= r.id <= last
                            && forall i :: 0 <= i < |bss| && first <= bss[i].id <= last ==> r.id <= bss[i].id
    {
      r := idFirst;
      ghost var i := 0;
      SegmentLinks(bssId, null, null, listed);
      while r != null
        invariant i <= |bssId| && r == Nth(bssId, i) && Linked(bssId, null, null)
        invariant forall j :: 0 <= j < i ==> !(first <= bssId[j].id <= last)
        decreases |bssId| - i
      {
        if first <= r.id <= last {
          SameIds(bssId, bss, i, first, last);
          assert r in bssId;
          return;
        }
        r := r.idNext;
        i := i + 1;
      }
      SameIds(bssId, bss, i, first, last);
    }
  }

  /** What a flush removes: idle entries, or if there is an age limit, idle entries older than it. */
  predicate Goes(t: Table, limit: Option<RelTime>, e: Entry)
  {
    !InUse(t.current, t.cfg, e) && (limit.Some? ==> Before(e.lastUpdate, limit.value))
  }

  /** What ends a flush by age. */
  predicate Halts(t: Table, limit: Option<RelTime>, e: Entry)
  {
    !InUse(t.current, t.cfg, e) && !Goes(t, limit, e)
  }

  /** Where a flush ends. */
  function HaltAt(t: Table, limit: Option<RelTime>): (c: nat)
    ensures c <= |t.bss| && (c < |t.bss| ==> Halts(t, limit, t.bss[c]))
    ensures forall j :: 0 <= j < c ==> !Halts(t, limit, t.bss[j])
  {
    if limit.None? then |t.bss| else FirstFresh(t, limit.value, t.bss)
  }

  /** What a flush leaves of the first c entries. */
  function LeftTo(t: Table, limit: Option<RelTime>, c: nat): seq<Entry>
    requires c <= |t.bss|
  {
    if c == 0 then []
    else LeftTo(t, limit, c - 1) + if Goes(t, limit, t.bss[c - 1]) then [] else [t.bss[c - 1]]
  }

  lemma LeftStep(t: Table, limit: Option<RelTime>, c: nat)
    requires c < |t.bss| && c <= HaltAt(t, limit)
    ensures LeftTo(t, limit, c + 1) ==
            if Goes(t, limit, t.bss[c]) then LeftTo(t, limit, c) else LeftTo(t, limit, c) + [t.bss[c]]
    ensures if Halts(t, limit, t.bss[c]) then c == HaltAt(t, limit) else c + 1 <= HaltAt(t, limit)
  {
  }

  lemma {:induction false} LeftToSift(t: Table, limit: Option<RelTime>, c: nat, drop: Entry -> bool)
    requires c <= |t.bss| && forall e :: drop(e) <==> Goes(t, limit, e)
    ensures LeftTo(t, limit, c) == Sift(t.bss[..c], drop, e => e)
  {
    if c > 0 {
      LeftToSift(t, limit, c - 1, drop);
      SiftSnoc(t.bss, c - 1, drop, e => e);
    }
  }

  lemma LeftIsBusy(t: Table)
    ensures LeftTo(t, None, |t.bss|) == Busy(t, t.bss)
  {
    LeftToSift(t, None, |t.bss|, e => !InUse(t.current, t.cfg, e));
    assert t.bss[..|t.bss|] == t.bss;
  }

  lemma LeftIsYounger(t: Table, limit: RelTime)
    ensures var c := HaltAt(t, Some(limit)); LeftTo(t, Some(limit), c) + t.bss[c..] == Younger(t, limit, t.bss)
  {
    LeftToSift(t, Some(limit), HaltAt(t, Some(limit)), e => Stale(t, limit, e));
  }

  /** A walk has made the first part of a list and still has the rest before it: what one step does. */
  lemma WalkStep(done: seq<Entry>, all: seq<Entry>, c: nat, x: Entry)
    requires c < |all|
    ensures var w := done + all[c..];
            && |done| < |w| && w[|done|] == all[c]
            && Without(w, |done|) == done + all[c + 1..]
            && w[|done| := x] == done + [x] + all[c + 1..]
  {
  }

  /** What a walk has made of the first c entries. */
  function SurvivorsTo(t: Table, info: Option<ScanInfo>, c: nat): seq<Entry>
    requires c <= |t.bss|
  {
    if c == 0 then []
    else SurvivorsTo(t, info, c - 1) + if Expires(t, info, t.bss[c - 1]) then [] else [Charged(t, info, t.bss[c - 1])]
  }

  lemma {:induction false} SurvivorsToSift(t: Table, info: Option<ScanInfo>, c: nat)
    requires c <= |t.bss|
    ensures SurvivorsTo(t, info, c) == Survivors(t, info, t.bss[..c])
  {
    if c > 0 {
      SurvivorsToSift(t, info, c - 1);
      SiftSnoc(t.bss, c - 1, e => Expires(t, info, e), e => Charged(t, info, e));
    }
  }

  lemma SurvivorsToAll(t: Table, info: Option<ScanInfo>)
    ensures SurvivorsTo(t, info, |t.bss|) == Survivors(t, info, t.bss)
  {
    SurvivorsToSift(t, info, |t.bss|);
    assert t.bss[..|t.bss|] == t.bss;
  }

  lemma DropCut(t0: Table, t: Table, done: seq<Entry>, e: Entry, c: nat)
    requires c <= |t0.bss| && t.bss == done + [e] + t0.bss[c..] && Identified(t.bss, t.nextAddr, t.nextId)
    requires t == Shrink(t0, t.bss) && Addrs(t.bss) <= Addrs(t0.bss)
    requires CurrentLive(t) && !InUse(t.current, t.cfg, e)
    ensures var t' := Shrink(t, Without(t.bss, |done|));
            t'.bss == done + t0.bss[c..] && t' == Shrink(t0, t'.bss) && Addrs(t'.bss) <= Addrs(t0.bss)
            && CurrentLive(t')
  {
    var i := |done|;
    var left := Without(t.bss, i);
    RemoveCurrent(t, i);
    WithoutSelects(t.bss, i);
    AddrsOfSelection(left, t.bss, Skip(|t.bss|, i));
    ShrinkTwice(t0, t.bss, left);
    assert left == done + t0.bss[c..];
  }

  lemma ShrinkToSelf(t: Table)
    ensures Shrink(t, t.bss) == t
  {
    KeepAll(t.lastScan, {});
    assert Addrs(t.bss) - Addrs(t.bss) == {};
  }

  lemma ChargedCut(t0: Table, t: Table, i: nat, e: Entry)
    requires i < |t.bss| && e == t.bss[i].(scanMiss := e.scanMiss) && t == Shrink(t0, t.bss)
    ensures Addrs(t.bss[i := e]) == Addrs(t.bss)
    ensures t.(bss := t.bss[i := e]) == Shrink(t0, t.bss[i := e])
    ensures CurrentLive(t) ==> CurrentLive(t.(bss := t.bss[i := e]))
  {
    var bss := t.bss[i := e];
    assert forall j :: 0 <= j < |bss| ==> bss[j].addr == t.bss[j].addr && bss[j].ssid == t.bss[j].ssid;
    forall a | a in Addrs(t.bss)
      ensures a in Addrs(bss)
    {
      var j :| 0 <= j < |t.bss| && t.bss[j].addr == a;
      AddrIn(bss, j);
    }
    if CurrentLive(t) && t.current.Some? {
      var j :| 0 <= j < |t.bss| && t.bss[j].addr == t.current.value.addr && t.bss[j].ssid == t.current.value.ssid;
      assert bss[j].addr == t.current.value.addr && bss[j].ssid == t.current.value.ssid;
    }
  }

  /** Sifting one entry more. */
  lemma {:induction false} SiftSnoc(bss: seq<Entry>, c: nat, drop: Entry -> bool, change: Entry -> Entry)
    requires c < |bss|
    ensures Sift(bss[..c + 1], drop, change) ==
            Sift(bss[..c], drop, change) + if drop(bss[c]) then [] else [change(bss[c])]
    decreases c
  {
    if c == 0 {
      assert bss[..1][1..] == [];
    } else {
      SiftSnoc(bss[1..], c - 1, drop, change);
      assert bss[..c + 1][1..] == bss[1..][..c] && bss[..c][1..] == bss[1..][..c - 1];
    }
  }

  /** A larger array with the used part copied: 32 pointers at first, then twice as many. */
  method Grow(a: array<Bss?>, used: nat) returns (n: array<Bss?>)
    requires used <= a.Length
    ensures fresh(n) && n.Length == (if a.Length == 0 then 32 else 2 * a.Length) && n[..used] == a[..used]
  {
    n := new Bss?[if a.Length == 0 then 32 else 2 * a.Length](_ => null);
    forall i | 0 <= i < used {
      n[i] := a[i];
    }
  }

  /** Append to the used part of an array, moving to a larger one if it is full. */
  method AppendPointer(a: array<Bss?>, used: nat, b: Bss) returns (n: array<Bss?>)
    requires used <= a.Length
    modifies a
    ensures (n == a || fresh(n)) && used < n.Length && n[..used + 1] == old(a[..used]) + [b]
  {
    n := a;
    if used >= a.Length {
      n := Grow(a, used);
    }
    n[used] := b;
  }

  lemma ScanNamesAppended(scan: seq<Bss?>, bss: seq<Bss>, addrs: seq<Addr>, b: Bss)
    requires ScanNames(scan, bss, addrs) && b in bss
    ensures ScanNames(scan + [b], bss, addrs + [b.addr])
  {
  }

  /** The SSID to file a result under, looked up element by element. */
  method Accept(cfg: Config, res: ScanRes, fetch: RelTime) returns (r: Option<Ssid>)
    ensures r == FiledUnder(cfg, res, fetch)
  {
    if cfg.ignoreOld && Before(UpdateTime(fetch, res.age), cfg.scanTrigger) {
      return None;
    }
    var ssid := GetIe(res.ies, ById(SSID));
    if ssid.None? || res.ies[ssid.value + 1] > SSID_MAX_LEN {
      return None;
    }
    var name := At(res.ies, ssid.value).payload;
    var p2p := GetIe(res.ies, ByVendor(P2P_IE_VENDOR_TYPE));
    if p2p.None? && cfg.p2pInterface {
      return None;
    }
    if p2p.Some? && name == P2P_WILDCARD_SSID {
      return None;
    }
    var mesh := GetIe(res.ies, ById(MESH_ID));
    if mesh.Some? && res.ies[mesh.value + 1] <= SSID_MAX_LEN {
      name := At(res.ies, mesh.value).payload;
    }
    return Some(name);
  }

  /** The address of a new entry is not in the record of the last scan. */
  lemma AddedAddr(t: Table, ssid: Ssid, res: ScanRes, fetch: RelTime)
    requires Inv(t)
    ensures t.nextAddr !in BssModel.Add(t, ssid, res, fetch).lastScan
  {
    PreparedKeeps(t);
    var room := Prepared(t);
    assert t.nextAddr !in Addrs(room.bss);
  }

  /** The fields of an entry that every result for it refreshes. */
  function Seen(e: Entry, updateIdx: nat, res: ScanRes, fetch: RelTime): Entry
  {
    e.(scanMiss := 0, lastUpdateIdx := updateIdx, bssid := res.bssid, radio := res.radio,
       lastUpdate := UpdateTime(fetch, res.age))
  }

  function WithHessid(t: Table, k: nat): Table
    requires k < |t.bss|
  {
    t.(bss := t.bss[k := t.bss[k].(hessid := Hessid(t.bss[k].ies))])
  }

  function RefreshedInPlace(t: Table, k: nat, res: ScanRes, fetch: RelTime, alloc: Alloc): Table
    requires k < |t.bss|
  {
    var t1 := t.(bss := t.bss[k := Seen(t.bss[k], t.updateIdx, res, fetch)]);
    var t2 := Stored(t1, k, res, alloc);
    if t.bss[k].ies != res.ies then WithHessid(t2, k) else t2
  }

  lemma UpdateInSteps(t: Table, k: nat, res: ScanRes, fetch: RelTime, alloc: Alloc)
    requires k < |t.bss|
    ensures var t1 := RefreshedInPlace(t, k, res, fetch, alloc);
            |t1.bss| == |t.bss| && BssModel.Update(t, k, res, fetch, alloc) == t1.(bss := ToEnd(t1.bss, k))
  {
    var t1 := RefreshedInPlace(t, k, res, fetch, alloc);
    var e := Refreshed(t, t.bss[k], res, fetch, alloc);
    assert t1.bss == t.bss[k := e];
    assert ToEnd(t.bss[k := e], k) == Without(t.bss, k) + [e];
  }

  /** The table after an entry took over the elements of a result, in its old position. */
  function Stored(t: Table, k: nat, res: ScanRes, alloc: Alloc): Table
    requires k < |t.bss|
  {
    var e := t.bss[k];
    var t1 := if Moves(e, res, alloc) then Relocated(t, k) else t;
    if TakesElements(e, res, alloc) then WithElements(t1, k, res) else t1
  }

  function WithElements(t: Table, k: nat, res: ScanRes): Table
    requires k < |t.bss|
  {
    t.(bss := t.bss[k := t.bss[k].(ies := res.ies, beaconIes := res.beaconIes)])
  }

  lemma ScanAddrs(scan: seq<Bss?>, bss: seq<Bss>, addrs: seq<Addr>, values: seq<Entry>)
    requires ScanNames(scan, bss, addrs) && Mirrored(bss, values)
    ensures forall i :: 0 <= i < |addrs| ==> addrs[i] in Addrs(values)
  {
    forall i | 0 <= i < |addrs|
      ensures addrs[i] in Addrs(values)
    {
      assert scan[i] in bss;
      var j :| 0 <= j < |bss| && bss[j] == scan[i];
      assert bss[j].Value() == values[j];
      AddrIn(values, j);
    }
  }
}
