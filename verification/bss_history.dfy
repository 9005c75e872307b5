/**
 What the entries hold, read off the history of operations: an entry shows the last result that
 reported it, and stores the elements of the last result that could replace them.
 */
module BssHistory {

  import opened Wrappers
  import opened Bytes
  import opened Elements
  import opened BssModel
  import opened BssTerms
  import opened BssInvariant
  import opened BssRuns
  import opened BssExpiry
  import opened BssFiling
  import opened BssContents

  /** Operation k reported the entry, and none after it did. */
  ghost predicate LastReport(t0: Table, ops: seq<Op>, id: nat, k: int)
  {
    && 0 <= k < |ops| && Reports(Run(t0, ops[..k]), ops[k], id)
    && forall j :: k < j < |ops| ==> !Reports(Run(t0, ops[..j]), ops[j], id)
  }

  // ---- stored elements ----

  /** A buffer with a P2P element in it. */
  ghost predicate HasP2p(ies: seq<byte>)
  {
    exists es :: Carries(ies, es) && HasVendor(es, P2P_KIND)
  }

  lemma HasP2pIs(ies: seq<byte>)
    ensures Lookup(ies, ByVendor(P2P_IE_VENDOR_TYPE)).Some? <==> HasP2p(ies)
  {
    var es := Decode(ies);
    CarriesDecode(ies, es);
    LookupVendor(ies, es, P2P_KIND);
    forall other | Carries(ies, other)
      ensures other == es
    {
      CarriesDecode(ies, other);
    }
  }

  datatype Stored = Stored(ies: seq<byte>, beaconIes: seq<byte>)

  /** New elements do not replace ones with a P2P element by ones without, nor smaller ones if the
      larger block was refused. */
  ghost predicate Replaces(old_: Stored, res: ScanRes, alloc: Alloc)
  {
    && (HasP2p(old_.ies) ==> HasP2p(res.ies))
    && (|res.ies| + |res.beaconIes| <= |old_.ies| + |old_.beaconIes| || !alloc.NoMemory?)
  }

  /** The elements that the history leaves with an entry. */
  ghost function StoredBy(t0: Table, ops: seq<Op>, id: nat): Stored
  {
    if ops == [] then Stored([], [])
    else
      var last, t, before := ops[|ops| - 1], Run(t0, ops[..|ops| - 1]), StoredBy(t0, ops[..|ops| - 1], id);
      if Reports(t, last, id) && (id == t.nextId || Replaces(before, last.res, last.alloc))
      then Stored(last.res.ies, last.res.beaconIes)
      else before
  }

  // ---- one step ----

  /** The entry was there with its elements kept or replaced, or is new with those of the result. */
  ghost predicate ElementsFrom(t: Table, op: Op, e': Entry)
    requires op.Result?
  {
    if e'.id == t.nextId then Stored(e'.ies, e'.beaconIes) == Stored(op.res.ies, op.res.beaconIes)
    else exists i :: 0 <= i < |t.bss| && t.bss[i].id == e'.id &&
                     var was := Stored(t.bss[i].ies, t.bss[i].beaconIes);
                     Stored(e'.ies, e'.beaconIes) ==
                     if Replaces(was, op.res, op.alloc) then Stored(op.res.ies, op.res.beaconIes) else was
  }

  /** What a reported entry shows and stores. */
  ghost predicate Copied(t: Table, op: Op, e': Entry)
    requires op.Result?
  {
    && (exists name :: Shows(e', op.res, name, op.fetch) && FiledUnder(t.cfg, op.res, op.fetch) == Some(name))
    && ElementsFrom(t, op, e')
  }

  lemma RefreshedCopied(t: Table, op: Op, k: nat, name: Ssid)
    requires Inv(t) && op.Result? && k < |t.bss| && t.bss[k].ssid == name
    requires FiledUnder(t.cfg, op.res, op.fetch) == Some(name)
    ensures Copied(t, op, Refreshed(t, t.bss[k], op.res, op.fetch, op.alloc))
  {
    var e, e' := t.bss[k], Refreshed(t, t.bss[k], op.res, op.fetch, op.alloc);
    HasP2pIs(e.ies);
    HasP2pIs(op.res.ies);
    assert Shows(e', op.res, name, op.fetch);
    assert e'.id == t.bss[k].id < t.nextId;
  }

  lemma NewCopied(t: Table, op: Op, name: Ssid)
    requires op.Result? && FiledUnder(t.cfg, op.res, op.fetch) == Some(name)
    ensures Copied(t, op, NewEntry(t, name, op.res, op.fetch))
  {
    assert Shows(NewEntry(t, name, op.res, op.fetch), op.res, name, op.fetch);
  }

  lemma StepCopies(t: Table, op: Op, j: nat)
    requires Inv(t) && j < |Step(t, op).bss| && Reports(t, op, Step(t, op).bss[j].id)
    ensures Copied(t, op, Step(t, op).bss[j])
  {
    var name := FiledUnder(t.cfg, op.res, op.fetch).value;
    var k := Target(t, op.res.bssid, name);
    if k < |t.bss| {
      UpdateAt(t, k, op.res, op.fetch, op.alloc);
      RefreshedCopied(t, op, k, name);
      OthersDiffer(t, op, k, j);
    } else {
      PreparedKeeps(t);
      NewCopied(t, op, name);
    }
  }

  /** Of the entries after an update only the last has the id of the one updated. */
  lemma OthersDiffer(t: Table, op: Op, k: nat, j: nat)
    requires Inv(t) && op.Result? && k < |t.bss| && j < |t.bss|
    requires Update(t, k, op.res, op.fetch, op.alloc).bss[j].id == t.bss[k].id
    ensures j == |t.bss| - 1
  {
    UpdateAt(t, k, op.res, op.fetch, op.alloc);
  }

  // ---- the history ----

  /** An entry as the history says: it shows the last result that reported it. */
  ghost predicate AsReported(t0: Table, ops: seq<Op>, e: Entry, k: int)
  {
    && LastReport(t0, ops, e.id, k)
    && exists name :: FiledUnder(Run(t0, ops[..k]).cfg, ops[k].res, ops[k].fetch) == Some(name)
                      && Shows(e.(scanMiss := 0), ops[k].res, name, ops[k].fetch)
  }

  ghost predicate AsStored(t0: Table, ops: seq<Op>, e: Entry)
  {
    Stored(e.ies, e.beaconIes) == StoredBy(t0, ops, e.id)
  }

  lemma {:induction false} LatestReport(t0: Table, ops: seq<Op>, j: nat) returns (k: nat)
    requires t0.bss == [] && Inv(t0) && SoundRun(t0, ops) && j < |Run(t0, ops).bss|
    ensures AsReported(t0, ops, Run(t0, ops).bss[j], k)
    decreases |ops|
  {
    var last, before := ops[|ops| - 1], ops[..|ops| - 1];
    var t, e' := Run(t0, before), Run(t0, ops).bss[j];
    RunKeepsInv(t0, before);
    StepExplained(t, last, j);
    if Reports(t, last, e'.id) {
      k := |ops| - 1;
      StepCopies(t, last, j);
      assert e' == e'.(scanMiss := 0);
    } else {
      var i: nat :| ComesFrom(t, last, e', i);
      k := LatestReport(t0, before, i);
      LaterReport(t0, ops, t.bss[i], e', k);
    }
  }

  lemma LaterReport(t0: Table, ops: seq<Op>, e: Entry, e': Entry, k: nat)
    requires ops != [] && AsReported(t0, ops[..|ops| - 1], e, k) && e' == e.(scanMiss := e'.scanMiss)
    requires !Reports(Run(t0, ops[..|ops| - 1]), ops[|ops| - 1], e.id)
    ensures AsReported(t0, ops, e', k)
  {
    var before := ops[..|ops| - 1];
    assert before[..k] == ops[..k];
    forall j | k < j < |ops|
      ensures !Reports(Run(t0, ops[..j]), ops[j], e.id)
    {
      if j < |before| {
        assert before[..j] == ops[..j] && before[j] == ops[j];
      }
    }
    assert e'.(scanMiss := 0) == e.(scanMiss := 0);
  }

  lemma {:induction false} ElementsStored(t0: Table, ops: seq<Op>, j: nat)
    requires t0.bss == [] && Inv(t0) && SoundRun(t0, ops) && j < |Run(t0, ops).bss|
    ensures AsStored(t0, ops, Run(t0, ops).bss[j])
    decreases |ops|
  {
    var last, before := ops[|ops| - 1], ops[..|ops| - 1];
    var t, e' := Run(t0, before), Run(t0, ops).bss[j];
    RunKeepsInv(t0, before);
    StepExplained(t, last, j);
    if Reports(t, last, e'.id) {
      StepCopies(t, last, j);
      if e'.id != t.nextId {
        var i: nat := Earlier(t, last, e');
        ElementsStored(t0, before, i);
      }
    } else {
      var i: nat :| ComesFrom(t, last, e', i);
      ElementsStored(t0, before, i);
    }
  }

  lemma Earlier(t: Table, op: Op, e': Entry) returns (i: nat)
    requires op.Result? && ElementsFrom(t, op, e') && e'.id != t.nextId
    ensures i < |t.bss| && t.bss[i].id == e'.id
    ensures var was := Stored(t.bss[i].ies, t.bss[i].beaconIes);
            Stored(e'.ies, e'.beaconIes) ==
            if Replaces(was, op.res, op.alloc) then Stored(op.res.ies, op.res.beaconIes) else was
  {
    i :| 0 <= i < |t.bss| && t.bss[i].id == e'.id &&
         var was := Stored(t.bss[i].ies, t.bss[i].beaconIes);
         Stored(e'.ies, e'.beaconIes) ==
         if Replaces(was, op.res, op.alloc) then Stored(op.res.ies, op.res.beaconIes) else was;
  }

  /** In every run from the empty table, an entry is that of the last result that reported it: its
      BSSID and radio data, the time it was received, and a name that the elements of the result give. */
  lemma ShowsLastReport(t0: Table, ops: seq<Op>, j: nat, k: nat)
    requires t0.bss == [] && Inv(t0) && SoundRun(t0, ops) && j < |Run(t0, ops).bss|
    requires LastReport(t0, ops, Run(t0, ops).bss[j].id, k)
    ensures var e, res, fetch := Run(t0, ops).bss[j], ops[k].res, ops[k].fetch;
            && e.bssid == res.bssid && e.radio == res.radio
            && e.lastUpdate.Total() == fetch.Total() - 1000 * res.age
            && forall es :: Carries(res.ies, es) ==> NameOf(es, e.ssid)
  {
    var e := Run(t0, ops).bss[j];
    var k' := LatestReport(t0, ops, j);
    OneLastReport(t0, ops, e.id, k, k');
    forall es | Carries(ops[k].res.ies, es)
      ensures NameOf(es, e.ssid)
    {
      FiledByName(Run(t0, ops[..k]).cfg, ops[k].res, es, ops[k].fetch, e.ssid);
    }
  }

  lemma OneLastReport(t0: Table, ops: seq<Op>, id: nat, k: nat, k': nat)
    requires LastReport(t0, ops, id, k) && LastReport(t0, ops, id, k')
    ensures k == k'
  {
  }

  /** A flush by age never removes an entry whose last report is not older than the limit. */
  lemma FlushSparesHeard(t0: Table, ops: seq<Op>, j: nat, k: nat, limit: RelTime)
    requires t0.bss == [] && Inv(t0) && SoundRun(t0, ops) && j < |Run(t0, ops).bss|
    requires LastReport(t0, ops, Run(t0, ops).bss[j].id, k) && ops[k].fetch.Normal() && limit.Normal()
    requires ops[k].fetch.Total() - 1000 * ops[k].res.age >= limit.Total()
    ensures Run(t0, ops).bss[j] in FlushByAge(Run(t0, ops), limit).bss
  {
    var e := Run(t0, ops).bss[j];
    var k' := LatestReport(t0, ops, j);
    OneLastReport(t0, ops, e.id, k, k');
    BeforeIs(e.lastUpdate, limit);
    FlushByAgeRemovesStale(Run(t0, ops), limit, e);
  }
}
