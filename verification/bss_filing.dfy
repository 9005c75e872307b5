/**
 What becomes of a scan result, said of the elements in its buffer: whether it is filed, under which
 name, and what the entry then holds.
 */
module BssFiling {

  import opened Wrappers
  import opened Elements
  import opened BssModel
  import opened BssTerms
  import opened BssInvariant

  /** The entry that a result for this BSSID and name is about: the first of that key, unless the
      filter hides the BSSID. */
  ghost predicate Subject(t: Table, bssid: Mac, name: Ssid, k: int)
  {
    && Listed(t.cfg.filter, bssid)
    && 0 <= k < |t.bss| && t.bss[k].bssid == bssid && t.bss[k].ssid == name
    && forall i :: 0 <= i < k ==> t.bss[i].bssid != bssid || t.bss[i].ssid != name
  }

  /** What an entry holds that a result was just filed in. */
  ghost predicate Shows(e: Entry, res: ScanRes, name: Ssid, fetch: RelTime)
  {
    && e.bssid == res.bssid && e.ssid == name && e.radio == res.radio && e.scanMiss == 0
    && e.lastUpdate.Total() == fetch.Total() - 1000 * res.age && (fetch.Normal() ==> e.lastUpdate.Normal())
  }

  /** The last entry of the table is of this round and shows the result. */
  ghost predicate Heard(t: Table, res: ScanRes, name: Ssid, fetch: RelTime)
  {
    t.bss != [] && var e := t.bss[|t.bss| - 1];
    Shows(e, res, name, fetch) && e.lastUpdateIdx == t.updateIdx && e.addr in t.lastScan
  }

  lemma TargetIs(t: Table, bssid: Mac, name: Ssid)
    ensures forall k :: Subject(t, bssid, name, k) <==> k == Target(t, bssid, name) < |t.bss|
  {
    assert Listed(t.cfg.filter, bssid) <==> Passes(t.cfg.filter, bssid);
  }

  /** A result is kept out for the reasons given and for no others. */
  lemma ResultIsIgnored(t: Table, res: ScanRes, es: seq<Element>, fetch: RelTime, alloc: Alloc)
    requires Carries(res.ies, es) && fetch.Normal() && t.cfg.scanTrigger.Normal()
    requires Ignored(t.cfg, es, fetch.Total() - 1000 * res.age)
    ensures ScanResult(t, res, fetch, alloc) == t
  {
    FiledUnless(t.cfg, res, es, fetch);
  }

  /** Any other result has exactly one name. */
  lemma OneName(cfg: Config, res: ScanRes, es: seq<Element>, fetch: RelTime) returns (name: Ssid)
    requires Carries(res.ies, es) && fetch.Normal() && cfg.scanTrigger.Normal()
    requires !Ignored(cfg, es, fetch.Total() - 1000 * res.age)
    ensures NameOf(es, name) && |name| <= 32 && forall other :: NameOf(es, other) ==> other == name
  {
    FiledUnless(cfg, res, es, fetch);
    name := FiledUnder(cfg, res, fetch).value;
    forall other
      ensures NameOf(es, other) <==> other == name
    {
      FiledByName(cfg, res, es, fetch, other);
    }
  }

  /** It is filed under that name. In the entry it is about, which keeps its id: */
  lemma ResultUpdates(t: Table, res: ScanRes, es: seq<Element>, fetch: RelTime, alloc: Alloc, name: Ssid, k: nat)
    requires Carries(res.ies, es) && fetch.Normal() && t.cfg.scanTrigger.Normal()
    requires !Ignored(t.cfg, es, fetch.Total() - 1000 * res.age) && NameOf(es, name)
    requires Subject(t, res.bssid, name, k)
    ensures var t' := ScanResult(t, res, fetch, alloc);
            Heard(t', res, name, fetch) && |t'.bss| == |t.bss| && t'.bss[|t'.bss| - 1].id == t.bss[k].id
  {
    FiledUnless(t.cfg, res, es, fetch);
    FiledByName(t.cfg, res, es, fetch, name);
    TargetIs(t, res.bssid, name);
    UpdateHeard(t, k, res, fetch, alloc);
  }

  /** Or in a new entry, with the next id. That can fail for want of memory, and then nothing changes. */
  lemma ResultAdds(t: Table, res: ScanRes, es: seq<Element>, fetch: RelTime, alloc: Alloc, name: Ssid)
    requires Carries(res.ies, es) && fetch.Normal() && t.cfg.scanTrigger.Normal()
    requires !Ignored(t.cfg, es, fetch.Total() - 1000 * res.age) && NameOf(es, name)
    requires forall k :: !Subject(t, res.bssid, name, k)
    ensures var t' := ScanResult(t, res, fetch, alloc);
            if alloc.NoMemory? then t' == t else Heard(t', res, name, fetch) && t'.bss[|t'.bss| - 1].id == t.nextId
  {
    FiledUnless(t.cfg, res, es, fetch);
    FiledByName(t.cfg, res, es, fetch, name);
    TargetIs(t, res.bssid, name);
    assert !Subject(t, res.bssid, name, Target(t, res.bssid, name));
    AddHeard(t, res, fetch, name);
  }

  lemma UpdateHeard(t: Table, k: nat, res: ScanRes, fetch: RelTime, alloc: Alloc)
    requires k < |t.bss|
    ensures var t1 := Update(t, k, res, fetch, alloc); var n := |t.bss|;
            |t1.bss| == n && t1.bss[n - 1].id == t.bss[k].id
            && Heard(Noted(t1, t1.bss[n - 1].addr), res, t.bss[k].ssid, fetch)
  {
    var t1 := Update(t, k, res, fetch, alloc);
    UpdateAt(t, k, res, fetch, alloc);
    assert t1.updateIdx == t.updateIdx;
    assert Shows(t1.bss[|t1.bss| - 1], res, t.bss[k].ssid, fetch);
  }

  lemma AddHeard(t: Table, res: ScanRes, fetch: RelTime, name: Ssid)
    ensures var t1 := Add(t, name, res, fetch); var t' := t1.(lastScan := t1.lastScan + [t.nextAddr]);
            Heard(t', res, name, fetch) && t'.bss[|t'.bss| - 1].id == t.nextId
  {
    assert Prepared(t).updateIdx == t.updateIdx;
  }
}
