/**
 The words in which the laws of the table are stated: elements, indices and microseconds. The
 questions that the model and the memory ask are shown to be the same ones.
 */
module BssTerms {

  import opened Wrappers
  import opened Bytes
  import opened Elements
  import opened BssModel

  /** The data of a P2P element, of a WPS element. */
  const P2P_KIND: seq<byte> := [0x50, 0x6f, 0x9a, 0x09]
  const WPS_KIND: seq<byte> := [0x00, 0x50, 0xf2, 0x04]

  // ---- an entry ----

  /** Neither the entry the station is on nor one that it has to do with by BSSID. An SSID other than
      that of the current entry ends every other claim. */
  ghost predicate Idle(t: Table, e: Entry)
  {
    && (t.current.Some? ==> t.current.value.addr != e.addr)
    && (|| (t.current.Some? && t.current.value.ssid != e.ssid)
        || (|e.bssid| == 6 && forall i :: 0 <= i < 6 ==> e.bssid[i] == 0)
        || e.bssid !in [t.cfg.bssid, t.cfg.pendingBssid])
  }

  /** The scan was on the channel of the entry, and for its SSID or for any. */
  ghost predicate Scanned(info: Option<ScanInfo>, e: Entry)
  {
    info.None? ||
    (&& (|info.value.freqs| == 0 || exists i :: 0 <= i < |info.value.freqs| && info.value.freqs[i] == e.radio.freq)
     && (|info.value.ssids| == 0
         || exists i :: 0 <= i < |info.value.ssids| && (|info.value.ssids[i]| == 0 || info.value.ssids[i] == e.ssid)))
  }

  lemma IdleIs(t: Table, e: Entry)
    ensures Idle(t, e) <==> !InUse(t.current, t.cfg, e)
  {
    if |e.bssid| == 6 && forall i :: 0 <= i < 6 ==> e.bssid[i] == 0 {
      assert e.bssid == [0, 0, 0, 0, 0, 0];
    }
  }

  lemma ScannedIs(info: Option<ScanInfo>, e: Entry)
    ensures Scanned(info, e) <==> Covers(info, e)
  {
    if info.Some? {
      var ssids := info.value.ssids;
      assert (exists i :: 0 <= i < |ssids| && (|ssids[i]| == 0 || ssids[i] == e.ssid)) <==>
             [] in ssids || e.ssid in ssids;
    }
  }

  lemma ExaminedIs(t: Table, info: Option<ScanInfo>, e: Entry)
    ensures Examined(t, info, e) <==> Idle(t, e) && Scanned(info, e)
  {
    IdleIs(t, e);
    ScannedIs(info, e);
  }

  // ---- what a station wants ----

  /** The data of all WPS elements, in order and without the octets that make them WPS. */
  function WpsData(es: seq<Element>): seq<byte>
  {
    if es == [] then []
    else (if IsVendor(es[0], WPS_KIND) then es[0].payload[4..] else []) + WpsData(es[1..])
  }

  /** A configured network has the SSID by name. */
  ghost predicate Configured(networks: seq<Network>, ssid: Ssid)
  {
    |ssid| > 0 && exists i :: 0 <= i < |networks| && networks[i].ssid == ssid
  }

  /** The first network for WPS that is for this SSID or for any. */
  ghost predicate FirstWps(networks: seq<Network>, ssid: Ssid, k: int)
  {
    && 0 <= k < |networks| && networks[k].wps && (|networks[k].ssid| == 0 || networks[k].ssid == ssid)
    && forall i :: 0 <= i < k && networks[i].wps ==> |networks[i].ssid| > 0 && networks[i].ssid != ssid
  }

  /** There is WPS data. With a pushed button it is for a network that waits for one; otherwise it
      names the station and is for a network with a PIN. */
  ghost predicate Enrolls(cfg: Config, es: seq<Element>, ssid: Ssid)
  {
    var data := WpsData(es);
    |data| > 0 && exists k :: FirstWps(cfg.networks, ssid, k) &&
                              if cfg.selectedPbc(data) then cfg.networks[k].pbcEnrollee
                              else cfg.addrAuthorized(data) && cfg.networks[k].pinEnrollee
  }

  lemma {:induction false} WpsDataIs(es: seq<Element>)
    ensures VendorPayload(es, WPS_IE_VENDOR_TYPE) == WpsData(es)
  {
    if es != [] {
      VendorIs(es[0], WPS_KIND);
      WpsDataIs(es[1..]);
    }
  }

  lemma {:induction false} WpsEnrolleeIs(networks: seq<Network>, ssid: Ssid, pbc: bool)
    ensures WpsEnrollee(networks, ssid, pbc) <==>
            exists k :: FirstWps(networks, ssid, k) && if pbc then networks[k].pbcEnrollee else networks[k].pinEnrollee
  {
    if networks != [] {
      var n, rest := networks[0], networks[1..];
      if n.wps && (|n.ssid| == 0 || n.ssid == ssid) {
        assert FirstWps(networks, ssid, 0);
        assert forall k :: FirstWps(networks, ssid, k) ==> k == 0;
      } else {
        WpsEnrolleeIs(rest, ssid, pbc);
        forall k
          ensures FirstWps(networks, ssid, k) <==> FirstWps(rest, ssid, k - 1)
        {
          FirstWpsCons(networks, ssid, k);
        }
        if WpsEnrollee(rest, ssid, pbc) {
          var k :| FirstWps(rest, ssid, k) && if pbc then rest[k].pbcEnrollee else rest[k].pinEnrollee;
          assert FirstWps(networks, ssid, k + 1);
        }
      }
    }
  }

  lemma FirstWpsCons(networks: seq<Network>, ssid: Ssid, k: int)
    requires networks != [] && !(networks[0].wps && (|networks[0].ssid| == 0 || networks[0].ssid == ssid))
    ensures FirstWps(networks, ssid, k) <==> FirstWps(networks[1..], ssid, k - 1)
  {
    var rest := networks[1..];
    if 1 <= k < |networks| {
      assert rest[k - 1] == networks[k];
      if FirstWps(rest, ssid, k - 1) {
        forall i | 0 <= i < k && networks[i].wps
          ensures |networks[i].ssid| > 0 && networks[i].ssid != ssid
        {
          if i > 0 {
            assert rest[i - 1] == networks[i];
          }
        }
      }
    }
  }

  /** Eviction spares an entry in its first round if a network is configured for it by name, or if
      WPS could enroll the station there. */
  lemma WantedIs(cfg: Config, e: Entry, es: seq<Element>)
    requires Carries(e.ies, es)
    ensures Wanted(cfg, e) <==> Configured(cfg.networks, e.ssid) || Enrolls(cfg, es, e.ssid)
  {
    CarriesDecode(e.ies, es);
    WpsDataIs(es);
    WpsEnrolleeIs(cfg.networks, e.ssid, cfg.selectedPbc(WpsData(es)));
  }

  // ---- a result ----

  /** The filter, if there is one, lists the BSSID. */
  ghost predicate Listed(filter: Option<seq<Mac>>, bssid: Mac)
  {
    filter.None? || exists i :: 0 <= i < |filter.value| && filter.value[i] == bssid
  }

  /** The name of the network: the first Mesh ID if it is not too long, else the first SSID. */
  ghost predicate NameOf(es: seq<Element>, name: Ssid)
  {
    if exists k :: FirstId(es, 114, k) && |es[k].payload| <= 32
    then exists k :: FirstId(es, 114, k) && es[k].payload == name
    else exists k :: FirstId(es, 0, k) && es[k].payload == name
  }

  /** What keeps a result out of the table: received before the scan was asked for, no SSID or one
      that is too long, no P2P element on a P2P interface, or a P2P device that is only listening. */
  ghost predicate Ignored(cfg: Config, es: seq<Element>, received: int)
  {
    || (cfg.ignoreOld && received < cfg.scanTrigger.Total())
    || (forall k :: FirstId(es, 0, k) ==> |es[k].payload| > 32)
    || (cfg.p2pInterface && !HasVendor(es, P2P_KIND))
    || (HasVendor(es, P2P_KIND) && exists k :: FirstId(es, 0, k) && Spells(es[k].payload, "DIRECT-"))
  }

  ghost predicate Spells(octets: seq<byte>, text: string)
  {
    |octets| == |text| && forall i :: 0 <= i < |text| ==> octets[i] == text[i] as int
  }

  lemma WildcardSpells(octets: seq<byte>)
    ensures Spells(octets, "DIRECT-") <==> octets == P2P_WILDCARD_SSID
  {
    var text := "DIRECT-";
    assert forall i :: 0 <= i < 7 ==> P2P_WILDCARD_SSID[i] == text[i] as int;
  }

  lemma BeforeIs(a: RelTime, b: RelTime)
    requires a.Normal() && b.Normal()
    ensures Before(a, b) <==> a.Total() < b.Total()
  {
  }

  lemma FiledUnless(cfg: Config, res: ScanRes, es: seq<Element>, fetch: RelTime)
    requires Carries(res.ies, es) && fetch.Normal() && cfg.scanTrigger.Normal()
    ensures FiledUnder(cfg, res, fetch).None? <==> Ignored(cfg, es, fetch.Total() - 1000 * res.age)
  {
    LookupId(res.ies, es, 0);
    LookupVendor(res.ies, es, P2P_KIND);
    BeforeIs(UpdateTime(fetch, res.age), cfg.scanTrigger);
    OnlyFirst(es, 0);
    if k :| FirstId(es, 0, k) {
      WildcardSpells(es[k].payload);
    }
  }

  lemma OnlyFirst(es: seq<Element>, id: byte)
    ensures forall j, k :: FirstId(es, id, j) && FirstId(es, id, k) ==> j == k
  {
  }

  lemma FiledByName(cfg: Config, res: ScanRes, es: seq<Element>, fetch: RelTime, name: Ssid)
    requires Carries(res.ies, es) && FiledUnder(cfg, res, fetch).Some?
    ensures NameOf(es, name) <==> FiledUnder(cfg, res, fetch) == Some(name)
  {
    LookupId(res.ies, es, 0);
    LookupId(res.ies, es, 114);
    OnlyFirst(es, 0);
    OnlyFirst(es, 114);
  }
}
