/**
 What a scan result changes about an entry: the change flags reported to listeners.
 */
module BssChanges {

  import opened Bytes
  import opened Elements
  import opened BssModel
  import opened BssTerms

  datatype Changes = Changes(freq: bool, signal: bool, privacy: bool, mode: bool, wpaIe: bool, rsnIe: bool,
                             wps: bool, rates: bool, ies: bool)

  const CAP_IBSS := 0x0002
  const CAP_PRIVACY := 0x0010

  predicate HasBit(x: nat, weight: nat)
    requires weight > 0
  {
    x / weight % 2 == 1
  }

  /** The element kinds that are compared one by one; WPS data may be split over several elements. */
  datatype Compared = Single(sel: Selector) | Joined(vendor: nat)

  predicate SameElement(a: seq<byte>, b: seq<byte>, what: Compared)
  {
    match what
    case Single(sel) => Lookup(a, sel) == Lookup(b, sel)
    case Joined(vendor) => Multi(a, vendor) == Multi(b, vendor)
  }

  /** The flags with every comparison made, whatever the buffers. */
  function AllChanges(e: Entry, res: ScanRes): Changes
  {
    Changes(
      e.radio.freq != res.radio.freq,
      e.radio.level != res.radio.level,
      HasBit(e.radio.caps, CAP_PRIVACY) != HasBit(res.radio.caps, CAP_PRIVACY),
      HasBit(e.radio.caps, CAP_IBSS) != HasBit(res.radio.caps, CAP_IBSS),
      !SameElement(e.ies, res.ies, Single(ByVendor(WPA_IE_VENDOR_TYPE))),
      !SameElement(e.ies, res.ies, Single(ById(RSN))),
      !SameElement(e.ies, res.ies, Joined(WPS_IE_VENDOR_TYPE)),
      !SameElement(e.ies, res.ies, Single(ById(SUPP_RATES)))
      || !SameElement(e.ies, res.ies, Single(ById(EXT_SUPP_RATES))),
      e.ies != res.ies)
  }

  // ---- the flags in plain words ----

  /** Both lack the element, or their first ones are equal. */
  ghost predicate SameId(es: seq<Element>, fs: seq<Element>, id: byte)
  {
    // named first, here and below: the verifier then keeps the whole in one piece
    var same := || ((forall i :: 0 <= i < |es| ==> es[i].id != id) && forall i :: 0 <= i < |fs| ==> fs[i].id != id)
                || exists j, k :: FirstId(es, id, j) && FirstId(fs, id, k) && es[j] == fs[k];
    same
  }

  ghost predicate SameVendor(es: seq<Element>, fs: seq<Element>, kind: seq<byte>)
  {
    var same := || (!HasVendor(es, kind) && !HasVendor(fs, kind))
                || exists j, k :: FirstVendor(es, kind, j) && FirstVendor(fs, kind, k) && es[j] == fs[k];
    same
  }

  lemma SameIdIs(a: seq<byte>, b: seq<byte>, es: seq<Element>, fs: seq<Element>, id: byte)
    requires Carries(a, es) && Carries(b, fs)
    ensures SameElement(a, b, Single(ById(id))) <==> SameId(es, fs, id)
  {
    LookupId(a, es, id);
    LookupId(b, fs, id);
  }

  lemma SameVendorIs(a: seq<byte>, b: seq<byte>, es: seq<Element>, fs: seq<Element>, kind: seq<byte>)
    requires Carries(a, es) && Carries(b, fs) && |kind| == 4
    ensures SameElement(a, b, Single(ByVendor(BigEndian32(kind)))) <==> SameVendor(es, fs, kind)
  {
    LookupVendor(a, es, kind);
    LookupVendor(b, fs, kind);
  }

  lemma SameWps(a: seq<byte>, b: seq<byte>, es: seq<Element>, fs: seq<Element>)
    requires Carries(a, es) && Carries(b, fs)
    ensures SameElement(a, b, Joined(WPS_IE_VENDOR_TYPE)) <==> WpsData(es) == WpsData(fs)
  {
    CarriesDecode(a, es);
    CarriesDecode(b, fs);
    WpsDataIs(es);
    WpsDataIs(fs);
  }

  lemma BitsAre(caps: nat)
    ensures HasBit(caps, CAP_PRIVACY) <==> caps % 32 >= 16
    ensures HasBit(caps, CAP_IBSS) <==> caps % 4 >= 2
  {
  }

  /** The flags for the radio: frequency, level, and the privacy and IBSS bits of the capabilities. */
  lemma RadioChanges(e: Entry, res: ScanRes)
    ensures var c := AllChanges(e, res);
            && (c.freq <==> e.radio.freq != res.radio.freq) && (c.signal <==> e.radio.level != res.radio.level)
            && (c.privacy <==> (e.radio.caps % 32 >= 16) != (res.radio.caps % 32 >= 16))
            && (c.mode <==> (e.radio.caps % 4 >= 2) != (res.radio.caps % 4 >= 2))
  {
    BitsAre(e.radio.caps);
    BitsAre(res.radio.caps);
  }

  /** The flags for security: the first WPA and RSN elements, and all WPS data. */
  lemma SecurityChanges(e: Entry, res: ScanRes, es: seq<Element>, fs: seq<Element>)
    requires Carries(e.ies, es) && Carries(res.ies, fs)
    ensures var c := AllChanges(e, res);
            && (c.wpaIe <==> !SameVendor(es, fs, [0x00, 0x50, 0xf2, 0x01])) && (c.rsnIe <==> !SameId(es, fs, 48))
            && (c.wps <==> WpsData(es) != WpsData(fs))
  {
    SameVendorIs(e.ies, res.ies, es, fs, [0x00, 0x50, 0xf2, 0x01]);
    SameIdIs(e.ies, res.ies, es, fs, 48);
    SameWps(e.ies, res.ies, es, fs);
  }

  /** The flags for the rates, the first elements of both lists, and for any octet at all. */
  lemma RateChanges(e: Entry, res: ScanRes, es: seq<Element>, fs: seq<Element>)
    requires Carries(e.ies, es) && Carries(res.ies, fs)
    ensures var c := AllChanges(e, res);
            (c.rates <==> !SameId(es, fs, 1) || !SameId(es, fs, 50)) && (c.ies <==> e.ies != res.ies)
  {
    SameIdIs(e.ies, res.ies, es, fs, 1);
    SameIdIs(e.ies, res.ies, es, fs, 50);
  }

  // ---- comparing as the source does ----

  /** The bytes of an element as they lie in the buffer, id and length included. */
  function Raw(ies: seq<byte>, pos: nat): seq<byte>
    requires Starts(ies, pos)
  {
    ies[pos..pos + 2 + ies[pos + 1]]
  }

  /** Comparing the bytes of two elements is comparing the elements. */
  lemma RawDecides(a: seq<byte>, i: nat, b: seq<byte>, j: nat)
    requires Starts(a, i) && Starts(b, j)
    ensures a[i + 1] == b[j + 1] && Raw(a, i) == Raw(b, j) <==> At(a, i) == At(b, j)
  {
    assert Raw(a, i) == EncodeOne(At(a, i));
    assert Raw(b, j) == EncodeOne(At(b, j));
    assert EncodeOne(At(a, i))[2..] == At(a, i).payload && EncodeOne(At(b, j))[2..] == At(b, j).payload;
  }

  method AreIesEqual(a: seq<byte>, b: seq<byte>, what: Compared) returns (same: bool)
    ensures same == SameElement(a, b, what)
  {
    match what {
      case Single(sel) =>
        var i := GetIe(a, sel);
        var j := GetIe(b, sel);
        if i.None? || j.None? {
          return i.None? && j.None?;
        }
        RawDecides(a, i.value, b, j.value);
        return a[i.value + 1] == b[j.value + 1] && Raw(a, i.value) == Raw(b, j.value);
      case Joined(vendor) =>
        var x := GetVendorIeMulti(a, vendor);
        var y := GetVendorIeMulti(b, vendor);
        if x.None? || y.None? {
          return x.None? && y.None?;
        }
        return x.value == y.value;
    }
  }

  /** Equal element buffers end the comparison early; the flags are the same as with every comparison made. */
  method CompareRes(e: Entry, res: ScanRes) returns (c: Changes)
    ensures c == AllChanges(e, res)
  {
    c := Changes(
      e.radio.freq != res.radio.freq,
      e.radio.level != res.radio.level,
      HasBit(e.radio.caps, CAP_PRIVACY) != HasBit(res.radio.caps, CAP_PRIVACY),
      HasBit(e.radio.caps, CAP_IBSS) != HasBit(res.radio.caps, CAP_IBSS),
      false, false, false, false, false);
    if |e.ies| == |res.ies| && e.ies == res.ies {
      return;
    }
    c := c.(ies := true);
    var same := AreIesEqual(e.ies, res.ies, Single(ByVendor(WPA_IE_VENDOR_TYPE)));
    c := c.(wpaIe := !same);
    same := AreIesEqual(e.ies, res.ies, Single(ById(RSN)));
    c := c.(rsnIe := !same);
    same := AreIesEqual(e.ies, res.ies, Joined(WPS_IE_VENDOR_TYPE));
    c := c.(wps := !same);
    same := AreIesEqual(e.ies, res.ies, Single(ById(SUPP_RATES)));
    if same {
      same := AreIesEqual(e.ies, res.ies, Single(ById(EXT_SUPP_RATES)));
    }
    c := c.(rates := !same);
  }
}
