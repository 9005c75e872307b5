/**
 Information elements of beacon and probe response frames: the byte walkers of the
 BSS table, and the reading of a buffer as a list of elements that they agree with.
 */
module Elements {

  import opened Wrappers
  import opened Bytes

  datatype Element = Element(id: byte, payload: seq<byte>)

  /** What a walker is looking for: an element id, or a vendor element of a four-octet type. */
  datatype Selector = ById(id: byte) | ByVendor(vendor: nat)

  const VENDOR_SPECIFIC: byte := 221
  const SSID: byte := 0
  const SUPP_RATES: byte := 1
  const RSN: byte := 48
  const EXT_SUPP_RATES: byte := 50
  const INTERWORKING: byte := 107
  const MESH_ID: byte := 114

  const WPA_IE_VENDOR_TYPE: nat := 0x0050f201
  const WPS_IE_VENDOR_TYPE: nat := 0x0050f204
  const P2P_IE_VENDOR_TYPE: nat := 0x506f9a09

  function BigEndian32(b: seq<byte>): nat
    requires |b| >= 4
  {
    (b[0] as int) * 0x1000000 + (b[1] as int) * 0x10000 + (b[2] as int) * 0x100 + b[3] as int
  }

  predicate Matches(e: Element, sel: Selector)
  {
    match sel
    case ById(id) => e.id == id
    case ByVendor(v) => e.id == VENDOR_SPECIFIC && |e.payload| >= 4 && BigEndian32(e.payload) == v
  }

  /** An element fits in one octet of length. */
  predicate Fits(es: seq<Element>)
  {
    forall i :: 0 <= i < |es| ==> |es[i].payload| < 256
  }

  function EncodeOne(e: Element): (b: seq<byte>)
    requires |e.payload| < 256
  {
    [e.id, |e.payload|] + e.payload
  }

  function Encode(es: seq<Element>): seq<byte>
    requires Fits(es)
  {
    if es == [] then [] else EncodeOne(es[0]) + Encode(es[1..])
  }

  /** Whether a whole element lies at a position of the buffer. */
  predicate Starts(b: seq<byte>, pos: nat)
  {
    pos + 1 < |b| && pos + 2 + b[pos + 1] <= |b|
  }

  function At(b: seq<byte>, pos: nat): Element
    requires Starts(b, pos)
  {
    Element(b[pos], b[pos + 2..pos + 2 + b[pos + 1]])
  }

  /** The elements a walk visits from a position on; a truncated tail is ignored. */
  function DecodeFrom(b: seq<byte>, pos: nat): (es: seq<Element>)
    requires pos <= |b|
    ensures Fits(es)
    decreases |b| - pos
  {
    if !Starts(b, pos) then [] else [At(b, pos)] + DecodeFrom(b, pos + 2 + b[pos + 1])
  }

  function Decode(b: seq<byte>): seq<Element>
  {
    DecodeFrom(b, 0)
  }

  /** The same bytes, at another place. */
  ghost predicate Same(b: seq<byte>, c: seq<byte>, skip: nat)
  {
    // named first: the verifier then keeps the conjunction in one piece
    var same := |b| == skip + |c| && forall i :: 0 <= i < |c| ==> c[i] == b[skip + i];
    same
  }

  lemma AtShift(b: seq<byte>, c: seq<byte>, skip: nat, pos: nat)
    requires Same(b, c, skip)
    ensures Starts(c, pos) <==> Starts(b, skip + pos)
    ensures Starts(c, pos) ==> At(c, pos) == At(b, skip + pos) && c[pos + 1] == b[skip + pos + 1]
  {
  }

  /** A walk does not look at what lies before its position. */
  lemma {:induction false} DecodeShift(b: seq<byte>, c: seq<byte>, skip: nat, pos: nat)
    requires Same(b, c, skip) && pos <= |c|
    ensures DecodeFrom(b, skip + pos) == DecodeFrom(c, pos)
    decreases |c| - pos
  {
    AtShift(b, c, skip, pos);
    if Starts(c, pos) {
      var next := pos + 2 + c[pos + 1];
      DecodeShift(b, c, skip, next);
      DecodeStep(c, pos, next);
      DecodeStep(b, skip + pos, skip + next);
    } else {
      DecodeEnds(c, pos);
      DecodeEnds(b, skip + pos);
    }
  }

  lemma DecodeStep(b: seq<byte>, pos: nat, next: nat)
    requires Starts(b, pos) && next == pos + 2 + b[pos + 1]
    ensures DecodeFrom(b, pos) == [At(b, pos)] + DecodeFrom(b, next)
  {
  }

  lemma DecodeEnds(b: seq<byte>, pos: nat)
    requires pos <= |b| && !Starts(b, pos)
    ensures DecodeFrom(b, pos) == []
  {
  }

  lemma DecodeCons(e: Element, rest: seq<byte>)
    requires |e.payload| < 256
    ensures Decode(EncodeOne(e) + rest) == [e] + Decode(rest)
  {
    var b, n := EncodeOne(e) + rest, |EncodeOne(e)|;
    assert b[1] == |e.payload| && b[2..2 + |e.payload|] == e.payload;
    DecodeShift(b, rest, n, 0);
  }

  /** The elements of a buffer that starts with an encoding are the ones encoded and then the ones
      behind. */
  lemma {:induction false} DecodeConcat(es: seq<Element>, tail: seq<byte>)
    requires Fits(es)
    ensures Decode(Encode(es) + tail) == es + Decode(tail)
  {
    if es == [] {
      assert Encode(es) + tail == tail;
    } else {
      var one, rest := EncodeOne(es[0]), Encode(es[1..]);
      Reassociate(one, rest, tail);
      DecodeCons(es[0], rest + tail);
      DecodeConcat(es[1..], tail);
    }
  }

  /** A walk over an encoded list visits exactly the list. */
  lemma DecodeEncode(es: seq<Element>)
    requires Fits(es)
    ensures Decode(Encode(es)) == es
  {
    DecodeConcat(es, []);
    assert Encode(es) + [] == Encode(es);
  }

  /** The buffer is these elements and then a tail in which no whole element starts. */
  ghost predicate Carries(ies: seq<byte>, es: seq<Element>)
  {
    Fits(es) && Encode(es) <= ies && !Starts(ies[|Encode(es)|..], 0)
  }

  /** A walk over any buffer visits exactly the elements it carries. */
  lemma CarriesDecode(ies: seq<byte>, es: seq<Element>)
    ensures Carries(ies, es) <==> Decode(ies) == es
  {
    if Carries(ies, es) {
      var tail := ies[|Encode(es)|..];
      assert ies == Encode(es) + tail;
      DecodeConcat(es, tail);
    }
    if Decode(ies) == es {
      var end := EncodeDecode(ies, 0);
      assert Encode(es) == ies[..end];
    }
  }

  lemma EncodeCons(e: Element, es: seq<Element>)
    requires |e.payload| < 256 && Fits(es)
    ensures Fits([e] + es) && Encode([e] + es) == EncodeOne(e) + Encode(es)
  {
    assert ([e] + es)[1..] == es;
  }

  /** Re-encoding what a walk visits gives back the buffer up to the place where no element starts. */
  lemma {:induction false} EncodeDecode(b: seq<byte>, pos: nat) returns (end: nat)
    requires pos <= |b|
    ensures pos <= end <= |b| && b[pos..end] == Encode(DecodeFrom(b, pos))
    ensures !Starts(b, end)
    decreases |b| - pos
  {
    if Starts(b, pos) {
      var next := pos + 2 + b[pos + 1];
      end := EncodeDecode(b, next);
      EncodeCons(At(b, pos), DecodeFrom(b, next));
      assert b[pos..end] == EncodeOne(At(b, pos)) + b[next..end];
    } else {
      end := pos;
    }
  }

  /** The first matching element, if any. */
  function First(es: seq<Element>, sel: Selector): (r: Option<Element>)
  {
    if es == [] then None else if Matches(es[0], sel) then Some(es[0]) else First(es[1..], sel)
  }

  lemma {:induction false} FirstIsFirst(es: seq<Element>, sel: Selector)
    ensures First(es, sel).None? <==> forall i :: 0 <= i < |es| ==> !Matches(es[i], sel)
    ensures First(es, sel).Some? ==>
              exists k :: 0 <= k < |es| && es[k] == First(es, sel).value && Matches(es[k], sel)
                          && forall i :: 0 <= i < k ==> !Matches(es[i], sel)
  {
    if es != [] {
      if Matches(es[0], sel) {
        assert es[0] == First(es, sel).value;
      } else {
        FirstIsFirst(es[1..], sel);
        assert forall i :: 0 < i < |es| ==> es[i] == es[1..][i - 1];
        if First(es, sel).Some? {
          var k :| 0 <= k < |es[1..]| && es[1..][k] == First(es, sel).value && Matches(es[1..][k], sel)
                   && forall i :: 0 <= i < k ==> !Matches(es[1..][i], sel);
          assert es[k + 1] == First(es, sel).value;
          assert forall i :: 0 <= i < k + 1 ==> !Matches(es[i], sel);
        }
      }
    }
  }

  lemma FirstIs(es: seq<Element>, sel: Selector, k: nat)
    requires k < |es| && Matches(es[k], sel) && forall i :: 0 <= i < k ==> !Matches(es[i], sel)
    ensures First(es, sel) == Some(es[k])
  {
    FirstIsFirst(es, sel);
  }

  // ---- elements in plain words ----

  /** A vendor specific element whose data starts with these octets. */
  predicate IsVendor(e: Element, kind: seq<byte>)
  {
    e.id == 221 && kind <= e.payload
  }

  /** The first element with an id is at this place. */
  ghost predicate FirstId(es: seq<Element>, id: byte, k: int)
  {
    0 <= k < |es| && es[k].id == id && forall i :: 0 <= i < k ==> es[i].id != id
  }

  /** Some element is of the vendor kind. */
  ghost predicate HasVendor(es: seq<Element>, kind: seq<byte>)
  {
    exists i :: 0 <= i < |es| && IsVendor(es[i], kind)
  }

  /** The first element of the vendor kind is at this place. */
  ghost predicate FirstVendor(es: seq<Element>, kind: seq<byte>, k: int)
  {
    0 <= k < |es| && IsVendor(es[k], kind) && forall i :: 0 <= i < k ==> !IsVendor(es[i], kind)
  }

  lemma VendorIs(e: Element, kind: seq<byte>)
    requires |kind| == 4
    ensures Matches(e, ByVendor(BigEndian32(kind))) <==> IsVendor(e, kind)
  {
    if |e.payload| >= 4 {
      var p := e.payload[..4];
      assert BigEndian32(p) == BigEndian32(e.payload);
      if BigEndian32(p) == BigEndian32(kind) {
        assert p[0] == kind[0] && p[1] == kind[1] && p[2] == kind[2] && p[3] == kind[3];
        assert p == kind;
      }
    }
  }

  /** A lookup by id in a buffer, said of the elements it carries. */
  lemma LookupId(ies: seq<byte>, es: seq<Element>, id: byte)
    requires Carries(ies, es)
    ensures Lookup(ies, ById(id)).None? <==> forall i :: 0 <= i < |es| ==> es[i].id != id
    ensures forall k :: FirstId(es, id, k) ==> Lookup(ies, ById(id)) == Some(es[k])
    ensures Lookup(ies, ById(id)).Some? ==> exists k :: FirstId(es, id, k)
  {
    CarriesDecode(ies, es);
    FirstIsFirst(es, ById(id));
    assert forall i :: 0 <= i < |es| ==> (Matches(es[i], ById(id)) <==> es[i].id == id);
    forall k | FirstId(es, id, k)
      ensures Lookup(ies, ById(id)) == Some(es[k])
    {
      FirstIs(es, ById(id), k);
    }
    if Lookup(ies, ById(id)).Some? {
      var k :| 0 <= k < |es| && Matches(es[k], ById(id)) && forall i :: 0 <= i < k ==> !Matches(es[i], ById(id));
      assert FirstId(es, id, k);
    }
  }

  /** A lookup of a vendor element in a buffer, said of the elements it carries. */
  lemma LookupVendor(ies: seq<byte>, es: seq<Element>, kind: seq<byte>)
    requires Carries(ies, es) && |kind| == 4
    ensures Lookup(ies, ByVendor(BigEndian32(kind))).Some? <==> HasVendor(es, kind)
    ensures forall k :: FirstVendor(es, kind, k) ==> Lookup(ies, ByVendor(BigEndian32(kind))) == Some(es[k])
    ensures HasVendor(es, kind) ==> exists k :: FirstVendor(es, kind, k)
  {
    var sel := ByVendor(BigEndian32(kind));
    CarriesDecode(ies, es);
    FirstIsFirst(es, sel);
    forall i | 0 <= i < |es|
      ensures Matches(es[i], sel) <==> IsVendor(es[i], kind)
    {
      VendorIs(es[i], kind);
    }
    forall k | FirstVendor(es, kind, k)
      ensures Lookup(ies, sel) == Some(es[k])
    {
      FirstIs(es, sel, k);
    }
    if Lookup(ies, sel).Some? {
      var k :| 0 <= k < |es| && Matches(es[k], sel) && forall i :: 0 <= i < k ==> !Matches(es[i], sel);
      assert FirstVendor(es, kind, k);
    }
  }

  /** Payloads of all the matching vendor elements, without the type octets, in order. */
  function VendorPayload(es: seq<Element>, vendor: nat): (r: seq<byte>)
  {
    if es == [] then []
    else Contribution(es[0], vendor) + VendorPayload(es[1..], vendor)
  }

  /** What one element adds to the reassembled payload. */
  function Contribution(e: Element, vendor: nat): seq<byte>
  {
    if Matches(e, ByVendor(vendor)) then e.payload[4..] else []
  }

  /** The reassembled payload, or nothing when it is empty. */
  function Multi(ies: seq<byte>, vendor: nat): Option<seq<byte>>
  {
    var p := VendorPayload(Decode(ies), vendor);
    if p == [] then None else Some(p)
  }

  /** Reassembly as a walk does it, onto what it has already collected. */
  function Gather(es: seq<Element>, vendor: nat, done: seq<byte>): seq<byte>
  {
    if es == [] then done
    else Gather(es[1..], vendor, if Matches(es[0], ByVendor(vendor)) then done + es[0].payload[4..] else done)
  }

  lemma {:induction false} GatherIsPayload(es: seq<Element>, vendor: nat, done: seq<byte>)
    ensures Gather(es, vendor, done) == done + VendorPayload(es, vendor)
    decreases |es|
  {
    if es == [] {
      assert done + [] == done;
    } else {
      var c := Contribution(es[0], vendor);
      GatherIsPayload(es[1..], vendor, done + c);
      Reassociate(done, c, VendorPayload(es[1..], vendor));
      assert done + [] == done;
    }
  }

  lemma Reassociate<T>(a: seq<T>, b: seq<T>, c: seq<T>)
    ensures a + (b + c) == a + b + c
  {
  }

  function Lookup(ies: seq<byte>, sel: Selector): Option<Element>
  {
    First(Decode(ies), sel)
  }

  /**
   The lookup walk over a buffer. The result is the offset of the id octet of the first match.
   */
  method GetIe(ies: seq<byte>, sel: Selector) returns (r: Option<nat>)
    ensures r.None? <==> Lookup(ies, sel).None?
    ensures r.Some? ==> Starts(ies, r.value) && Lookup(ies, sel) == Some(At(ies, r.value))
  {
    var pos := 0;
    while |ies| - pos > 1
      invariant 0 <= pos <= |ies|
      invariant First(DecodeFrom(ies, pos), sel) == Lookup(ies, sel)
    {
      if 2 + ies[pos + 1] > |ies| - pos {
        break;
      }
      if Matches(At(ies, pos), sel) {
        return Some(pos);
      }
      pos := pos + 2 + ies[pos + 1];
    }
    return None;
  }

  /**
   The reassembly walk: payloads go into a buffer of the size of the element area, whose
   bound every write respects.
   */
  method GetVendorIeMulti(ies: seq<byte>, vendor: nat) returns (r: Option<seq<byte>>)
    ensures r == Multi(ies, vendor)
    ensures r.Some? ==> |r.value| <= |ies|
  {
    var size, buf, pos := |ies|, [], 0;
    while |ies| - pos > 1
      invariant |buf| <= pos <= |ies| == size
      invariant Gather(DecodeFrom(ies, pos), vendor, buf) == Gather(Decode(ies), vendor, [])
    {
      if 2 + ies[pos + 1] > |ies| - pos {
        break;
      }
      var e := At(ies, pos);
      if Matches(e, ByVendor(vendor)) {
        buf := PutData(buf, size, e.payload[4..]);
      }
      pos := pos + 2 + ies[pos + 1];
    }
    assert buf == VendorPayload(Decode(ies), vendor) by {
      GatherIsPayload(Decode(ies), vendor, []);
      assert [] + VendorPayload(Decode(ies), vendor) == VendorPayload(Decode(ies), vendor);
    }
    r := if buf == [] then None else Some(buf);
  }

  /** Append to a buffer of a fixed size that has room. */
  method PutData(buf: seq<byte>, size: nat, data: seq<byte>) returns (r: seq<byte>)
    requires |buf| + |data| <= size
    ensures r == buf + data && |r| <= size
  {
    r := buf + data;
  }

  /** For every encoded list of elements the walk gives back the matching payloads, joined. */
  lemma MultiOfEncoded(es: seq<Element>, vendor: nat)
    requires Fits(es)
    ensures Multi(Encode(es), vendor)
            == if VendorPayload(es, vendor) == [] then None else Some(VendorPayload(es, vendor))
  {
    DecodeEncode(es);
  }

  /** Splitting one vendor payload over several elements is undone by reassembly. */
  lemma {:induction false} FragmentsRejoin(pieces: seq<seq<byte>>, vendor: seq<byte>, es: seq<Element>)
    requires |vendor| == 4 && |es| == |pieces|
    requires forall i :: 0 <= i < |es| ==> es[i] == Element(VENDOR_SPECIFIC, vendor + pieces[i])
    ensures VendorPayload(es, BigEndian32(vendor)) == Join(pieces)
  {
    if pieces != [] {
      FragmentsRejoin(pieces[1..], vendor, es[1..]);
      assert es[0].payload[4..] == pieces[0];
    }
  }

  function Join(pieces: seq<seq<byte>>): seq<byte>
  {
    if pieces == [] then [] else pieces[0] + Join(pieces[1..])
  }

  // ---- HESSID ----

  const ZERO_ADDR: seq<byte> := [0, 0, 0, 0, 0, 0]

  /** The HESSID carried by an Interworking element of 7 or 9 octets, zero otherwise. */
  function Hessid(ies: seq<byte>): (h: seq<byte>)
    ensures |h| == 6
  {
    match Lookup(ies, ById(INTERWORKING))
    case None => ZERO_ADDR
    case Some(e) =>
      if |e.payload| == 7 then e.payload[1..7]
      else if |e.payload| == 9 then e.payload[3..9]
      else ZERO_ADDR
  }

  /** The HESSID is the six octets behind the access network options, or behind these and the venue,
      of the first Interworking element. */
  lemma HessidIs(ies: seq<byte>, es: seq<Element>, k: nat, options: seq<byte>, hessid: seq<byte>)
    requires Carries(ies, es) && FirstId(es, 107, k) && es[k].payload == options + hessid
    requires (|options| == 1 || |options| == 3) && |hessid| == 6
    ensures Hessid(ies) == hessid
  {
    LookupId(ies, es, 107);
    assert es[k].payload[|options|..] == hessid;
  }

  /** An Interworking element of another length, or none at all, means a HESSID of zeros. */
  lemma NoHessid(ies: seq<byte>, es: seq<Element>)
    requires Carries(ies, es)
    requires forall k :: FirstId(es, 107, k) ==> |es[k].payload| != 7 && |es[k].payload| != 9
    ensures Hessid(ies) == [0, 0, 0, 0, 0, 0]
  {
    LookupId(ies, es, 107);
  }
}
