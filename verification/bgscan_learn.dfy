/**
 The neighbour graph of a learning background scan: which BSSs of a network were seen together.
 */
module BgscanLearn {
  import opened Bytes
  import opened Text
  import opened Wrappers

  datatype Bss = Bss(bssid: Mac, freq: int, neigh: seq<Mac>)

  /** A scan result; the SSID is absent if the result has no such element. */
  datatype Result = Result(bssid: Mac, freq: int, ssid: Option<seq<byte>>)

  const MAX_BSS := 50

  // ---- lists of BSSs ----

  ghost predicate NoRepeats(s: seq<Mac>)
  {
    forall i, j :: 0 <= i < j < |s| ==> s[i] != s[j]
  }

  /** A BSS that is not its own neighbour and has no neighbour twice. */
  ghost predicate Proper(b: Bss)
  {
    b.bssid !in b.neigh && NoRepeats(b.neigh)
  }

  ghost predicate Unique(l: seq<Bss>)
  {
    forall i, j :: 0 <= i < j < |l| ==> l[i].bssid != l[j].bssid
  }

  ghost predicate Good(l: seq<Bss>)
  {
    Unique(l) && forall i :: 0 <= i < |l| ==> Proper(l[i])
  }

  /** The first BSS with an address; the length if there is none. */
  function Find(l: seq<Bss>, a: Mac): (k: nat)
    ensures k <= |l| && (k < |l| ==> l[k].bssid == a)
    ensures forall i :: 0 <= i < k ==> l[i].bssid != a
  {
    if l == [] then 0 else if l[0].bssid == a then 0 else 1 + Find(l[1..], a)
  }

  method GetBss(l: seq<Bss>, a: Mac) returns (k: nat)
    ensures k == Find(l, a)
  {
    k := 0;
    while k < |l| && l[k].bssid != a
      invariant k <= |l| && forall i :: 0 <= i < k ==> l[i].bssid != a
    {
      k := k + 1;
    }
  }

  // ---- neighbours ----

  function WithNeighbor(b: Bss, a: Mac): Bss
  {
    if b.bssid == a || a in b.neigh then b else b.(neigh := b.neigh + [a])
  }

  ghost function WithNeighbors(b: Bss, addrs: seq<Mac>): Bss
  {
    if addrs == [] then b else WithNeighbor(WithNeighbors(b, addrs[..|addrs| - 1]), addrs[|addrs| - 1])
  }

  /** The neighbours grow by the addresses given, except by the BSS's own. */
  lemma {:induction false} NeighborsAre(b: Bss, addrs: seq<Mac>)
    ensures var r := WithNeighbors(b, addrs);
            && r.bssid == b.bssid && r.freq == b.freq && b.neigh <= r.neigh
            && (Proper(b) ==> Proper(r))
            && forall a :: a in r.neigh <==> a in b.neigh || (a in addrs && a != b.bssid)
  {
    if addrs != [] {
      var before, a := addrs[..|addrs| - 1], addrs[|addrs| - 1];
      NeighborsAre(b, before);
      assert addrs == before + [a];
    }
  }

  // ---- a scan result ----

  /** The list with a BSS seen on a frequency; a new one is put in front. */
  function Seen(l: seq<Bss>, a: Mac, freq: int): seq<Bss>
  {
    var k := Find(l, a);
    if k < |l| then l[k := l[k].(freq := freq)] else [Bss(a, freq, [])] + l
  }

  ghost function Noted(l: seq<Bss>, r: Result, addrs: seq<Mac>): seq<Bss>
  {
    var s := Seen(l, r.bssid, r.freq);
    var k := Find(s, r.bssid);
    if k < |s| then s[k := WithNeighbors(s[k], addrs)] else s
  }

  ghost function NotedAll(l: seq<Bss>, rs: seq<Result>, addrs: seq<Mac>): seq<Bss>
  {
    if rs == [] then l else Noted(NotedAll(l, rs[..|rs| - 1], addrs), rs[|rs| - 1], addrs)
  }

  /** The results that are of the network. */
  ghost function Matching(rs: seq<Result>, ssid: seq<byte>): seq<Result>
  {
    if rs == [] then []
    else Matching(rs[..|rs| - 1], ssid) + if rs[|rs| - 1].ssid == Some(ssid) then [rs[|rs| - 1]] else []
  }

  /** They are the results with the SSID, and only those. */
  lemma {:induction false} MatchingAre(rs: seq<Result>, ssid: seq<byte>, r: Result)
    ensures r in Matching(rs, ssid) <==> r in rs && r.ssid.Some? && r.ssid.value == ssid
  {
    if rs != [] {
      MatchingAre(rs[..|rs| - 1], ssid, r);
      assert rs == rs[..|rs| - 1] + [rs[|rs| - 1]];
    }
  }

  ghost function Addresses(rs: seq<Result>): seq<Mac>
  {
    seq(|rs|, i requires 0 <= i < |rs| => rs[i].bssid)
  }

  /** The addresses that are entered as neighbours: no more than fit into the buffer. */
  ghost function Buffered(ms: seq<Result>): seq<Mac>
  {
    if |ms| <= MAX_BSS then Addresses(ms) else Addresses(ms[..MAX_BSS])
  }

  ghost function AfterScan(l: seq<Bss>, rs: seq<Result>, ssid: seq<byte>): seq<Bss>
  {
    var ms := Matching(rs, ssid);
    NotedAll(l, ms, Buffered(ms))
  }

  // ---- the relation ----

  ghost predicate Knows(l: seq<Bss>, a: Mac, b: Mac)
  {
    exists i :: 0 <= i < |l| && l[i].bssid == a && b in l[i].neigh
  }

  ghost predicate Lists(l: seq<Bss>, a: Mac)
  {
    exists i :: 0 <= i < |l| && l[i].bssid == a
  }

  /** What a list becomes when one BSS is seen: the others stay, with their neighbours. */
  lemma SeenKeeps(l: seq<Bss>, a: Mac, freq: int)
    requires Good(l)
    ensures var s := Seen(l, a, freq);
            && Good(s) && Find(s, a) < |s| && s[Find(s, a)].freq == freq
            && (forall x, y :: Knows(s, x, y) <==> Knows(l, x, y))
            && (forall x :: Lists(s, x) <==> Lists(l, x) || x == a)
  {
    var s, k := Seen(l, a, freq), Find(l, a);
    if k < |l| {
      assert forall i :: 0 <= i < |l| ==> s[i].bssid == l[i].bssid && s[i].neigh == l[i].neigh;
    } else {
      assert forall i :: 0 <= i < |l| ==> s[i + 1] == l[i];
    }
  }

  lemma KnowsAt(l: seq<Bss>, k: nat, y: Mac)
    requires Unique(l) && k < |l|
    ensures Knows(l, l[k].bssid, y) <==> y in l[k].neigh
  {
  }

  /** One BSS of a list replaced by one of the same address. */
  lemma Replaced(l: seq<Bss>, k: nat, b: Bss)
    requires Good(l) && k < |l| && Proper(b) && b.bssid == l[k].bssid
    ensures Good(l[k := b])
    ensures forall x, y :: Knows(l[k := b], x, y) <==> if x == b.bssid then y in b.neigh else Knows(l, x, y)
    ensures forall x :: Lists(l[k := b], x) <==> Lists(l, x)
  {
    var s := l[k := b];
    assert forall i :: 0 <= i < |l| && i != k ==> s[i] == l[i];
    forall x, y
      ensures Knows(s, x, y) <==> if x == b.bssid then y in b.neigh else Knows(l, x, y)
    {
      if x == b.bssid {
        KnowsAt(s, k, y);
      } else {
        KnowsElsewhere(l, s, k, x, y);
      }
    }
    forall x
      ensures Lists(s, x) <==> Lists(l, x)
    {
      SameAddresses(l, s, x);
    }
  }

  lemma SameAddresses(l: seq<Bss>, s: seq<Bss>, x: Mac)
    requires |l| == |s| && forall i :: 0 <= i < |l| ==> l[i].bssid == s[i].bssid
    ensures Lists(s, x) <==> Lists(l, x)
  {
    if i :| 0 <= i < |l| && l[i].bssid == x {
      assert s[i].bssid == x;
    }
  }

  lemma KnowsElsewhere(l: seq<Bss>, s: seq<Bss>, k: nat, x: Mac, y: Mac)
    requires k < |l| == |s| && (forall i :: 0 <= i < |l| && i != k ==> s[i] == l[i])
    requires l[k].bssid == s[k].bssid != x
    ensures Knows(s, x, y) <==> Knows(l, x, y)
  {
    if i :| 0 <= i < |l| && l[i].bssid == x && y in l[i].neigh {
      assert s[i] == l[i];
    }
    if i :| 0 <= i < |s| && s[i].bssid == x && y in s[i].neigh {
      assert s[i] == l[i];
    }
  }

  /** One result makes its BSS know the addresses given, and changes nothing else. */
  lemma NotedKeeps(l: seq<Bss>, r: Result, addrs: seq<Mac>)
    requires Good(l)
    ensures var t := Noted(l, r, addrs);
            && Good(t)
            && (forall x, y :: Knows(t, x, y) <==> Knows(l, x, y) || (x == r.bssid && y in addrs && y != x))
            && (forall x :: Lists(t, x) <==> Lists(l, x) || x == r.bssid)
  {
    var s := Seen(l, r.bssid, r.freq);
    SeenKeeps(l, r.bssid, r.freq);
    var k := Find(s, r.bssid);
    var b := WithNeighbors(s[k], addrs);
    NeighborsAre(s[k], addrs);
    Replaced(s, k, b);
    var t := Noted(l, r, addrs);
    assert t == s[k := b];
    forall x, y
      ensures Knows(t, x, y) <==> Knows(l, x, y) || (x == r.bssid && y in addrs && y != x)
    {
      KnowsAt(s, k, y);
      assert Knows(s, x, y) <==> Knows(l, x, y);
    }
  }

  ghost predicate Among(rs: seq<Result>, a: Mac)
  {
    exists i :: 0 <= i < |rs| && rs[i].bssid == a
  }

  lemma AmongSnoc(rs: seq<Result>, a: Mac)
    requires rs != []
    ensures Among(rs, a) <==> Among(rs[..|rs| - 1], a) || rs[|rs| - 1].bssid == a
  {
    if Among(rs, a) {
      var i :| 0 <= i < |rs| && rs[i].bssid == a;
      assert i < |rs| - 1 ==> rs[..|rs| - 1][i].bssid == a;
    }
  }

  /** What results do to the relation: every BSS among them comes to know all the addresses. */
  lemma {:induction false} NotedAllKeeps(l: seq<Bss>, rs: seq<Result>, addrs: seq<Mac>)
    requires Good(l)
    ensures var t := NotedAll(l, rs, addrs);
            && Good(t)
            && (forall x, y :: Knows(t, x, y) <==> Knows(l, x, y) || (Among(rs, x) && y in addrs && y != x))
            && (forall x :: Lists(t, x) <==> Lists(l, x) || Among(rs, x))
  {
    if rs != [] {
      var before := rs[..|rs| - 1];
      NotedAllKeeps(l, before, addrs);
      NotedKeeps(NotedAll(l, before, addrs), rs[|rs| - 1], addrs);
      forall x
        ensures Among(rs, x) <==> Among(before, x) || x == rs[|rs| - 1].bssid
      {
        AmongSnoc(rs, x);
      }
    }
  }

  // ---- symmetry ----

  ghost predicate Symmetric(l: seq<Bss>)
  {
    forall a, b :: Knows(l, a, b) ==> Knows(l, b, a)
  }

  /** The addresses in the buffer know all the BSSs of the scan that did not fit into it. */
  ghost predicate OverflowKnown(l: seq<Bss>, ms: seq<Result>)
  {
    forall a, b :: Among(ms, a) && a !in Buffered(ms) && b in Buffered(ms) ==> Knows(l, b, a)
  }

  lemma BufferedAmong(ms: seq<Result>, a: Mac)
    ensures a in Buffered(ms) ==> Among(ms, a)
    ensures |ms| <= MAX_BSS ==> (a in Buffered(ms) <==> Among(ms, a))
  {
    if a in Buffered(ms) {
      var i :| 0 <= i < |Buffered(ms)| && Buffered(ms)[i] == a;
      assert ms[i].bssid == a;
    }
    if |ms| <= MAX_BSS && Among(ms, a) {
      var i :| 0 <= i < |ms| && ms[i].bssid == a;
      assert Addresses(ms)[i] == a;
    }
  }

  /** A scan keeps a symmetric relation symmetric if and only if what did not fit into the buffer
      was known to everything that did. */
  lemma ScanSymmetry(l: seq<Bss>, rs: seq<Result>, ssid: seq<byte>)
    requires Good(l) && Symmetric(l)
    ensures Symmetric(AfterScan(l, rs, ssid)) <==> OverflowKnown(l, Matching(rs, ssid))
  {
    var ms := Matching(rs, ssid);
    var addrs, t := Buffered(ms), AfterScan(l, rs, ssid);
    NotedAllKeeps(l, ms, addrs);
    forall a
      ensures a in addrs ==> Among(ms, a)
    {
      BufferedAmong(ms, a);
    }
    if Symmetric(t) {
      forall a, b | Among(ms, a) && a !in addrs && b in addrs
        ensures Knows(l, b, a)
      {
        assert Knows(t, a, b);
        assert Knows(t, b, a);
      }
    }
    if OverflowKnown(l, ms) {
      forall a, b | Knows(t, a, b)
        ensures Knows(t, b, a)
      {
        assert Knows(l, a, b) ==> Knows(l, b, a);
      }
    }
  }

  /** With at most fifty matching results nothing is left over. */
  lemma FewMatches(l: seq<Bss>, ms: seq<Result>)
    requires |ms| <= 50
    ensures OverflowKnown(l, ms)
  {
    forall a
      ensures Among(ms, a) ==> a in Buffered(ms)
    {
      BufferedAmong(ms, a);
    }
  }

  /** More than fifty BSSs of a network in one scan break the symmetry, if the first of them did not
      know the fifty-first. */
  lemma OverflowBreaks(l: seq<Bss>, rs: seq<Result>, ssid: seq<byte>)
    requires Good(l) && Symmetric(l) && |Matching(rs, ssid)| > 50
    requires var ms := Matching(rs, ssid);
             (forall i :: 0 <= i < 50 ==> ms[i].bssid != ms[50].bssid)
             && !Knows(l, ms[0].bssid, ms[50].bssid)
    ensures !Symmetric(AfterScan(l, rs, ssid))
  {
    var ms := Matching(rs, ssid);
    var a, b, addrs := ms[MAX_BSS].bssid, ms[0].bssid, Buffered(ms);
    ScanSymmetry(l, rs, ssid);
    assert Among(ms, a) && addrs[0] == b;
    assert a !in addrs by {
      assert forall i :: 0 <= i < MAX_BSS ==> addrs[i] == ms[i].bssid;
    }
    assert !OverflowKnown(l, ms);
  }

  lemma {:induction false} AllMatch(rs: seq<Result>, ssid: seq<byte>)
    requires forall i :: 0 <= i < |rs| ==> rs[i].ssid == Some(ssid)
    ensures Matching(rs, ssid) == rs
  {
    if rs != [] {
      AllMatch(rs[..|rs| - 1], ssid);
    }
  }

  /** Any fifty-one different BSSs of a network, all new to the list, break the symmetry. */
  lemma FiftyOneBreak(l: seq<Bss>, rs: seq<Result>, ssid: seq<byte>)
    requires Good(l) && Symmetric(l) && |rs| == 51
    requires forall i :: 0 <= i < |rs| ==> rs[i].ssid == Some(ssid) && !Lists(l, rs[i].bssid)
    requires forall i, j :: 0 <= i < j < |rs| ==> rs[i].bssid != rs[j].bssid
    ensures !Symmetric(AfterScan(l, rs, ssid))
  {
    AllMatch(rs, ssid);
    assert !Lists(l, rs[0].bssid);
    OverflowBreaks(l, rs, ssid);
  }

  // ---- growth ----

  ghost function NeighborsOf(l: seq<Bss>, a: Mac): seq<Mac>
  {
    if Find(l, a) < |l| then l[Find(l, a)].neigh else []
  }

  ghost function FreqOf(l: seq<Bss>, a: Mac): Option<int>
  {
    if Find(l, a) < |l| then Some(l[Find(l, a)].freq) else None
  }

  lemma FindAt(l: seq<Bss>, k: nat)
    requires Unique(l) && k < |l|
    ensures Find(l, l[k].bssid) == k
  {
  }

  lemma NotedGrows(l: seq<Bss>, r: Result, addrs: seq<Mac>, a: Mac)
    requires Good(l)
    ensures NeighborsOf(l, a) <= NeighborsOf(Noted(l, r, addrs), a)
    ensures FreqOf(Noted(l, r, addrs), a) == if a == r.bssid then Some(r.freq) else FreqOf(l, a)
  {
    var s, t := Seen(l, r.bssid, r.freq), Noted(l, r, addrs);
    SeenKeeps(l, r.bssid, r.freq);
    var k := Find(s, r.bssid);
    NeighborsAre(s[k], addrs);
    Replaced(s, k, t[k]);
    SeenAt(l, r.bssid, r.freq, a);
    if Find(s, a) < |s| {
      FindAt(t, Find(s, a));
    } else {
      assert forall i :: 0 <= i < |t| ==> t[i].bssid == s[i].bssid;
    }
  }

  lemma SeenAt(l: seq<Bss>, b: Mac, freq: int, a: Mac)
    requires Good(l)
    ensures NeighborsOf(Seen(l, b, freq), a) == NeighborsOf(l, a)
    ensures FreqOf(Seen(l, b, freq), a) == if a == b then Some(freq) else FreqOf(l, a)
  {
    if Find(l, b) < |l| {
      SeenAgain(l, b, freq, a);
    } else {
      FindBehind(Bss(b, freq, []), l, a);
    }
  }

  lemma SeenAgain(l: seq<Bss>, b: Mac, freq: int, a: Mac)
    requires Find(l, b) < |l|
    ensures NeighborsOf(Seen(l, b, freq), a) == NeighborsOf(l, a)
    ensures FreqOf(Seen(l, b, freq), a) == if a == b then Some(freq) else FreqOf(l, a)
  {
    SameFind(l, Seen(l, b, freq), a);
  }

  lemma FindBehind(b: Bss, l: seq<Bss>, a: Mac)
    ensures Find([b] + l, a) == if b.bssid == a then 0 else 1 + Find(l, a)
  {
    assert ([b] + l)[1..] == l;
  }

  lemma {:induction false} SameFind(l: seq<Bss>, s: seq<Bss>, a: Mac)
    requires |l| == |s| && forall i :: 0 <= i < |l| ==> s[i].bssid == l[i].bssid
    ensures Find(l, a) == Find(s, a)
  {
    if l != [] {
      SameFind(l[1..], s[1..], a);
    }
  }

  /** The frequency of the last result of a BSS. */
  ghost function LatestFreq(rs: seq<Result>, a: Mac, was: Option<int>): Option<int>
  {
    if rs == [] then was
    else if rs[|rs| - 1].bssid == a then Some(rs[|rs| - 1].freq)
    else LatestFreq(rs[..|rs| - 1], a, was)
  }

  /** Neighbours are only ever added, at the end, and every BSS has the frequency it was last seen on. */
  lemma {:induction false} ScanGrows(l: seq<Bss>, rs: seq<Result>, addrs: seq<Mac>, a: Mac)
    requires Good(l)
    ensures NeighborsOf(l, a) <= NeighborsOf(NotedAll(l, rs, addrs), a)
    ensures FreqOf(NotedAll(l, rs, addrs), a) == LatestFreq(rs, a, FreqOf(l, a))
  {
    if rs != [] {
      var before := rs[..|rs| - 1];
      ScanGrows(l, before, addrs, a);
      NotedAllKeeps(l, before, addrs);
      NotedGrows(NotedAll(l, before, addrs), rs[|rs| - 1], addrs, a);
    }
  }

  // ---- runs ----

  ghost function AfterScans(l: seq<Bss>, scans: seq<seq<Result>>, ssid: seq<byte>): seq<Bss>
  {
    if scans == [] then l else AfterScan(AfterScans(l, scans[..|scans| - 1], ssid), scans[|scans| - 1], ssid)
  }

  /** Every run keeps addresses unique and the relation irreflexive and without repeats, and only
      adds to it; with at most fifty matching results a scan, it also stays symmetric. */
  lemma {:induction false} RunKeeps(l: seq<Bss>, scans: seq<seq<Result>>, ssid: seq<byte>)
    requires Good(l)
    ensures Good(AfterScans(l, scans, ssid))
    ensures forall a :: NeighborsOf(l, a) <= NeighborsOf(AfterScans(l, scans, ssid), a)
    ensures Symmetric(l) && (forall i :: 0 <= i < |scans| ==> |Matching(scans[i], ssid)| <= 50) ==>
              Symmetric(AfterScans(l, scans, ssid))
  {
    if scans != [] {
      var before, last := scans[..|scans| - 1], scans[|scans| - 1];
      var m, ms := AfterScans(l, before, ssid), Matching(last, ssid);
      RunKeeps(l, before, ssid);
      NotedAllKeeps(m, ms, Buffered(ms));
      forall a
        ensures NeighborsOf(m, a) <= NeighborsOf(AfterScan(m, last, ssid), a)
      {
        ScanGrows(m, ms, Buffered(ms), a);
      }
      if Symmetric(m) && |ms| <= MAX_BSS {
        FewMatches(m, ms);
        ScanSymmetry(m, last, ssid);
      }
    }
  }

  // ---- the module's data ----

  class Learn {
    var bss: seq<Bss>
    const ssid: seq<byte>

    constructor (ssid: seq<byte>)
      ensures this.ssid == ssid && bss == []
    {
      this.ssid, bss := ssid, [];
    }

    /** One neighbour more for a BSS of the list. */
    method AddNeighbor(k: nat, a: Mac)
      requires k < |bss|
      modifies `bss
      ensures bss == old(bss)[k := WithNeighbor(old(bss)[k], a)]
    {
      if bss[k].bssid == a {
        return;
      }
      var j := 0;
      while j < |bss[k].neigh|
        invariant bss == old(bss) && j <= |bss[k].neigh| && forall i :: 0 <= i < j ==> bss[k].neigh[i] != a
      {
        if bss[k].neigh[j] == a {
          return;
        }
        j := j + 1;
      }
      bss := bss[k := bss[k].(neigh := bss[k].neigh + [a])];
    }

    method AddNeighbors(k: nat, addrs: seq<Mac>)
      requires k < |bss|
      modifies `bss
      ensures bss == old(bss)[k := WithNeighbors(old(bss)[k], addrs)]
    {
      var j := 0;
      while j < |addrs|
        invariant j <= |addrs| && bss == old(bss)[k := WithNeighbors(old(bss)[k], addrs[..j])]
      {
        assert addrs[..j + 1][..j] == addrs[..j];
        AddNeighbor(k, addrs[j]);
        j := j + 1;
      }
      assert addrs[..j] == addrs;
    }

    method NoteResult(r: Result, addrs: seq<Mac>)
      modifies `bss
      ensures bss == Noted(old(bss), r, addrs)
    {
      var k := GetBss(bss, r.bssid);
      if k < |bss| && bss[k].freq != r.freq {
        bss := bss[k := bss[k].(freq := r.freq)];
      } else if k == |bss| {
        bss, k := [Bss(r.bssid, r.freq, [])] + bss, 0;
      }
      assert bss == Seen(old(bss), r.bssid, r.freq);
      assert bss[k].bssid == r.bssid && forall i :: 0 <= i < k ==> bss[i].bssid != r.bssid;
      assert k == Find(bss, r.bssid);
      AddNeighbors(k, addrs);
    }

    method CollectAddresses(rs: seq<Result>) returns (addrs: seq<Mac>)
      ensures addrs == Buffered(Matching(rs, ssid))
    {
      addrs := [];
      var i := 0;
      while i < |rs|
        invariant i <= |rs| && addrs == Buffered(Matching(rs[..i], ssid))
      {
        assert rs[..i + 1][..i] == rs[..i];
        if rs[i].ssid == Some(ssid) {
          BufferedSnoc(Matching(rs[..i], ssid), rs[i]);
          if |addrs| < MAX_BSS {
            addrs := addrs + [rs[i].bssid];
          }
        }
        i := i + 1;
      }
      assert rs[..i] == rs;
    }

    /** The results of a scan: first the addresses, then every BSS with all of them. */
    method NotifyScan(rs: seq<Result>)
      modifies `bss
      ensures bss == AfterScan(old(bss), rs, ssid)
    {
      var addrs := CollectAddresses(rs);
      var i := 0;
      while i < |rs|
        invariant i <= |rs| && bss == NotedAll(old(bss), Matching(rs[..i], ssid), addrs)
      {
        NoteOne(old(bss), rs, addrs, i);
        i := i + 1;
      }
      assert rs[..i] == rs;
    }

    method NoteOne(ghost was: seq<Bss>, rs: seq<Result>, addrs: seq<Mac>, i: nat)
      requires i < |rs| && bss == NotedAll(was, Matching(rs[..i], ssid), addrs)
      modifies `bss
      ensures bss == NotedAll(was, Matching(rs[..i + 1], ssid), addrs)
    {
      NotedStep(was, rs, ssid, addrs, i);
      if rs[i].ssid == Some(ssid) {
        NoteResult(rs[i], addrs);
      }
    }
  }

  lemma NotedStep(l: seq<Bss>, rs: seq<Result>, ssid: seq<byte>, addrs: seq<Mac>, i: nat)
    requires i < |rs|
    ensures var t := NotedAll(l, Matching(rs[..i], ssid), addrs);
            NotedAll(l, Matching(rs[..i + 1], ssid), addrs) ==
              if rs[i].ssid == Some(ssid) then Noted(t, rs[i], addrs) else t
  {
    var ms := Matching(rs[..i], ssid);
    assert rs[..i + 1][..i] == rs[..i];
    assert (ms + [rs[i]])[..|ms|] == ms && ms + [] == ms;
  }

  lemma BufferedSnoc(ms: seq<Result>, r: Result)
    ensures Buffered(ms + [r]) == if |Buffered(ms)| < MAX_BSS then Buffered(ms) + [r.bssid] else Buffered(ms)
  {
    assert |ms| >= MAX_BSS ==> (ms + [r])[..MAX_BSS] == ms[..MAX_BSS];
    assert |ms| == MAX_BSS ==> ms[..MAX_BSS] == ms;
  }
}
