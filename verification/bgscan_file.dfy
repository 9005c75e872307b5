/**
 The file that the learned neighbour graph is kept in: a header, a line for every BSS, and a line
 for every pair of neighbours.
 */
module BgscanFile {
  import opened BgscanLearn
  import opened Text
  import opened Wrappers

  const HEADER := "wpa_supplicant-bgscan-learn\n"

  function BssLine(b: Bss): string
  {
    "BSS " + MacText(b.bssid) + " " + Decimal(b.freq) + "\n"
  }

  function NeighborLine(a: Mac, b: Mac): string
  {
    "NEIGHBOR " + MacText(a) + " " + MacText(b) + "\n"
  }

  // ---- reading a line ----

  function Drop(s: string, n: nat): string
  {
    if n <= |s| then s[n..] else []
  }

  function LoadBss(l: seq<Bss>, buf: string): seq<Bss>
  {
    var a := ReadMac(Drop(buf, 4));
    if a.None? then l else [Bss(a.value, Atoi(Drop(buf, 22)), [])] + l
  }

  function LoadNeighbor(l: seq<Bss>, buf: string): seq<Bss>
  {
    var a := ReadMac(Drop(buf, 9));
    if a.None? then l
    else
      var k := Find(l, a.value);
      var b := ReadMac(Drop(buf, 27));
      if k == |l| || b.None? then l else l[k := WithNeighbor(l[k], b.value)]
  }

  function LoadLine(l: seq<Bss>, buf: string): seq<Bss>
  {
    if "BSS " <= buf then LoadBss(l, buf)
    else if "NEIGHBOR " <= buf then LoadNeighbor(l, buf)
    else l
  }

  function LoadAll(l: seq<Bss>, lines: seq<string>): seq<Bss>
  {
    if lines == [] then l else LoadLine(LoadAll(l, lines[..|lines| - 1]), lines[|lines| - 1])
  }

  /** A file without the header is refused. */
  function Loaded(lines: seq<string>): Option<seq<Bss>>
  {
    if lines == [] || !(HEADER <= lines[0]) then None else Some(LoadAll([], lines[1..]))
  }

  /** A file is taken exactly if its first line starts with the header, letter by letter. */
  lemma LoadsOnlyWithHeader(lines: seq<string>)
    ensures Loaded(lines).Some? <==>
            lines != [] && |lines[0]| >= 28 && lines[0][..28] == "wpa_supplicant-bgscan-learn" + "\n"
  {
    assert |HEADER| == 28;
  }

  // ---- written lines read back ----

  lemma BssLineReads(b: Bss, l: seq<Bss>)
    ensures LoadLine(l, BssLine(b)) == [b.(neigh := [])] + l
  {
    var tail := " " + Decimal(b.freq) + "\n";
    var buf := BssLine(b);
    Tail("BSS ", MacText(b.bssid) + tail, buf);
    Tail("BSS " + MacText(b.bssid) + " ", Decimal(b.freq) + "\n", buf);
    ReadMacText(b.bssid, tail);
    AtoiDecimal(b.freq, "\n");
  }

  lemma NeighborLineReads(a: Mac, b: Mac, l: seq<Bss>)
    requires Find(l, a) < |l|
    ensures LoadLine(l, NeighborLine(a, b)) == l[Find(l, a) := WithNeighbor(l[Find(l, a)], b)]
  {
    var tail := " " + MacText(b) + "\n";
    var buf := NeighborLine(a, b);
    NeighborLineParts(a, b);
    ReadMacText(a, tail);
    ReadMacText(b, "\n");
    assert LoadLine(l, buf) == LoadNeighbor(l, buf);
  }

  lemma NeighborLineParts(a: Mac, b: Mac)
    ensures var buf := NeighborLine(a, b);
            && "NEIGHBOR " <= buf && !("BSS " <= buf)
            && Drop(buf, 9) == MacText(a) + (" " + MacText(b) + "\n") && Drop(buf, 27) == MacText(b) + "\n"
  {
    var buf := NeighborLine(a, b);
    Tail("NEIGHBOR ", MacText(a) + (" " + MacText(b) + "\n"), buf);
    Tail("NEIGHBOR " + MacText(a) + " ", MacText(b) + "\n", buf);
    assert buf[0] == 'N';
  }

  lemma Tail(x: string, y: string, s: string)
    requires s == x + y
    ensures x <= s && s[|x|..] == y
  {
  }

  // ---- a file ----

  ghost function BssLines(l: seq<Bss>): seq<string>
  {
    if l == [] then [] else BssLines(l[..|l| - 1]) + [BssLine(l[|l| - 1])]
  }

  /** The lines of the first `n` neighbours of a BSS. */
  ghost function NeighborLines(b: Bss, n: nat): seq<string>
    requires n <= |b.neigh|
  {
    if n == 0 then [] else NeighborLines(b, n - 1) + [NeighborLine(b.bssid, b.neigh[n - 1])]
  }

  ghost function AllNeighborLines(l: seq<Bss>): seq<string>
  {
    if l == [] then [] else AllNeighborLines(l[..|l| - 1]) + NeighborLines(l[|l| - 1], |l[|l| - 1].neigh|)
  }

  ghost function Saved(l: seq<Bss>): seq<string>
  {
    [HEADER] + BssLines(l) + AllNeighborLines(l)
  }

  ghost function Reversed(l: seq<Bss>): (r: seq<Bss>)
    ensures |r| == |l| && forall i :: 0 <= i < |l| ==> r[i] == l[|l| - 1 - i]
  {
    seq(|l|, i requires 0 <= i < |l| => l[|l| - 1 - i])
  }

  /** The list in reverse, the neighbours of the first `n` BSSs already known. */
  ghost function Partly(l: seq<Bss>, n: nat): (r: seq<Bss>)
    requires n <= |l|
    ensures |r| == |l|
    ensures forall i :: 0 <= i < |l| ==>
              r[i] == if |l| - 1 - i < n then l[|l| - 1 - i] else l[|l| - 1 - i].(neigh := [])
  {
    seq(|l|, i requires 0 <= i < |l| => if |l| - 1 - i < n then l[|l| - 1 - i] else l[|l| - 1 - i].(neigh := []))
  }

  lemma {:induction false} LoadConcat(l: seq<Bss>, x: seq<string>, y: seq<string>)
    ensures LoadAll(l, x + y) == LoadAll(LoadAll(l, x), y)
  {
    if y == [] {
      assert x + y == x;
    } else {
      LoadConcat(l, x, y[..|y| - 1]);
      assert (x + y)[..|x + y| - 1] == x + y[..|y| - 1];
    }
  }

  lemma NextBss(lines: seq<string>, b: Bss)
    ensures LoadAll([], lines + [BssLine(b)]) == [b.(neigh := [])] + LoadAll([], lines)
  {
    LoadSnoc([], lines, BssLine(b));
    BssLineReads(b, LoadAll([], lines));
  }

  lemma PartlyLast(l: seq<Bss>)
    requires l != []
    ensures Partly(l, 0) == [l[|l| - 1].(neigh := [])] + Partly(l[..|l| - 1], 0)
  {
  }

  lemma {:induction false} BssLinesRead(l: seq<Bss>)
    ensures LoadAll([], BssLines(l)) == Partly(l, 0)
  {
    if l != [] {
      var before, b := l[..|l| - 1], l[|l| - 1];
      BssLinesRead(before);
      NextBss(BssLines(before), b);
      PartlyLast(l);
    }
  }

  lemma LoadSnoc(l: seq<Bss>, lines: seq<string>, line: string)
    ensures LoadAll(l, lines + [line]) == LoadLine(LoadAll(l, lines), line)
  {
    assert (lines + [line])[..|lines|] == lines;
  }

  lemma NextNeighbor(l: seq<Bss>, k: nat, b: Bss, n: nat)
    requires Unique(l) && k < |l| && Proper(b) && n < |b.neigh| && l[k] == b.(neigh := b.neigh[..n])
    ensures LoadLine(l, NeighborLine(b.bssid, b.neigh[n])) == l[k := b.(neigh := b.neigh[..n + 1])]
  {
    FindAt(l, k);
    NeighborLineReads(b.bssid, b.neigh[n], l);
    NewNeighbor(b, n);
  }

  lemma NewNeighbor(b: Bss, n: nat)
    requires Proper(b) && n < |b.neigh|
    ensures WithNeighbor(b.(neigh := b.neigh[..n]), b.neigh[n]) == b.(neigh := b.neigh[..n + 1])
  {
    assert b.neigh[..n + 1] == b.neigh[..n] + [b.neigh[n]];
  }

  /** The list with the first `n` neighbours of the BSS at `k`. */
  ghost function Grown(l: seq<Bss>, k: nat, b: Bss, n: nat): (r: seq<Bss>)
    requires k < |l| && n <= |b.neigh|
    ensures |r| == |l| && r[k] == b.(neigh := b.neigh[..n]) && forall i :: 0 <= i < |l| && i != k ==> r[i] == l[i]
  {
    l[k := b.(neigh := b.neigh[..n])]
  }

  lemma GrowsOn(l: seq<Bss>, k: nat, b: Bss, n: nat)
    requires Unique(l) && k < |l| && l[k].bssid == b.bssid && Proper(b) && n < |b.neigh|
    ensures LoadLine(Grown(l, k, b, n), NeighborLine(b.bssid, b.neigh[n])) == Grown(l, k, b, n + 1)
  {
    NextNeighbor(Grown(l, k, b, n), k, b, n);
  }

  /** The lines of one BSS give it its neighbours in their order. */
  lemma {:induction false} NeighborLinesRead(l: seq<Bss>, k: nat, b: Bss, n: nat)
    requires Unique(l) && k < |l| && l[k] == b.(neigh := []) && Proper(b) && n <= |b.neigh|
    ensures LoadAll(l, NeighborLines(b, n)) == Grown(l, k, b, n)
    decreases n
  {
    if n > 0 {
      NeighborLinesRead(l, k, b, n - 1);
      GrowsOn(l, k, b, n - 1);
      LoadOn(l, NeighborLines(b, n - 1), NeighborLine(b.bssid, b.neigh[n - 1]), Grown(l, k, b, n - 1));
    }
  }

  lemma LoadOn(l: seq<Bss>, lines: seq<string>, line: string, t: seq<Bss>)
    requires LoadAll(l, lines) == t
    ensures LoadAll(l, lines + [line]) == LoadLine(t, line)
  {
    LoadSnoc(l, lines, line);
  }

  lemma {:induction false} AllNeighborLinesRead(l: seq<Bss>, n: nat)
    requires Good(l) && n <= |l|
    ensures LoadAll(Partly(l, 0), AllNeighborLines(l[..n])) == Partly(l, n)
    decreases n
  {
    if n > 0 {
      AllNeighborLinesRead(l, n - 1);
      LinesOfNext(l, n);
      LoadConcat(Partly(l, 0), AllNeighborLines(l[..n - 1]), NeighborLines(l[n - 1], |l[n - 1].neigh|));
      NextLinesRead(l, n);
    }
  }

  lemma LinesOfNext(l: seq<Bss>, n: nat)
    requires 0 < n <= |l|
    ensures AllNeighborLines(l[..n]) == AllNeighborLines(l[..n - 1]) + NeighborLines(l[n - 1], |l[n - 1].neigh|)
  {
    assert l[..n][..n - 1] == l[..n - 1];
  }

  /** The neighbour lines of one BSS more. */
  lemma NextLinesRead(l: seq<Bss>, n: nat)
    requires Good(l) && 0 < n <= |l|
    ensures LoadAll(Partly(l, n - 1), NeighborLines(l[n - 1], |l[n - 1].neigh|)) == Partly(l, n)
  {
    var b := l[n - 1];
    PartlyNext(l, n);
    NeighborLinesRead(Partly(l, n - 1), |l| - n, b, |b.neigh|);
    assert b.neigh[..|b.neigh|] == b.neigh;
  }

  lemma PartlyNext(l: seq<Bss>, n: nat)
    requires Unique(l) && 0 < n <= |l|
    ensures var p := Partly(l, n - 1);
            Unique(p) && p[|l| - n] == l[n - 1].(neigh := []) && Partly(l, n) == p[|l| - n := l[n - 1]]
  {
    var p := Partly(l, n - 1);
    assert forall i :: 0 <= i < |l| ==> p[i].bssid == l[|l| - 1 - i].bssid;
  }

  lemma SavedLines(l: seq<Bss>)
    ensures Saved(l) != [] && Saved(l)[0] == HEADER && Saved(l)[1..] == BssLines(l) + AllNeighborLines(l)
  {
    Headed(HEADER, BssLines(l), AllNeighborLines(l));
  }

  lemma Headed(h: string, x: seq<string>, y: seq<string>)
    ensures ([h] + x + y)[0] == h && ([h] + x + y)[1..] == x + y
  {
  }

  /** A saved list is loaded again in reverse order, every BSS with its frequency and its
      neighbours in their order. */
  lemma RoundTrip(l: seq<Bss>)
    requires Good(l)
    ensures Loaded(Saved(l)) == Some(Reversed(l))
  {
    SavedLines(l);
    LoadConcat([], BssLines(l), AllNeighborLines(l));
    BssLinesRead(l);
    AllLinesRead(l);
  }

  lemma AllLinesRead(l: seq<Bss>)
    requires Good(l)
    ensures LoadAll(Partly(l, 0), AllNeighborLines(l)) == Reversed(l)
  {
    AllNeighborLinesRead(l, |l|);
    assert l[..|l|] == l;
    assert Partly(l, |l|) == Reversed(l);
  }

  /** The address a BSS line names; none if the line is another or its address cannot be read. */
  function Named(line: string): Option<Mac>
  {
    if "BSS " <= line then ReadMac(Drop(line, 4)) else None
  }

  /** The addresses that the BSS lines of a file name, the last first. */
  ghost function NamedIn(lines: seq<string>): seq<Mac>
  {
    if lines == [] then []
    else
      var a := Named(lines[|lines| - 1]);
      (if a.Some? then [a.value] else []) + NamedIn(lines[..|lines| - 1])
  }

  ghost function AddressesOf(l: seq<Bss>): (r: seq<Mac>)
    ensures |r| == |l| && forall i :: 0 <= i < |l| ==> r[i] == l[i].bssid
  {
    seq(|l|, i requires 0 <= i < |l| => l[i].bssid)
  }

  lemma LineNames(l: seq<Bss>, line: string)
    ensures AddressesOf(LoadLine(l, line)) == (if Named(line).Some? then [Named(line).value] else []) + AddressesOf(l)
  {
    if "BSS " <= line {
      BssNames(l, line);
    } else if "NEIGHBOR " <= line {
      NeighborNames(l, line);
    }
  }

  lemma BssNames(l: seq<Bss>, line: string)
    ensures var a := ReadMac(Drop(line, 4));
            AddressesOf(LoadBss(l, line)) == (if a.Some? then [a.value] else []) + AddressesOf(l)
  {
  }

  lemma NeighborNames(l: seq<Bss>, line: string)
    ensures AddressesOf(LoadNeighbor(l, line)) == AddressesOf(l)
  {
  }

  lemma {:induction false} FileNames(lines: seq<string>)
    ensures AddressesOf(LoadAll([], lines)) == NamedIn(lines)
  {
    if lines != [] {
      FileNames(lines[..|lines| - 1]);
      LineNames(LoadAll([], lines[..|lines| - 1]), lines[|lines| - 1]);
    }
  }

  ghost predicate AllProper(l: seq<Bss>)
  {
    forall i :: 0 <= i < |l| ==> Proper(l[i])
  }

  lemma LineProper(l: seq<Bss>, line: string)
    requires AllProper(l)
    ensures AllProper(LoadLine(l, line))
  {
    if "BSS " <= line {
      assert AllProper(LoadBss(l, line));
    } else if "NEIGHBOR " <= line {
      NeighborProper(l, line);
    }
  }

  lemma NeighborProper(l: seq<Bss>, line: string)
    requires AllProper(l)
    ensures AllProper(LoadNeighbor(l, line))
  {
    var r := LoadNeighbor(l, line);
    forall i | 0 <= i < |r|
      ensures Proper(r[i])
    {
      assert Proper(l[i]);
    }
  }

  lemma {:induction false} FileProper(lines: seq<string>)
    ensures AllProper(LoadAll([], lines))
  {
    if lines != [] {
      FileProper(lines[..|lines| - 1]);
      LineProper(LoadAll([], lines[..|lines| - 1]), lines[|lines| - 1]);
    }
  }

  /** Any file with the header makes a list that the scans and the next save can rely on if and
      only if its BSS lines name no address twice. */
  lemma LoadedGood(lines: seq<string>)
    requires lines != [] && HEADER <= lines[0]
    ensures Unique(Loaded(lines).value) <==> NoRepeats(NamedIn(lines[1..]))
    ensures Good(Loaded(lines).value) <==> NoRepeats(NamedIn(lines[1..]))
  {
    FileNames(lines[1..]);
    FileProper(lines[1..]);
    UniqueAddresses(LoadAll([], lines[1..]));
  }

  lemma UniqueAddresses(l: seq<Bss>)
    ensures Unique(l) <==> NoRepeats(AddressesOf(l))
  {
    var a := AddressesOf(l);
    if NoRepeats(a) {
      forall i, j | 0 <= i < j < |l|
        ensures l[i].bssid != l[j].bssid
      {
        assert a[i] != a[j];
      }
    }
  }

  /** A file that names a BSS twice makes a list that names it twice. */
  lemma DuplicatesLoad(b: Bss)
    ensures var r := Loaded([HEADER] + BssLines([b, b])); r.Some? && !Unique(r.value)
  {
    var lines := [HEADER] + BssLines([b, b]);
    assert lines[0] == HEADER && lines[1..] == BssLines([b, b]);
    BssLinesRead([b, b]);
    var p := Partly([b, b], 0);
    assert p[0].bssid == p[1].bssid;
  }

  // ---- the loops ----

  method SaveBsss(l: seq<Bss>) returns (lines: seq<string>)
    ensures lines == BssLines(l)
  {
    lines := [];
    var i := 0;
    while i < |l|
      invariant i <= |l| && lines == BssLines(l[..i])
    {
      assert l[..i + 1][..i] == l[..i];
      lines := lines + [BssLine(l[i])];
      i := i + 1;
    }
    assert l[..i] == l;
  }

  method SaveAllNeighbors(l: seq<Bss>) returns (lines: seq<string>)
    ensures lines == AllNeighborLines(l)
  {
    lines := [];
    var i := 0;
    while i < |l|
      invariant i <= |l| && lines == AllNeighborLines(l[..i])
    {
      assert l[..i + 1][..i] == l[..i];
      var more := SaveNeighbors(l[i]);
      lines := lines + more;
      i := i + 1;
    }
    assert l[..i] == l;
  }

  method Save(l: seq<Bss>) returns (lines: seq<string>)
    ensures lines == Saved(l)
  {
    var heads := SaveBsss(l);
    var pairs := SaveAllNeighbors(l);
    lines := [HEADER] + heads + pairs;
  }

  method SaveNeighbors(b: Bss) returns (lines: seq<string>)
    ensures lines == NeighborLines(b, |b.neigh|)
  {
    lines := [];
    var j := 0;
    while j < |b.neigh|
      invariant j <= |b.neigh| && lines == NeighborLines(b, j)
    {
      lines := lines + [NeighborLine(b.bssid, b.neigh[j])];
      j := j + 1;
    }
  }

  method Load(lines: seq<string>) returns (r: Option<seq<Bss>>)
    ensures r == Loaded(lines)
  {
    if lines == [] || !(HEADER <= lines[0]) {
      return None;
    }
    var l := [];
    ghost var body := lines[1..];
    var i := 1;
    while i < |lines|
      invariant 1 <= i <= |lines| && l == LoadAll([], body[..i - 1])
    {
      assert body[..i] == body[..i - 1] + [lines[i]];
      LoadSnoc([], body[..i - 1], lines[i]);
      l := LoadLine(l, lines[i]);
      i := i + 1;
    }
    assert body[..i - 1] == body;
    return Some(l);
  }
}
