/**
 The text of a MAC address list: what each kind of line means, and what is left of a list after a
 whole file of such lines.
 */
module MacLines {
  import opened Bytes
  import opened Text
  import opened MacAcl
  import opened Wrappers

  /** A line as someone writes it: a remark, nothing, an address, an address with a VLAN behind blanks,
      or an address to take out. */
  datatype Written =
    | Remark(text: string)
    | Nothing
    | Address(addr: Mac)
    | Tagged(addr: Mac, blanks: string, vlan: int)
    | Out(addr: Mac)

  /** One blank or more. */
  predicate Blanks(s: string)
  {
    s != [] && forall i :: 0 <= i < |s| ==> s[i] == ' ' || s[i] == '\t'
  }

  ghost predicate WellWritten(w: Written)
  {
    w.Tagged? ==> Blanks(w.blanks)
  }

  /** The end of a line as it is read: nothing at the end of the file, else a line end. */
  ghost predicate Ending(end: string)
  {
    end == [] || end[0] == '\n'
  }

  function Print(w: Written): string
  {
    match w
    case Remark(text) => "#" + text
    case Nothing => []
    case Address(a) => MacText(a)
    case Tagged(a, blanks, v) => MacText(a) + blanks + Decimal(v)
    case Out(a) => "-" + MacText(a)
  }

  /** The entry that the line puts in, if it puts one in. */
  ghost predicate PutsIn(w: Written, e: Entry)
  {
    || (w.Address? && e == Entry(w.addr, 0, false))
    || (w.Tagged? && e == Entry(w.addr, w.vlan, w.vlan != 0))
  }

  ghost function Meaning(w: Written): Line
  {
    match w
    case Remark(_) => Skip
    case Nothing => Skip
    case Address(a) => Add(Entry(a, 0, false))
    case Tagged(a, _, v) => Add(Entry(a, v, v != 0))
    case Out(a) => Remove(a)
  }

  // ---- characters ----

  /** A hexadecimal digit or a colon. */
  predicate MacChar(c: char)
  {
    '0' <= c <= '9' || 'a' <= c <= 'f' || c == ':'
  }

  lemma {:induction false} MacChars(m: seq<byte>)
    ensures forall i :: 0 <= i < |ColonText(m)| ==> MacChar(ColonText(m)[i])
  {
    if |m| > 1 {
      MacChars(m[1..]);
    }
  }

  lemma DecimalChars(v: int)
    ensures forall i :: 0 <= i < |Decimal(v)| ==> IsDigit(Decimal(v)[i]) || (i == 0 && Decimal(v)[i] == '-')
  {
  }

  lemma CutEnds(t: string, end: string)
    requires '\n' !in t && Ending(end)
    ensures Cut(t + end) == t
  {
    CutIs(t + end, |t|);
    assert (t + end)[..|t|] == t;
  }

  lemma {:induction false} SkipWordIs(word: string, rest: string)
    requires (forall i :: 0 <= i < |word| ==> !IsBlank(word[i])) && (rest == [] || IsBlank(rest[0]))
    ensures SkipWord(word + rest) == rest
  {
    if word == [] {
      assert word + rest == rest;
    } else {
      SkipWordIs(word[1..], rest);
      assert (word + rest)[1..] == word[1..] + rest;
    }
  }

  lemma {:induction false} SkipBlanksIs(blanks: string, rest: string)
    requires (forall i :: 0 <= i < |blanks| ==> IsBlank(blanks[i])) && rest != [] && !IsBlank(rest[0])
    ensures SkipBlanks(blanks + rest) == rest
  {
    if blanks == [] {
      assert blanks + rest == rest;
    } else {
      SkipBlanksIs(blanks[1..], rest);
      assert (blanks + rest)[1..] == blanks[1..] + rest;
    }
  }

  // ---- one line ----

  /** A text without line end that is neither a remark nor a removal is read as an address and a VLAN. */
  lemma ParseAddress(t: string, end: string, a: Mac)
    requires t != [] && '\n' !in t && t[0] != '#' && t[0] != '-' && Ending(end) && ReadMac(t) == Some(a)
    ensures Parse(t + end) == Add(Entry(a, Vlan(t), Vlan(t) != 0))
  {
    CutEnds(t, end);
    assert (t + end)[0] == t[0];
  }

  lemma AddressReads(a: Mac, end: string)
    requires Ending(end)
    ensures Parse(MacText(a) + end) == Add(Entry(a, 0, false))
  {
    var t := MacText(a);
    MacChars(a);
    ReadMacText(a, []);
    assert t + [] == t;
    SkipWordIs(t, []);
    ParseAddress(t, end, a);
  }

  lemma TaggedReads(a: Mac, blanks: string, v: int, end: string)
    requires Blanks(blanks) && Ending(end)
    ensures Parse(MacText(a) + blanks + Decimal(v) + end) == Add(Entry(a, v, v != 0))
  {
    var mac, rest := MacText(a), blanks + Decimal(v);
    var t := mac + blanks + Decimal(v);
    assert t == mac + rest;
    MacChars(a);
    DecimalChars(v);
    ReadMacText(a, rest);
    SkipWordIs(mac, rest);
    SkipBlanksIs(blanks, Decimal(v));
    AtoiDecimal(v, []);
    assert Decimal(v) + [] == Decimal(v);
    NoLineEnd(mac, blanks, Decimal(v));
    assert t[0] == mac[0];
    ParseAddress(t, end, a);
  }

  lemma NoLineEnd(x: string, y: string, z: string)
    requires '\n' !in x && '\n' !in y && '\n' !in z
    ensures '\n' !in x + y + z
  {
  }

  lemma OutReads(a: Mac, end: string)
    requires Ending(end)
    ensures Parse("-" + MacText(a) + end) == Remove(a)
  {
    var t := "-" + MacText(a);
    MacChars(a);
    CutEnds(t, end);
    ReadMacText(a, []);
    assert t[1..] == MacText(a) == MacText(a) + [];
    assert (t + end)[0] == t[0] == '-';
  }

  /** Every written line is read as it is meant, at the end of the file or before a line end. */
  lemma LineReads(w: Written, end: string)
    requires WellWritten(w) && Ending(end)
    ensures Parse(Print(w) + end) == Meaning(w)
  {
    match w
    case Remark(text) =>
      assert (Print(w) + end)[0] == '#';
    case Nothing =>
      CutEnds([], end);
      assert [] + end == end;
    case Address(a) => AddressReads(a, end);
    case Tagged(a, blanks, v) => TaggedReads(a, blanks, v, end);
    case Out(a) => OutReads(a, end);
  }

  /** Any other line that is not empty is refused if no address stands at its start, behind a '-' if
      there is one. */
  lemma BadLines(t: string, end: string)
    requires t != [] && '\n' !in t && t[0] != '#' && Ending(end)
    ensures Parse(t + end).Bad? <==> !PairsAt(if t[0] == '-' then t[1..] else t, 6)
  {
    CutEnds(t, end);
    assert (t + end)[0] == t[0];
    ReadColonsIs(if t[0] == '-' then t[1..] else t, 6);
  }

  // ---- a file ----

  /** The lines of a file are these, each with a line end or the end of the file behind it. */
  ghost predicate File(bufs: seq<string>, ws: seq<Written>)
  {
    |bufs| == |ws| && forall i :: 0 <= i < |ws| ==> WellWritten(ws[i]) && LineOf(bufs[i], ws[i])
  }

  ghost predicate LineOf(buf: string, w: Written)
  {
    Print(w) <= buf && Ending(buf[|Print(w)|..])
  }

  lemma LineMeans(buf: string, w: Written)
    requires WellWritten(w) && LineOf(buf, w)
    ensures Parse(buf) == Meaning(w)
  {
    var end := buf[|Print(w)|..];
    assert buf == Print(w) + end;
    LineReads(w, end);
  }

  /** A line from this place on takes the address out. */
  ghost predicate OutFrom(ws: seq<Written>, j: int, a: Mac)
  {
    exists i :: j <= i < |ws| && 0 <= i && ws[i] == Out(a)
  }

  /** What is in a list after a file: what was there before and no line takes out, and what a line puts
      in and no later one takes out. */
  ghost predicate LeftBy(was: seq<Entry>, ws: seq<Written>, e: Entry)
  {
    || (e in was && !OutFrom(ws, 0, e.addr))
    || exists j :: 0 <= j < |ws| && PutsIn(ws[j], e) && !OutFrom(ws, j, e.addr)
  }

  lemma {:induction false} KeptAre(acl: seq<Entry>, lines: seq<Line>, e: Entry)
    ensures e in Kept(acl, lines) <==> e in acl && !Removes(lines, e.addr)
  {
    if acl != [] {
      KeptAre(acl[..|acl| - 1], lines, e);
      assert acl == acl[..|acl| - 1] + [acl[|acl| - 1]];
    }
  }

  lemma {:induction false} AddedAre(lines: seq<Line>, e: Entry)
    ensures e in Added(lines) <==>
            exists j :: 0 <= j < |lines| && lines[j] == Add(e) && !Removes(lines[j + 1..], e.addr)
  {
    if lines != [] {
      var rest := lines[1..];
      AddedAre(rest, e);
      assert forall j :: 0 <= j < |rest| ==> rest[j] == lines[j + 1] && rest[j + 1..] == lines[j + 2..];
      if e in Added(rest) {
        var j :| 0 <= j < |rest| && rest[j] == Add(e) && !Removes(rest[j + 1..], e.addr);
        assert lines[j + 1] == Add(e) && !Removes(lines[j + 2..], e.addr);
      }
      if j :| 0 <= j < |lines| && lines[j] == Add(e) && !Removes(lines[j + 1..], e.addr) {
        if j > 0 {
          assert rest[j - 1] == Add(e) && rest[j..] == lines[j + 1..];
        }
      }
    }
  }

  lemma OutIs(bufs: seq<string>, ws: seq<Written>, j: nat, a: Mac)
    requires File(bufs, ws) && j <= |ws|
    ensures Removes(Lines(bufs)[j..], a) <==> OutFrom(ws, j, a)
  {
    forall i | 0 <= i < |ws|
      ensures Lines(bufs)[i] == Meaning(ws[i])
    {
      LineMeans(bufs[i], ws[i]);
    }
    if i :| j <= i < |ws| && ws[i] == Out(a) {
      assert Lines(bufs)[j..][i - j] == Remove(a);
    }
  }

  lemma FileLeaves(was: seq<Entry>, bufs: seq<string>, ws: seq<Written>, e: Entry)
    requires File(bufs, ws)
    ensures e in Kept(was, Lines(bufs)) + Added(Lines(bufs)) <==> LeftBy(was, ws, e)
  {
    var lines := Lines(bufs);
    KeptAre(was, lines, e);
    AddedAre(lines, e);
    OutIs(bufs, ws, 0, e.addr);
    assert lines[0..] == lines;
    forall j | 0 <= j < |ws|
      ensures lines[j] == Add(e) && !Removes(lines[j + 1..], e.addr) <==> PutsIn(ws[j], e) && !OutFrom(ws, j, e.addr)
    {
      LineMeans(bufs[j], ws[j]);
      OutIs(bufs, ws, j + 1, e.addr);
      if PutsIn(ws[j], e) {
        assert OutFrom(ws, j, e.addr) <==> OutFrom(ws, j + 1, e.addr);
      }
    }
  }

  /** A file of such lines is read to its end. The list is then in order of address and holds exactly
      what the lines leave. */
  method ReadFile(list: MacList, bufs: seq<string>, ghost ws: seq<Written>) returns (r: int)
    requires list.Valid() && File(bufs, ws)
    modifies list, list.acl
    ensures list.Valid() && r == 0 && Sorted(list.Contents())
    ensures forall e :: e in list.Contents() <==> LeftBy(old(list.Contents()), ws, e)
  {
    ghost var was := list.Contents();
    forall i | 0 <= i < |ws|
      ensures Parse(bufs[i]) == Meaning(ws[i])
    {
      LineMeans(bufs[i], ws[i]);
    }
    ghost var done;
    r, done := list.ReadMacList(bufs);
    ghost var left := Kept(was, Lines(bufs)) + Added(Lines(bufs));
    assert multiset(list.Contents()) == multiset(left);
    forall e
      ensures e in list.Contents() <==> LeftBy(was, ws, e)
    {
      FileLeaves(was, bufs, ws, e);
      assert e in list.Contents() <==> e in multiset(list.Contents());
    }
  }

  // ---- the order ----

  /** Addresses are in order by their first octet that differs. */
  lemma {:induction false} LeqIs(a: seq<byte>, b: seq<byte>)
    requires |a| == |b|
    ensures Leq(a, b) <==> a == b || exists k :: 0 <= k < |a| && a[k] < b[k] && a[..k] == b[..k]
  {
    if a != [] {
      LeqIs(a[1..], b[1..]);
      if a[0] < b[0] {
        assert a[..0] == b[..0];
      } else if a[0] == b[0] {
        if k :| 0 <= k < |a[1..]| && a[1..][k] < b[1..][k] && a[1..][..k] == b[1..][..k] {
          assert a[..k + 1] == [a[0]] + a[1..][..k] && b[..k + 1] == [b[0]] + b[1..][..k];
          assert a[k + 1] < b[k + 1];
        }
        if k :| 0 <= k < |a| && a[k] < b[k] && a[..k] == b[..k] {
          assert a[1..][..k - 1] == a[..k][1..] && b[1..][..k - 1] == b[..k][1..];
          assert a[1..][k - 1] < b[1..][k - 1];
        }
        assert a == [a[0]] + a[1..] && b == [b[0]] + b[1..];
      }
    }
  }
}
