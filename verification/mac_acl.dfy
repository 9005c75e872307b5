/**
 The MAC address list of an access point: the lines of a file add entries or remove all entries
 of an address, and the array is sorted at the end.
 */
module MacAcl {
  import opened Bytes
  import opened Text

  datatype Entry = Entry(addr: Mac, vlan: int, notempty: bool)

  /** What a line asks for. */
  datatype Line = Skip | Bad | Remove(addr: Mac) | Add(entry: Entry)

  // ---- one line ----

  /** The text before the first line end. */
  function Cut(s: string): (r: string)
    ensures r <= s && '\n' !in r && (|r| < |s| ==> s[|r|] == '\n')
  {
    if s == [] || s[0] == '\n' then [] else [s[0]] + Cut(s[1..])
  }

  predicate IsBlank(c: char)
  {
    c == ' ' || c == '\t'
  }

  function SkipWord(s: string): (r: string)
    ensures |r| <= |s|
  {
    if s == [] || IsBlank(s[0]) then s else SkipWord(s[1..])
  }

  function SkipBlanks(s: string): (r: string)
    ensures |r| <= |s|
  {
    if s == [] || !IsBlank(s[0]) then s else SkipBlanks(s[1..])
  }

  /** The VLAN named after the address, or zero. */
  function Vlan(s: string): int
  {
    Atoi(SkipBlanks(SkipWord(s)))
  }

  function Parse(buf: string): Line
  {
    if buf != [] && buf[0] == '#' then Skip
    else
      var t := Cut(buf);
      if t == [] then Skip
      else
        var addr := ReadMac(if t[0] == '-' then t[1..] else t);
        if addr.None? then Bad
        else if t[0] == '-' then Remove(addr.value)
        else Add(Entry(addr.value, Vlan(t), Vlan(t) != 0))
  }

  lemma {:induction false} CutIs(s: string, i: nat)
    requires i <= |s| && (forall j :: 0 <= j < i ==> s[j] != '\n') && (i < |s| ==> s[i] == '\n')
    ensures Cut(s) == s[..i]
  {
    if i > 0 {
      CutIs(s[1..], i - 1);
      assert s[..i] == [s[0]] + s[1..][..i - 1];
    }
  }

  method CutLine(buf: string) returns (t: string)
    ensures t == Cut(buf)
  {
    var i := 0;
    while i < |buf| && buf[i] != '\n'
      invariant i <= |buf| && forall j :: 0 <= j < i ==> buf[j] != '\n'
    {
      i := i + 1;
    }
    CutIs(buf, i);
    t := buf[..i];
  }

  method ReadVlan(t: string) returns (v: int)
    ensures v == Vlan(t)
  {
    v := 0;
    var i := 0;
    while i < |t| && !IsBlank(t[i])
      invariant i <= |t| && SkipWord(t) == SkipWord(t[i..])
    {
      i := i + 1;
    }
    while i < |t| && IsBlank(t[i])
      invariant i <= |t| && SkipBlanks(SkipWord(t)) == SkipBlanks(t[i..])
    {
      i := i + 1;
    }
    if i < |t| {
      v := Atoi(t[i..]);
    }
  }

  method ReadLine(buf: string) returns (line: Line)
    ensures line == Parse(buf)
  {
    if buf != [] && buf[0] == '#' {
      return Skip;
    }
    var t := CutLine(buf);
    if t == [] {
      return Skip;
    }
    var rem, pos := false, t;
    if t[0] == '-' {
      rem, pos := true, t[1..];
    }
    var addr := ReadMac(pos);
    if addr.None? {
      return Bad;
    }
    if rem {
      return Remove(addr.value);
    }
    var vlan := ReadVlan(t);
    return Add(Entry(addr.value, vlan, vlan != 0));
  }

  // ---- lines one after the other ----

  /** The entries of other addresses. */
  ghost function Without(acl: seq<Entry>, a: Mac): seq<Entry>
  {
    if acl == [] then [] else
      Without(acl[..|acl| - 1], a) + if acl[|acl| - 1].addr == a then [] else [acl[|acl| - 1]]
  }

  ghost function Do(acl: seq<Entry>, line: Line): seq<Entry>
  {
    match line
    case Add(e) => acl + [e]
    case Remove(a) => Without(acl, a)
    case _ => acl
  }

  ghost function DoAll(acl: seq<Entry>, lines: seq<Line>): seq<Entry>
  {
    if lines == [] then acl else Do(DoAll(acl, lines[..|lines| - 1]), lines[|lines| - 1])
  }

  /** Some line removes the address. */
  ghost predicate Removes(lines: seq<Line>, a: Mac)
  {
    exists j :: 0 <= j < |lines| && lines[j] == Remove(a)
  }

  /** The entries whose address no line removes. */
  ghost function Kept(acl: seq<Entry>, lines: seq<Line>): seq<Entry>
  {
    if acl == [] then [] else
      Kept(acl[..|acl| - 1], lines) + if Removes(lines, acl[|acl| - 1].addr) then [] else [acl[|acl| - 1]]
  }

  /** The entries that lines add and no later line removes. */
  ghost function Added(lines: seq<Line>): seq<Entry>
  {
    if lines == [] then []
    else Lasting(lines[0], lines[1..]) + Added(lines[1..])
  }

  ghost function Lasting(l: Line, later: seq<Line>): seq<Entry>
  {
    if l.Add? && !Removes(later, l.entry.addr) then [l.entry] else []
  }

  lemma {:induction false} KeptSnoc(acl: seq<Entry>, lines: seq<Line>, l: Line)
    ensures Kept(acl, lines + [l]) == Undo(Kept(acl, lines), l)
  {
    if acl != [] {
      var a := acl[|acl| - 1].addr;
      KeptSnoc(acl[..|acl| - 1], lines, l);
      RemovesSnoc(lines, l, a);
      var k := Kept(acl[..|acl| - 1], lines);
      assert k + [] == k;
      if !Removes(lines, a) && l.Remove? {
        WithoutConcat(k, [acl[|acl| - 1]], l.addr);
        WithoutOne(acl[|acl| - 1], l.addr);
      }
    }
  }

  lemma RemovesSnoc(lines: seq<Line>, l: Line, a: Mac)
    ensures Removes(lines + [l], a) <==> Removes(lines, a) || l == Remove(a)
  {
    if l == Remove(a) {
      assert (lines + [l])[|lines|] == l;
    }
    if j :| 0 <= j < |lines| && lines[j] == Remove(a) {
      assert (lines + [l])[j] == lines[j];
    }
  }

  lemma {:induction false} WithoutConcat(x: seq<Entry>, y: seq<Entry>, a: Mac)
    ensures Without(x + y, a) == Without(x, a) + Without(y, a)
  {
    if y == [] {
      assert x + y == x;
    } else {
      WithoutConcat(x, y[..|y| - 1], a);
      assert (x + y)[..|x + y| - 1] == x + y[..|y| - 1];
    }
  }

  lemma WithoutOne(e: Entry, a: Mac)
    ensures Without([e], a) == if e.addr == a then [] else [e]
  {
    assert [e][..0] == [];
  }

  /** Taking out a matching entry changes nothing; a first entry that does not match stays. */
  lemma WithoutAt(s: seq<Entry>, i: nat, a: Mac)
    requires i < |s|
    ensures s[i].addr == a ==> Without(s[..i] + s[i + 1..], a) == Without(s, a)
    ensures s[i].addr != a ==> Without(s[..i + 1], a) == Without(s[..i], a) + [s[i]]
  {
    assert s[..i + 1] == s[..i] + [s[i]] && s == s[..i + 1] + s[i + 1..];
    WithoutOne(s[i], a);
    WithoutConcat(s[..i], [s[i]], a);
    WithoutConcat(s[..i + 1], s[i + 1..], a);
    WithoutConcat(s[..i], s[i + 1..], a);
  }

  ghost function Undo(acl: seq<Entry>, l: Line): seq<Entry>
  {
    if l.Remove? then Without(acl, l.addr) else acl
  }

  lemma LastingSnoc(first: Line, later: seq<Line>, l: Line)
    ensures Lasting(first, later + [l]) == Undo(Lasting(first, later), l)
  {
    if first.Add? {
      RemovesSnoc(later, l, first.entry.addr);
      if l.Remove? {
        WithoutOne(first.entry, l.addr);
      }
    }
  }

  lemma {:induction false} AddedSnoc(lines: seq<Line>, l: Line)
    ensures Added(lines + [l]) == Undo(Added(lines), l) + if l.Add? then [l.entry] else []
  {
    if lines == [] {
      assert [l][1..] == [];
    } else {
      var first, rest := lines[0], lines[1..];
      AddedSnoc(rest, l);
      LastingSnoc(first, rest, l);
      assert (lines + [l])[1..] == rest + [l];
      if l.Remove? {
        WithoutConcat(Lasting(first, rest), Added(rest), l.addr);
      }
    }
  }

  /** What the lines leave: the first entries and the added ones, each unless a later line
      removes its address. */
  lemma {:induction false} LinesLeave(acl: seq<Entry>, lines: seq<Line>)
    ensures DoAll(acl, lines) == Kept(acl, lines) + Added(lines)
  {
    if lines == [] {
      KeptAll(acl);
    } else {
      var before, l := lines[..|lines| - 1], lines[|lines| - 1];
      assert before + [l] == lines;
      LinesLeave(acl, before);
      KeptSnoc(acl, before, l);
      AddedSnoc(before, l);
      if l.Remove? {
        WithoutConcat(Kept(acl, before), Added(before), l.addr);
      }
    }
  }

  lemma {:induction false} KeptAll(acl: seq<Entry>)
    ensures Kept(acl, []) == acl
  {
    if acl != [] {
      KeptAll(acl[..|acl| - 1]);
    }
  }

  // ---- the order of addresses ----

  /** Byte by byte, as memory is compared. */
  predicate Leq(a: seq<byte>, b: seq<byte>)
    requires |a| == |b|
  {
    a == [] || a[0] < b[0] || (a[0] == b[0] && Leq(a[1..], b[1..]))
  }

  lemma {:induction false} LeqTotal(a: seq<byte>, b: seq<byte>)
    requires |a| == |b|
    ensures Leq(a, b) || Leq(b, a)
  {
    if a != [] {
      LeqTotal(a[1..], b[1..]);
    }
  }

  lemma {:induction false} LeqTransitive(a: seq<byte>, b: seq<byte>, c: seq<byte>)
    requires |a| == |b| == |c| && Leq(a, b) && Leq(b, c)
    ensures Leq(a, c)
  {
    if a != [] && a[0] == b[0] == c[0] {
      LeqTransitive(a[1..], b[1..], c[1..]);
    }
  }

  ghost predicate Sorted(s: seq<Entry>)
  {
    forall i, j :: 0 <= i < j < |s| ==> Leq(s[i].addr, s[j].addr)
  }

  lemma Inserted(s: seq<Entry>, j: nat, x: Entry)
    requires j <= |s|
    ensures multiset(s[..j] + [x] + s[j..]) == multiset(s) + multiset{x}
  {
    assert s == s[..j] + s[j..];
  }

  lemma InsertSorted(s: seq<Entry>, j: nat, x: Entry)
    requires Sorted(s) && j <= |s| && (j > 0 ==> Leq(s[j - 1].addr, x.addr))
    requires forall t :: j <= t < |s| ==> !Leq(s[t].addr, x.addr)
    ensures Sorted(s[..j] + [x] + s[j..])
  {
    var r := s[..j] + [x] + s[j..];
    forall t | 0 <= t < j
      ensures Leq(s[t].addr, x.addr)
    {
      if t < j - 1 {
        LeqTransitive(s[t].addr, s[j - 1].addr, x.addr);
      }
    }
    forall t | j <= t < |s|
      ensures Leq(x.addr, s[t].addr)
    {
      LeqTotal(x.addr, s[t].addr);
    }
    assert forall t :: 0 <= t < |r| ==> r[t] == if t < j then s[t] else if t == j then x else s[t - 1];
  }

  /** An entry moved down to its place in the sorted part before it. */
  lemma Rotated(was: seq<Entry>, now: seq<Entry>, i: nat, j: nat)
    requires j <= i < |was| == |now| && Sorted(was[..i]) && (j > 0 ==> Leq(was[j - 1].addr, was[i].addr))
    requires forall t :: j <= t < i ==> !Leq(was[t].addr, was[i].addr)
    requires forall t :: 0 <= t < |was| ==> now[t] == was[if t == j then i else if j < t <= i then t - 1 else t]
    ensures Sorted(now[..i + 1]) && multiset(now[..i + 1]) == multiset(was[..i + 1]) && now[i + 1..] == was[i + 1..]
  {
    var s, x := was[..i], was[i];
    RotatedParts(was, now, i, j);
    InsertSorted(s, j, x);
    Inserted(s, j, x);
  }

  lemma RotatedParts(was: seq<Entry>, now: seq<Entry>, i: nat, j: nat)
    requires j <= i < |was| == |now|
    requires forall t :: 0 <= t < |was| ==> now[t] == was[if t == j then i else if j < t <= i then t - 1 else t]
    ensures var s := was[..i]; now[..i + 1] == s[..j] + [was[i]] + s[j..] && was[..i + 1] == s + [was[i]]
    ensures now[i + 1..] == was[i + 1..]
  {
  }

  // ---- the array ----

  class MacList {
    var acl: array<Entry>
    var num: nat

    ghost predicate Valid()
      reads this
    {
      num <= acl.Length
    }

    ghost function Contents(): seq<Entry>
      requires Valid()
      reads this, acl
    {
      acl[..num]
    }

    /** One entry out, and the ones behind it moved up. */
    method RemoveAt(i: nat)
      requires Valid() && i < num
      modifies `num, acl
      ensures Valid() && acl == old(acl) && num == old(num) - 1
      ensures Contents() == old(Contents())[..i] + old(Contents())[i + 1..]
    {
      ghost var was := acl[..num];
      var j := i;
      while j < num - 1
        invariant i <= j <= num - 1 && num == old(num)
        invariant forall t :: 0 <= t < num ==> acl[t] == was[if i <= t < j then t + 1 else t]
      {
        acl[j] := acl[j + 1];
        j := j + 1;
      }
      num := num - 1;
    }

    /** All entries of an address out, and the others kept in order. */
    method RemoveAll(a: Mac)
      requires Valid()
      modifies `num, acl
      ensures Valid() && acl == old(acl) && Contents() == Without(old(Contents()), a)
    {
      var i := 0;
      while i < num
        invariant Valid() && acl == old(acl) && i <= num
        invariant Contents()[..i] == Without(Contents()[..i], a)
        invariant Without(Contents(), a) == Without(old(Contents()), a)
        decreases num - i
      {
        ghost var s := Contents();
        WithoutAt(s, i, a);
        if acl[i].addr == a {
          RemoveAt(i);
          assert Contents()[..i] == s[..i];
        } else {
          i := i + 1;
        }
      }
      assert Contents()[..i] == Contents();
    }

    method Append(e: Entry)
      requires Valid()
      modifies this
      ensures Valid() && fresh(acl) && Contents() == old(Contents()) + [e]
    {
      var grown := new Entry[num + 1](k => e);
      var k := 0;
      while k < num
        invariant k <= num && grown[num] == e && forall t :: 0 <= t < k ==> grown[t] == acl[t]
        modifies grown
      {
        grown[k] := acl[k];
        k := k + 1;
      }
      acl, num := grown, num + 1;
    }

    /** The entry behind a sorted part put into its place. */
    method Shift(i: nat, x: Entry) returns (j: nat)
      requires Valid() && i < num
      modifies acl
      ensures j <= i && (j > 0 ==> Leq(old(acl[j - 1]).addr, x.addr))
      ensures forall t :: j <= t < i ==> !Leq(old(acl[t]).addr, x.addr)
      ensures forall t :: 0 <= t < num ==> acl[t] == if j < t <= i then old(acl[t - 1]) else old(acl[t])
    {
      j := i;
      while j > 0 && !Leq(acl[j - 1].addr, x.addr)
        invariant j <= i
        invariant forall t :: j <= t < i ==> !Leq(old(acl[t]).addr, x.addr)
        invariant forall t :: 0 <= t < num ==> acl[t] == if j < t <= i then old(acl[t - 1]) else old(acl[t])
      {
        acl[j] := acl[j - 1];
        j := j - 1;
      }
    }

    method Insert(i: nat)
      requires Valid() && i < num && Sorted(Contents()[..i])
      modifies acl
      ensures Sorted(Contents()[..i + 1]) && multiset(Contents()[..i + 1]) == multiset(old(Contents())[..i + 1])
      ensures Contents()[i + 1..] == old(Contents())[i + 1..]
    {
      ghost var was := Contents();
      var x := acl[i];
      var j := Shift(i, x);
      acl[j] := x;
      Rotated(was, Contents(), i, j);
    }

    method Sort()
      requires Valid()
      modifies acl
      ensures Sorted(Contents()) && multiset(Contents()) == multiset(old(Contents()))
    {
      var i := 0;
      while i < num
        invariant i <= num && Sorted(Contents()[..i]) && multiset(Contents()) == multiset(old(Contents()))
      {
        ghost var was := Contents();
        Insert(i);
        assert was == was[..i + 1] + was[i + 1..] && Contents() == Contents()[..i + 1] + Contents()[i + 1..];
        i := i + 1;
      }
      assert Contents()[..i] == Contents();
    }

    /** One line carried out. */
    method Consume(line: Line)
      requires Valid()
      modifies this, acl
      ensures Valid() && (acl == old(acl) || fresh(acl)) && Contents() == Do(old(Contents()), line)
    {
      match line {
        case Add(e) => Append(e);
        case Remove(a) => RemoveAll(a);
        case _ =>
      }
    }

    /** Carry out lines up to the first that is not valid. */
    method ConsumeLines(bufs: seq<string>) returns (done: nat)
      requires Valid()
      modifies this, acl
      ensures Valid() && (acl == old(acl) || fresh(acl)) && done <= |bufs|
      ensures (forall j :: 0 <= j < done ==> !Parse(bufs[j]).Bad?) && (done < |bufs| ==> Parse(bufs[done]).Bad?)
      ensures Contents() == DoAll(old(Contents()), Lines(bufs[..done]))
    {
      done := 0;
      while done < |bufs|
        invariant done <= |bufs| && Valid() && (acl == old(acl) || fresh(acl))
        invariant forall j :: 0 <= j < done ==> !Parse(bufs[j]).Bad?
        invariant Contents() == DoAll(old(Contents()), Lines(bufs[..done]))
      {
        var line := ReadLine(bufs[done]);
        if line.Bad? {
          return;
        }
        Consume(line);
        LinesSnoc(bufs, done);
        done := done + 1;
      }
    }

    /** The lines read up to the first that is not valid; the list is sorted if all are. */
    method ReadMacList(bufs: seq<string>) returns (r: int, ghost done: nat)
      requires Valid()
      modifies this, acl
      ensures Valid() && done <= |bufs| && (forall j :: 0 <= j < done ==> !Parse(bufs[j]).Bad?)
      ensures r == (if done == |bufs| then 0 else -1) && (done < |bufs| ==> Parse(bufs[done]).Bad?)
      ensures r == 0 ==> Sorted(Contents())
      ensures r == 0 ==>
        multiset(Contents()) == multiset(Kept(old(Contents()), Lines(bufs))) + multiset(Added(Lines(bufs)))
      ensures r != 0 ==> Contents() == Kept(old(Contents()), Lines(bufs[..done])) + Added(Lines(bufs[..done]))
    {
      var n := ConsumeLines(bufs);
      done := n;
      LinesLeave(old(Contents()), Lines(bufs[..n]));
      if n < |bufs| {
        return -1, n;
      }
      assert bufs[..n] == bufs;
      Sort();
      r := 0;
    }
  }

  ghost function Lines(bufs: seq<string>): seq<Line>
  {
    seq(|bufs|, i requires 0 <= i < |bufs| => Parse(bufs[i]))
  }

  lemma LinesSnoc(bufs: seq<string>, i: nat)
    requires i < |bufs|
    ensures Lines(bufs[..i + 1]) == Lines(bufs[..i]) + [Parse(bufs[i])]
    ensures Lines(bufs[..i + 1])[..i] == Lines(bufs[..i])
  {
  }
}
