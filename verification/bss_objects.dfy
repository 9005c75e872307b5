/**
 The objects of the BSS table, and the list by id that is threaded through them. The head of the
 list is two pointers of the table; a null link stands for it.
 */
module BssObjects {

  import opened BssModel

  class Bss {
    const addr: Addr
    const id: nat
    const ssid: Ssid
    var contents: Entry
    var idPrev: Bss?
    var idNext: Bss?

    constructor (e: Entry)
      ensures Value() == e && idPrev == null && idNext == null
    {
      addr, id, ssid, contents := e.addr, e.id, e.ssid, e;
      idPrev, idNext := null, null;
    }

    method Set(e: Entry)
      requires e.addr == addr && e.id == id && e.ssid == ssid
      modifies `contents
      ensures Value() == e
    {
      contents := e;
    }

    /** The entry; the links are not part of it. */
    function Value(): Entry
      reads `contents
    {
      contents.(addr := addr, id := id, ssid := ssid)
    }
  }

  // ---- the list by id ----

  function Nth(s: seq<Bss>, i: int): Bss?
  {
    if 0 <= i < |s| then s[i] else null
  }

  ghost predicate Distinct(s: seq<Bss>)
  {
    forall i, j :: 0 <= i < j < |s| ==> s[i] != s[j]
  }

  ghost predicate Within(s: seq<Bss>, all: set<Bss>)
  {
    forall i :: 0 <= i < |s| ==> s[i] in all
  }

  /** A stretch of the list between two other objects, each linked to its neighbours. */
  ghost predicate Segment(s: seq<Bss>, prev: Bss?, next: Bss?, all: set<Bss>)
    requires Within(s, all)
    reads all`idPrev, all`idNext
  {
    s != [] ==>
      && s[0].idPrev == prev && s[0].idNext == (if |s| == 1 then next else s[1])
      && Segment(s[1..], s[0], next, all)
  }

  /** The whole list, from the head back to the head; `all` are the objects it may go through. */
  ghost predicate Threaded(s: seq<Bss>, first: Bss?, last: Bss?, all: set<Bss>)
    reads all`idPrev, all`idNext
  {
    // named first: the verifier then keeps the conjunction in one piece
    var linked := first == Nth(s, 0) && last == Nth(s, |s| - 1) && Within(s, all) && Segment(s, null, null, all);
    linked
  }

  ghost predicate Backward(s: seq<Bss>, prev: Bss?)
    reads s`idPrev
  {
    forall i {:trigger s[i].idPrev} :: 0 <= i < |s| ==> s[i].idPrev == if i == 0 then prev else s[i - 1]
  }

  ghost predicate Forward(s: seq<Bss>, next: Bss?)
    reads s`idNext
  {
    forall i {:trigger s[i].idNext} :: 0 <= i < |s| ==> s[i].idNext == if i == |s| - 1 then next else s[i + 1]
  }

  /** The links of a stretch, place by place. */
  ghost predicate Linked(s: seq<Bss>, prev: Bss?, next: Bss?)
    reads s`idPrev, s`idNext
  {
    Backward(s, prev) && Forward(s, next)
  }

  lemma {:induction false} SegmentLinks(s: seq<Bss>, prev: Bss?, next: Bss?, all: set<Bss>)
    requires Within(s, all)
    ensures Segment(s, prev, next, all) <==> Linked(s, prev, next)
  {
    if s != [] {
      var t := s[1..];
      SegmentLinks(t, s[0], next, all);
      if Linked(s, prev, next) {
        assert s[0].idPrev == prev && s[0].idNext == if |s| == 1 then next else s[1];
        forall i | 0 <= i < |t|
          ensures t[i].idPrev == if i == 0 then s[0] else t[i - 1]
          ensures t[i].idNext == if i == |t| - 1 then next else t[i + 1]
        {
          assert t[i] == s[i + 1];
          assert s[i + 1].idPrev == s[i];
          assert s[i + 1].idNext == if i + 1 == |s| - 1 then next else s[i + 2];
        }
      }
      if Segment(s, prev, next, all) {
        forall i | 0 <= i < |s|
          ensures s[i].idPrev == if i == 0 then prev else s[i - 1]
          ensures s[i].idNext == if i == |s| - 1 then next else s[i + 1]
        {
          if i > 0 {
            assert t[i - 1] == s[i];
            assert t[i - 1].idPrev == if i - 1 == 0 then s[0] else t[i - 2];
            assert t[i - 1].idNext == if i - 1 == |t| - 1 then next else t[i];
          }
        }
      }
    }
  }

  /** Take an object off the list: its neighbours are linked to each other. */
  method DelId(first: Bss?, last: Bss?, b: Bss, ghost s: seq<Bss>, ghost p: nat, ghost all: set<Bss>)
    returns (f: Bss?, l: Bss?)
    requires Distinct(s) && Threaded(s, first, last, all) && p < |s| && s[p] == b
    modifies all`idPrev, all`idNext
    ensures Threaded(Without(s, p), f, l, all) && b.idPrev == null && b.idNext == null
    ensures old(b.idPrev) == Nth(s, p - 1)
  {
    SegmentLinks(s, null, null, all);
    f, l := first, last;
    var prev, next := b.idPrev, b.idNext;
    if prev == null {
      f := next;
    } else {
      prev.idNext := next;
    }
    if next == null {
      l := prev;
    } else {
      next.idPrev := prev;
    }
    b.idPrev, b.idNext := null, null;
    assert Linked(Without(s, p), null, null);
    SegmentLinks(Without(s, p), null, null, all);
  }

  /** The list with an object at a position. */
  function Inserted(s: seq<Bss>, p: nat, x: Bss): (r: seq<Bss>)
    requires p <= |s|
    ensures |r| == |s| + 1
    ensures forall i :: 0 <= i < |r| ==> r[i] == if i < p then s[i] else if i == p then x else s[i - 1]
  {
    s[..p] + [x] + s[p..]
  }

  /** Put an object behind another, or in front of all. */
  method AddId(first: Bss?, last: Bss?, prev: Bss?, x: Bss, ghost s: seq<Bss>, ghost p: nat, ghost all: set<Bss>)
    returns (f: Bss?, l: Bss?)
    requires Distinct(s) && Threaded(s, first, last, all) && p <= |s| && prev == Nth(s, p - 1) && x !in s
    modifies x`idPrev, x`idNext, all`idPrev, all`idNext
    ensures Threaded(Inserted(s, p, x), f, l, all + {x})
  {
    SegmentLinks(s, null, null, all);
    f, l := first, last;
    var next := if prev == null then first else prev.idNext;
    x.idPrev, x.idNext := prev, next;
    if next == null {
      l := x;
    } else {
      next.idPrev := x;
    }
    if prev == null {
      f := x;
    } else {
      prev.idNext := x;
    }
    ghost var r := Inserted(s, p, x);
    assert Backward(r, null);
    assert Forward(r, null);
    SegmentLinks(r, null, null, all + {x});
  }

  /** An object taken off and another put in its place. */
  lemma PutBack(s: seq<Bss>, p: nat, x: Bss)
    requires p < |s|
    ensures Inserted(Without(s, p), p, x) == s[p := x]
  {
  }
}
