/**
 A cursor that goes round a list and stops at marked positions: after each stop it stands just
 behind the position it stopped at.
 */
module Rotation {

  /** The marked positions between two bounds, in order. */
  function Marked(marks: seq<bool>, lo: nat, hi: nat): (r: seq<nat>)
    requires lo <= hi <= |marks|
    ensures forall i :: 0 <= i < |r| ==> lo <= r[i] < hi && marks[r[i]]
    ensures forall i, j :: 0 <= i < j < |r| ==> r[i] < r[j]
    decreases hi - lo
  {
    if lo == hi then [] else Marked(marks, lo, hi - 1) + if marks[hi - 1] then [hi - 1] else []
  }

  lemma {:induction false} MarkedAll(marks: seq<bool>, lo: nat, hi: nat, k: nat)
    requires lo <= k < hi <= |marks| && marks[k]
    ensures k in Marked(marks, lo, hi)
    decreases hi - lo
  {
    if k < hi - 1 {
      MarkedAll(marks, lo, hi - 1, k);
    }
  }

  lemma {:induction false} MarkedSplit(marks: seq<bool>, lo: nat, mid: nat, hi: nat)
    requires lo <= mid <= hi <= |marks|
    ensures Marked(marks, lo, hi) == Marked(marks, lo, mid) + Marked(marks, mid, hi)
    decreases hi - mid
  {
    if mid < hi {
      MarkedSplit(marks, lo, mid, hi - 1);
    }
  }

  lemma {:induction false} MarkedNone(marks: seq<bool>, lo: nat, hi: nat)
    requires lo <= hi <= |marks| && forall i :: lo <= i < hi ==> !marks[i]
    ensures Marked(marks, lo, hi) == []
    decreases hi - lo
  {
    if lo < hi {
      MarkedNone(marks, lo, hi - 1);
    }
  }

  function Count(marks: seq<bool>): nat
  {
    |Marked(marks, 0, |marks|)|
  }

  /** The first marked position from a place on; the length if there is none. */
  function First(marks: seq<bool>, from: nat): (k: nat)
    requires from <= |marks|
    ensures from <= k <= |marks| && (k < |marks| ==> marks[k])
    ensures forall i :: from <= i < k ==> !marks[i]
    decreases |marks| - from
  {
    if from == |marks| then from else if marks[from] then from else First(marks, from + 1)
  }

  /** Where the cursor stops next: the first mark ahead, else the first mark of all. */
  function Next(marks: seq<bool>, pos: nat): (k: nat)
    requires pos <= |marks|
    ensures k <= |marks| && (k < |marks| ==> marks[k])
  {
    if First(marks, pos) < |marks| then First(marks, pos) else First(marks, 0)
  }

  /** Some position is marked exactly when the cursor finds one, wherever it stands. */
  lemma NextFinds(marks: seq<bool>, pos: nat)
    requires pos <= |marks|
    ensures Next(marks, pos) < |marks| <==> exists i :: 0 <= i < |marks| && marks[i]
    ensures Next(marks, pos) < |marks| <==> Count(marks) > 0
  {
    if Next(marks, pos) < |marks| {
      MarkedAll(marks, 0, |marks|, Next(marks, pos));
    } else {
      MarkedNone(marks, 0, |marks|);
    }
  }

  /** The next so many stops. */
  function Stops(marks: seq<bool>, pos: nat, n: nat): (r: seq<nat>)
    requires pos <= |marks| && (n > 0 ==> Count(marks) > 0)
    ensures |r| == n && forall i :: 0 <= i < n ==> r[i] < |marks| && marks[r[i]]
    decreases n
  {
    if n == 0 then []
    else
      NextFinds(marks, pos);
      var k := Next(marks, pos);
      [k] + Stops(marks, k + 1, n - 1)
  }

  /** Where the cursor stands after so many stops. */
  function After(marks: seq<bool>, pos: nat, n: nat): (p: nat)
    requires pos <= |marks| && (n > 0 ==> Count(marks) > 0)
    ensures p <= |marks|
  {
    if n == 0 then pos else Stops(marks, pos, n)[n - 1] + 1
  }

  lemma {:induction false} StopsSnoc(marks: seq<bool>, pos: nat, n: nat)
    requires pos <= |marks| && Count(marks) > 0
    ensures Stops(marks, pos, n + 1) == Stops(marks, pos, n) + [Next(marks, After(marks, pos, n))]
    decreases n
  {
    NextFinds(marks, pos);
    if n > 0 {
      StopsSnoc(marks, Next(marks, pos) + 1, n - 1);
    }
  }

  /** All marks, as they come up from a place on. */
  function Cycle(marks: seq<bool>, pos: nat): seq<nat>
    requires pos <= |marks|
  {
    Marked(marks, pos, |marks|) + Marked(marks, 0, pos)
  }

  lemma CycleLength(marks: seq<bool>, pos: nat)
    requires pos <= |marks|
    ensures |Cycle(marks, pos)| == Count(marks)
  {
    MarkedSplit(marks, 0, pos, |marks|);
  }

  lemma MarkedHead(marks: seq<bool>, lo: nat, hi: nat, k: nat)
    requires lo <= k < hi <= |marks| && marks[k] && forall i :: lo <= i < k ==> !marks[i]
    ensures Marked(marks, lo, hi) == [k] + Marked(marks, k + 1, hi)
    ensures Marked(marks, lo, k + 1) == [k]
  {
    MarkedNone(marks, lo, k);
    assert Marked(marks, lo, k + 1) == [] + [k];
    assert [] + [k] == [k];
    MarkedSplit(marks, lo, k + 1, hi);
  }

  lemma Turned(k: nat, t: seq<nat>, q: seq<nat>)
    ensures ([k] + t + q)[1..] == t + q && t + (q + [k]) == t + q + [k] && [k] + t + [] == [k] + t
  {
    assert ([k] + t + q)[1..] == t + q;
  }

  lemma TurnsAhead(marks: seq<bool>, pos: nat, k: nat)
    requires pos <= k < |marks| && marks[k] && forall i :: pos <= i < k ==> !marks[i]
    ensures var c := Cycle(marks, pos); c != [] && c[0] == k && Cycle(marks, k + 1) == c[1..] + [k]
  {
    var t, q := Marked(marks, k + 1, |marks|), Marked(marks, 0, pos);
    MarkedHead(marks, pos, |marks|, k);
    assert Marked(marks, 0, k + 1) == q + [k] by {
      MarkedSplit(marks, 0, pos, k + 1);
    }
    Turned(k, t, q);
  }

  lemma TurnsRound(marks: seq<bool>, pos: nat, k: nat)
    requires k < pos <= |marks| && marks[k]
    requires (forall i :: 0 <= i < k ==> !marks[i]) && forall i :: pos <= i < |marks| ==> !marks[i]
    ensures var c := Cycle(marks, pos); c != [] && c[0] == k && Cycle(marks, k + 1) == c[1..] + [k]
  {
    var t := Marked(marks, k + 1, pos);
    MarkedNone(marks, pos, |marks|);
    MarkedHead(marks, 0, pos, k);
    assert Cycle(marks, pos) == [k] + t;
    assert Marked(marks, k + 1, |marks|) == t by {
      MarkedSplit(marks, k + 1, pos, |marks|);
    }
  }

  /** Moving past a stop turns the cycle by one. */
  lemma CycleTurns(marks: seq<bool>, pos: nat)
    requires pos <= |marks| && Count(marks) > 0
    ensures var k := Next(marks, pos); k < |marks| && var c := Cycle(marks, pos);
            c != [] && c[0] == k && Cycle(marks, k + 1) == c[1..] + [k]
  {
    NextFinds(marks, pos);
    if First(marks, pos) < |marks| {
      TurnsAhead(marks, pos, Next(marks, pos));
    } else {
      TurnsRound(marks, pos, Next(marks, pos));
    }
  }

  /** As long as there are enough marks, the stops follow the cycle. */
  lemma {:induction false} StopsFollowCycle(marks: seq<bool>, pos: nat, n: nat)
    requires pos <= |marks| && n <= Count(marks)
    ensures n <= |Cycle(marks, pos)| && Stops(marks, pos, n) == Cycle(marks, pos)[..n]
    decreases n
  {
    CycleLength(marks, pos);
    if n > 0 {
      var k := Next(marks, pos);
      CycleTurns(marks, pos);
      StopsFollowCycle(marks, k + 1, n - 1);
      TurnPrefix(Cycle(marks, pos), k, n);
    }
  }

  lemma TurnPrefix(c: seq<nat>, k: nat, n: nat)
    requires 0 < n <= |c| && c[0] == k
    ensures [k] + (c[1..] + [k])[..n - 1] == c[..n]
  {
  }

  lemma CycleNoRepeats(marks: seq<bool>, pos: nat)
    requires pos <= |marks|
    ensures forall i, j :: 0 <= i < j < |Cycle(marks, pos)| ==> Cycle(marks, pos)[i] != Cycle(marks, pos)[j]
  {
  }

  /** From wherever the cursor stands, as many stops as there are marks stop at each mark exactly once. */
  lemma FullTurn(marks: seq<bool>, pos: nat)
    requires pos <= |marks|
    ensures var s := Stops(marks, pos, Count(marks));
            && (forall i, j :: 0 <= i < j < |s| ==> s[i] != s[j])
            && forall k :: 0 <= k < |marks| ==> (marks[k] <==> k in s)
  {
    var m := Count(marks);
    var s := Stops(marks, pos, m);
    StopsFollowCycle(marks, pos, m);
    CycleLength(marks, pos);
    assert s == Cycle(marks, pos);
    CycleNoRepeats(marks, pos);
    forall k | 0 <= k < |marks| && marks[k]
      ensures k in s
    {
      if k < pos {
        MarkedAll(marks, 0, pos, k);
      } else {
        MarkedAll(marks, pos, |marks|, k);
      }
    }
  }

  lemma {:induction false} StopsPrefix(marks: seq<bool>, pos: nat, n: nat, n': nat)
    requires pos <= |marks| && n <= n' && (n' > 0 ==> Count(marks) > 0)
    ensures Stops(marks, pos, n) == Stops(marks, pos, n')[..n]
    decreases n
  {
    if n > 0 {
      NextFinds(marks, pos);
      StopsPrefix(marks, Next(marks, pos) + 1, n - 1, n' - 1);
    }
  }

  /** One stop more than there are marks comes back to the first. */
  lemma ComesBack(marks: seq<bool>, pos: nat)
    requires pos <= |marks| && Count(marks) > 0
    ensures var s := Stops(marks, pos, Count(marks) + 1); s[0] == s[Count(marks)]
  {
    var m, k := Count(marks), Next(marks, pos);
    CycleTurns(marks, pos);
    var s := Stops(marks, k + 1, m);
    assert s == Cycle(marks, k + 1) by {
      StopsFollowCycle(marks, k + 1, m);
      CycleLength(marks, k + 1);
    }
    assert Stops(marks, pos, m + 1) == [k] + s;
    assert s[m - 1] == k;
  }

  /** Stops are all different if and only if there are no more of them than marks. */
  lemma DistinctStops(marks: seq<bool>, pos: nat, n: nat)
    requires pos <= |marks| && Count(marks) > 0
    ensures (forall i, j :: 0 <= i < j < n ==> Stops(marks, pos, n)[i] != Stops(marks, pos, n)[j]) <==>
            n <= Count(marks)
  {
    var m := Count(marks);
    if n <= m {
      StopsFollowCycle(marks, pos, n);
      CycleNoRepeats(marks, pos);
    } else {
      ComesBack(marks, pos);
      StopsPrefix(marks, pos, m + 1, n);
      var s := Stops(marks, pos, n);
      assert s[..m + 1][0] == s[..m + 1][m];
      assert s[0] == s[m];
    }
  }

  // ---- any choice of marks ----

  ghost predicate NoRepeats(s: seq<nat>)
  {
    forall i, j :: 0 <= i < j < |s| ==> s[i] != s[j]
  }

  ghost function SetOf(s: seq<nat>): set<nat>
  {
    set i | 0 <= i < |s| :: s[i]
  }

  lemma {:induction false} SetSize(s: seq<nat>)
    requires NoRepeats(s)
    ensures |SetOf(s)| == |s|
  {
    if s != [] {
      var before, last := s[..|s| - 1], s[|s| - 1];
      SetSize(before);
      assert SetOf(s) == SetOf(before) + {last} && last !in SetOf(before);
    }
  }

  /** As many different marked positions as there are marks are all the marks. */
  lemma AsManyAsMarks(marks: seq<bool>, s: seq<nat>)
    requires NoRepeats(s) && |s| == Count(marks) && forall i :: 0 <= i < |s| ==> s[i] < |marks| && marks[s[i]]
    ensures forall k :: 0 <= k < |marks| ==> (marks[k] <==> k in s)
  {
    var all := Marked(marks, 0, |marks|);
    SetSize(s);
    SetSize(all);
    forall i | 0 <= i < |s|
      ensures s[i] in SetOf(all)
    {
      MarkedAll(marks, 0, |marks|, s[i]);
    }
    SameSize(SetOf(s), SetOf(all));
    forall k | 0 <= k < |marks| && marks[k]
      ensures k in s
    {
      MarkedAll(marks, 0, |marks|, k);
      assert k in SetOf(all);
    }
  }

  lemma SameSize(a: set<nat>, b: set<nat>)
    requires a <= b && |a| == |b|
    ensures a == b
  {
    assert |b| == |a| + |b - a| by {
      assert b == a + (b - a);
    }
  }

  /** A position that the cursor passes on its way to another, going round. */
  predicate Between(pos: nat, i: nat, k: nat)
  {
    if pos <= k then pos <= i < k else pos <= i || i < k
  }

  /** A mark is the next stop if and only if there is no other on the way to it. */
  lemma NextIs(marks: seq<bool>, pos: nat, k: nat)
    requires pos <= |marks| && k < |marks| && marks[k]
    ensures Next(marks, pos) == k <==> forall i :: 0 <= i < |marks| && Between(pos, i, k) ==> !marks[i]
  {
    var n := Next(marks, pos);
    NextFinds(marks, pos);
    if n != k {
      assert marks[n] && Between(pos, n, k) by {
        if First(marks, pos) < |marks| {
          assert !(pos <= k < n);
        } else {
          assert n <= k < pos;
        }
      }
    }
  }
}
