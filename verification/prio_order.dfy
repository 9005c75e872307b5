/**
 Grouping a list by priority: chains of items of equal priority, in the order of the list, with
 the chains in descending order of priority.
 */
module PrioOrder {

  /** Priorities of items; an item without one counts as zero. */
  function Prio<T>(p: map<T, int>, x: T): int
  {
    if x in p then p[x] else 0
  }

  ghost predicate Headed<T>(chains: seq<seq<T>>)
  {
    forall k :: 0 <= k < |chains| ==> chains[k] != []
  }

  /** The chains in strictly descending order of the priority of their heads. */
  ghost predicate Descending<T>(chains: seq<seq<T>>, p: map<T, int>)
    requires Headed(chains)
  {
    forall k, l :: 0 <= k < l < |chains| ==> Prio(p, chains[k][0]) > Prio(p, chains[l][0])
  }

  /** One item more: at the end of the chain of its priority, or as a new chain in its place. */
  ghost function AddTo<T>(chains: seq<seq<T>>, x: T, p: map<T, int>): (r: seq<seq<T>>)
    requires Headed(chains)
    ensures Headed(r)
  {
    if chains == [] then [[x]]
    else if Prio(p, chains[0][0]) == Prio(p, x) then [chains[0] + [x]] + chains[1..]
    else if Prio(p, chains[0][0]) < Prio(p, x) then [[x]] + chains
    else [chains[0]] + AddTo(chains[1..], x, p)
  }

  ghost function ChainsOf<T>(xs: seq<T>, p: map<T, int>): (r: seq<seq<T>>)
    ensures Headed(r)
  {
    if xs == [] then [] else AddTo(ChainsOf(xs[..|xs| - 1], p), xs[|xs| - 1], p)
  }

  // ---- where an item goes ----

  lemma {:induction false} AddAtEqual<T>(chains: seq<seq<T>>, x: T, p: map<T, int>, k: nat)
    requires Headed(chains) && Descending(chains, p) && k < |chains| && Prio(p, chains[k][0]) == Prio(p, x)
    ensures AddTo(chains, x, p) == chains[k := chains[k] + [x]]
    decreases k
  {
    if k > 0 {
      AddAtEqual(chains[1..], x, p, k - 1);
    }
  }

  lemma {:induction false} AddAtFresh<T>(chains: seq<seq<T>>, x: T, p: map<T, int>, k: nat)
    requires Headed(chains) && Place(chains, p, Prio(p, x), k)
    ensures AddTo(chains, x, p) == chains[..k] + [[x]] + chains[k..]
    decreases k
  {
    if k > 0 {
      AddAtFresh(chains[1..], x, p, k - 1);
      assert chains[..k] == [chains[0]] + chains[1..][..k - 1];
    }
  }

  // ---- what the chains hold ----

  /** The items of one priority, in order. */
  ghost function OfPrio<T>(xs: seq<T>, p: map<T, int>, v: int): seq<T>
  {
    if xs == [] then []
    else OfPrio(xs[..|xs| - 1], p, v) + if Prio(p, xs[|xs| - 1]) == v then [xs[|xs| - 1]] else []
  }

  /** Every chain is exactly the items of one priority; priorities descend; no item is left out. */
  ghost predicate Indexes<T>(chains: seq<seq<T>>, xs: seq<T>, p: map<T, int>)
  {
    && Headed(chains) && Descending(chains, p)
    && (forall k :: 0 <= k < |chains| ==> chains[k] == OfPrio(xs, p, Prio(p, chains[k][0])))
    && Covers(chains, xs, p)
  }

  ghost predicate Covers<T>(chains: seq<seq<T>>, xs: seq<T>, p: map<T, int>)
    requires Headed(chains)
  {
    forall i :: 0 <= i < |xs| ==> HasPrio(chains, p, Prio(p, xs[i]))
  }

  ghost predicate HasPrio<T>(chains: seq<seq<T>>, p: map<T, int>, v: int)
    requires Headed(chains)
  {
    exists k :: 0 <= k < |chains| && Prio(p, chains[k][0]) == v
  }

  lemma {:induction false} OfPrioNone<T>(xs: seq<T>, p: map<T, int>, v: int)
    requires forall i :: 0 <= i < |xs| ==> Prio(p, xs[i]) != v
    ensures OfPrio(xs, p, v) == []
  {
    if xs != [] {
      OfPrioNone(xs[..|xs| - 1], p, v);
    }
  }

  lemma OfPrioSnoc<T>(xs: seq<T>, x: T, p: map<T, int>, v: int)
    ensures OfPrio(xs + [x], p, v) == OfPrio(xs, p, v) + if Prio(p, x) == v then [x] else []
  {
    assert (xs + [x])[..|xs|] == xs;
  }

  lemma IndexesEqual<T>(chains: seq<seq<T>>, xs: seq<T>, x: T, p: map<T, int>, k: nat)
    requires Indexes(chains, xs, p) && k < |chains| && Prio(p, chains[k][0]) == Prio(p, x)
    ensures Indexes(chains[k := chains[k] + [x]], xs + [x], p)
  {
    var r := chains[k := chains[k] + [x]];
    assert forall l :: 0 <= l < |r| ==> r[l] != [] && r[l][0] == chains[l][0];
    forall l | 0 <= l < |r|
      ensures r[l] == OfPrio(xs + [x], p, Prio(p, r[l][0]))
    {
      OfPrioSnoc(xs, x, p, Prio(p, r[l][0]));
    }
    forall i | 0 <= i < |xs + [x]|
      ensures HasPrio(r, p, Prio(p, (xs + [x])[i]))
    {
      var l := if i == |xs| then k else
        var l :| 0 <= l < |chains| && Prio(p, chains[l][0]) == Prio(p, xs[i]); l;
      assert Prio(p, r[l][0]) == Prio(p, (xs + [x])[i]);
    }
  }

  /** A place between higher and lower priorities. */
  ghost predicate Place<T>(chains: seq<seq<T>>, p: map<T, int>, v: int, k: nat)
    requires Headed(chains)
  {
    && k <= |chains|
    && (forall l :: 0 <= l < k ==> Prio(p, chains[l][0]) > v)
    && (k < |chains| ==> Prio(p, chains[k][0]) < v)
  }

  lemma NoneOfPrio<T>(chains: seq<seq<T>>, xs: seq<T>, p: map<T, int>, v: int, k: nat)
    requires Indexes(chains, xs, p) && Place(chains, p, v, k)
    ensures OfPrio(xs, p, v) == []
  {
    forall l | 0 <= l < |chains|
      ensures Prio(p, chains[l][0]) != v
    {
      if l > k {
        assert Prio(p, chains[k][0]) > Prio(p, chains[l][0]);
      }
    }
    OfPrioNone(xs, p, v);
  }

  lemma InsertedAt<T>(chains: seq<seq<T>>, c: seq<T>, k: nat, l: nat)
    requires k <= |chains| && l <= |chains|
    ensures (chains[..k] + [c] + chains[k..])[l] == if l < k then chains[l] else if l == k then c else chains[l - 1]
  {
  }

  lemma FreshDescends<T>(chains: seq<seq<T>>, x: T, p: map<T, int>, k: nat)
    requires Headed(chains) && Descending(chains, p) && Place(chains, p, Prio(p, x), k)
    ensures var r := chains[..k] + [[x]] + chains[k..]; Headed(r) && Descending(r, p)
  {
    var r := chains[..k] + [[x]] + chains[k..];
    forall l | 0 <= l < |r|
      ensures r[l] != []
    {
      InsertedAt(chains, [x], k, l);
    }
    forall l, m | 0 <= l < m < |r|
      ensures Prio(p, r[l][0]) > Prio(p, r[m][0])
    {
      InsertedAt(chains, [x], k, l);
      InsertedAt(chains, [x], k, m);
      assert m > k + 1 ==> Prio(p, chains[k][0]) > Prio(p, chains[m - 1][0]);
    }
  }

  lemma FreshCovers<T>(chains: seq<seq<T>>, xs: seq<T>, x: T, p: map<T, int>, k: nat)
    requires Indexes(chains, xs, p) && k <= |chains|
    requires Headed(chains[..k] + [[x]] + chains[k..])
    ensures Covers(chains[..k] + [[x]] + chains[k..], xs + [x], p)
  {
    var r, ys := chains[..k] + [[x]] + chains[k..], xs + [x];
    forall i | 0 <= i < |ys|
      ensures HasPrio(r, p, Prio(p, ys[i]))
    {
      if i == |xs| {
        assert r[k] == [x];
      } else {
        var l :| 0 <= l < |chains| && Prio(p, chains[l][0]) == Prio(p, xs[i]);
        InsertedAt(chains, [x], k, if l < k then l else l + 1);
      }
    }
  }

  lemma IndexesFresh<T>(chains: seq<seq<T>>, xs: seq<T>, x: T, p: map<T, int>, k: nat)
    requires Indexes(chains, xs, p) && Place(chains, p, Prio(p, x), k)
    ensures Indexes(chains[..k] + [[x]] + chains[k..], xs + [x], p)
  {
    var r := chains[..k] + [[x]] + chains[k..];
    FreshDescends(chains, x, p, k);
    FreshCovers(chains, xs, x, p, k);
    NoneOfPrio(chains, xs, p, Prio(p, x), k);
    forall l | 0 <= l < |r|
      ensures r[l] == OfPrio(xs + [x], p, Prio(p, r[l][0]))
    {
      InsertedAt(chains, [x], k, l);
      OfPrioSnoc(xs, x, p, Prio(p, r[l][0]));
      assert l > k ==> Prio(p, chains[l - 1][0]) < Prio(p, x) by {
        assert l > k + 1 ==> Prio(p, chains[k][0]) > Prio(p, chains[l - 1][0]);
      }
    }
  }

  /** The place of a priority that no chain has. */
  lemma FreshPlace<T>(chains: seq<seq<T>>, p: map<T, int>, v: int) returns (k: nat)
    requires Headed(chains) && Descending(chains, p) && forall l :: 0 <= l < |chains| ==> Prio(p, chains[l][0]) != v
    ensures Place(chains, p, v, k)
  {
    k := 0;
    while k < |chains| && Prio(p, chains[k][0]) > v
      invariant k <= |chains| && forall l :: 0 <= l < k ==> Prio(p, chains[l][0]) > v
    {
      k := k + 1;
    }
  }

  /** The chains of a list index the list. */
  lemma {:induction false} ChainsIndex<T>(xs: seq<T>, p: map<T, int>)
    ensures Indexes(ChainsOf(xs, p), xs, p)
  {
    if xs != [] {
      var before, x := xs[..|xs| - 1], xs[|xs| - 1];
      var chains := ChainsOf(before, p);
      ChainsIndex(before, p);
      assert before + [x] == xs;
      if k :| 0 <= k < |chains| && Prio(p, chains[k][0]) == Prio(p, x) {
        AddAtEqual(chains, x, p, k);
        IndexesEqual(chains, before, x, p, k);
      } else {
        var k := FreshPlace(chains, p, Prio(p, x));
        AddAtFresh(chains, x, p, k);
        IndexesFresh(chains, before, x, p, k);
      }
    }
  }

  // ---- the chains one after the other ----

  ghost function Flatten<T>(chains: seq<seq<T>>): seq<T>
  {
    if chains == [] then [] else chains[0] + Flatten(chains[1..])
  }

  /** Insertion behind everything that does not have a lower priority. */
  ghost function InsertStable<T>(xs: seq<T>, x: T, p: map<T, int>): seq<T>
  {
    if xs == [] then [x]
    else if Prio(p, xs[0]) < Prio(p, x) then [x] + xs
    else [xs[0]] + InsertStable(xs[1..], x, p)
  }

  /** The stable sort by descending priority. */
  ghost function StableSort<T>(xs: seq<T>, p: map<T, int>): seq<T>
  {
    if xs == [] then [] else InsertStable(StableSort(xs[..|xs| - 1], p), xs[|xs| - 1], p)
  }

  lemma {:induction false} InsertPast<T>(a: seq<T>, b: seq<T>, x: T, p: map<T, int>)
    requires forall i :: 0 <= i < |a| ==> Prio(p, a[i]) >= Prio(p, x)
    ensures InsertStable(a + b, x, p) == a + InsertStable(b, x, p)
  {
    if a == [] {
      assert a + b == b;
    } else {
      InsertPast(a[1..], b, x, p);
      assert (a + b)[0] == a[0] && (a + b)[1..] == a[1..] + b;
    }
  }

  /** Chains of one priority each. */
  ghost predicate Level<T>(chains: seq<seq<T>>, p: map<T, int>)
    requires Headed(chains)
  {
    forall k, i :: 0 <= k < |chains| && 0 <= i < |chains[k]| ==> Prio(p, chains[k][i]) == Prio(p, chains[k][0])
  }

  lemma {:induction false} FlattenAdd<T>(chains: seq<seq<T>>, x: T, p: map<T, int>)
    requires Headed(chains) && Level(chains, p) && Descending(chains, p)
    ensures Flatten(AddTo(chains, x, p)) == InsertStable(Flatten(chains), x, p)
  {
    if chains == [] {
      assert [[x]][1..] == [];
    } else {
      var c, rest := chains[0], chains[1..];
      if Prio(p, c[0]) < Prio(p, x) {
        assert ([[x]] + chains)[1..] == chains;
        assert Flatten(chains)[0] == c[0];
      } else {
        InsertPast(c, Flatten(rest), x, p);
        if Prio(p, c[0]) == Prio(p, x) {
          assert ([c + [x]] + rest)[1..] == rest;
          InsertFront(rest, x, p);
        } else {
          FlattenAdd(rest, x, p);
          assert ([c] + AddTo(rest, x, p))[1..] == AddTo(rest, x, p);
        }
      }
    }
  }

  lemma InsertFront<T>(chains: seq<seq<T>>, x: T, p: map<T, int>)
    requires Headed(chains) && (chains != [] ==> Prio(p, chains[0][0]) < Prio(p, x))
    ensures InsertStable(Flatten(chains), x, p) == [x] + Flatten(chains)
  {
    if chains != [] {
      assert Flatten(chains)[0] == chains[0][0];
    }
  }

  lemma {:induction false} OfPrioLevel<T>(xs: seq<T>, p: map<T, int>, v: int)
    ensures forall i :: 0 <= i < |OfPrio(xs, p, v)| ==> Prio(p, OfPrio(xs, p, v)[i]) == v && OfPrio(xs, p, v)[i] in xs
  {
    if xs != [] {
      OfPrioLevel(xs[..|xs| - 1], p, v);
    }
  }

  lemma ChainsLevel<T>(xs: seq<T>, p: map<T, int>)
    ensures Level(ChainsOf(xs, p), p)
  {
    ChainsIndex(xs, p);
    var chains := ChainsOf(xs, p);
    forall k, i | 0 <= k < |chains| && 0 <= i < |chains[k]|
      ensures Prio(p, chains[k][i]) == Prio(p, chains[k][0])
    {
      OfPrioLevel(xs, p, Prio(p, chains[k][0]));
    }
  }

  /** One after the other, the chains of a list are its stable sort by descending priority. */
  lemma {:induction false} ChainsSort<T>(xs: seq<T>, p: map<T, int>)
    ensures Flatten(ChainsOf(xs, p)) == StableSort(xs, p)
  {
    if xs != [] {
      var before, x := xs[..|xs| - 1], xs[|xs| - 1];
      ChainsSort(before, p);
      ChainsIndex(before, p);
      ChainsLevel(before, p);
      FlattenAdd(ChainsOf(before, p), x, p);
    }
  }

  // ---- the sort is a stable sort ----

  ghost predicate Sorted<T>(xs: seq<T>, p: map<T, int>)
  {
    forall i, j :: 0 <= i < j < |xs| ==> Prio(p, xs[i]) >= Prio(p, xs[j])
  }

  lemma {:induction false} InsertPermutes<T>(xs: seq<T>, x: T, p: map<T, int>)
    ensures multiset(InsertStable(xs, x, p)) == multiset(xs) + multiset{x}
  {
    if xs != [] {
      InsertPermutes(xs[1..], x, p);
      assert xs == [xs[0]] + xs[1..];
    }
  }

  lemma {:induction false} InsertKeepsOrder<T>(xs: seq<T>, x: T, p: map<T, int>)
    requires Sorted(xs, p)
    ensures Sorted(InsertStable(xs, x, p), p)
  {
    if xs != [] && Prio(p, xs[0]) >= Prio(p, x) {
      InsertKeepsOrder(xs[1..], x, p);
      InsertPermutes(xs[1..], x, p);
      var r := InsertStable(xs[1..], x, p);
      forall i | 0 <= i < |r|
        ensures Prio(p, xs[0]) >= Prio(p, r[i])
      {
        assert r[i] in multiset(r);
        assert r[i] == x || r[i] in xs[1..];
      }
    }
  }

  /** The sort is a permutation of the list in descending order of priority. */
  lemma {:induction false} SortSorts<T>(xs: seq<T>, p: map<T, int>)
    ensures multiset(StableSort(xs, p)) == multiset(xs) && Sorted(StableSort(xs, p), p)
  {
    if xs != [] {
      SortSorts(xs[..|xs| - 1], p);
      InsertKeepsOrder(StableSort(xs[..|xs| - 1], p), xs[|xs| - 1], p);
      InsertPermutes(StableSort(xs[..|xs| - 1], p), xs[|xs| - 1], p);
      assert xs == xs[..|xs| - 1] + [xs[|xs| - 1]];
    }
  }

  lemma {:induction false} OfPrioConcat<T>(xs: seq<T>, ys: seq<T>, p: map<T, int>, v: int)
    ensures OfPrio(xs + ys, p, v) == OfPrio(xs, p, v) + OfPrio(ys, p, v)
  {
    if ys == [] {
      assert xs + ys == xs;
    } else {
      OfPrioConcat(xs, ys[..|ys| - 1], p, v);
      assert (xs + ys)[..|xs + ys| - 1] == xs + ys[..|ys| - 1];
    }
  }

  /** Where an item goes in a sorted list: everything behind it has a lower priority. */
  lemma {:induction false} InsertSplits<T>(xs: seq<T>, x: T, p: map<T, int>) returns (k: nat)
    requires Sorted(xs, p)
    ensures k <= |xs| && InsertStable(xs, x, p) == xs[..k] + [x] + xs[k..]
    ensures forall i :: k <= i < |xs| ==> Prio(p, xs[i]) < Prio(p, x)
  {
    if xs == [] || Prio(p, xs[0]) < Prio(p, x) {
      k := 0;
      assert forall i :: 0 < i < |xs| ==> Prio(p, xs[0]) >= Prio(p, xs[i]);
    } else {
      var n := InsertSplits(xs[1..], x, p);
      k := n + 1;
      SplitBehind(xs, x, n);
    }
  }

  lemma SplitBehind<T>(xs: seq<T>, x: T, n: nat)
    requires n < |xs|
    ensures [xs[0]] + (xs[1..][..n] + [x] + xs[1..][n..]) == xs[..n + 1] + [x] + xs[n + 1..]
    ensures forall i :: n + 1 <= i < |xs| ==> xs[i] == xs[1..][i - 1]
  {
  }

  lemma InsertIsStable<T>(xs: seq<T>, x: T, p: map<T, int>, v: int)
    requires Sorted(xs, p)
    ensures OfPrio(InsertStable(xs, x, p), p, v) == OfPrio(xs, p, v) + if Prio(p, x) == v then [x] else []
  {
    var k := InsertSplits(xs, x, p);
    var a, b := xs[..k], xs[k..];
    assert xs == a + b;
    OfPrioConcat(a, b, p, v);
    OfPrioConcat(a + [x], b, p, v);
    OfPrioSnoc(a, x, p, v);
    if Prio(p, x) == v {
      OfPrioNone(b, p, v);
    }
  }

  /** The sort leaves the items of every priority in the order of the list. */
  lemma {:induction false} SortIsStable<T>(xs: seq<T>, p: map<T, int>, v: int)
    ensures OfPrio(StableSort(xs, p), p, v) == OfPrio(xs, p, v)
  {
    if xs != [] {
      SortIsStable(xs[..|xs| - 1], p, v);
      SortSorts(xs[..|xs| - 1], p);
      InsertIsStable(StableSort(xs[..|xs| - 1], p), xs[|xs| - 1], p, v);
    }
  }
}
