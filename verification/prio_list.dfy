/**
 The configured networks: one list in configuration order, and an index of chains by priority
 that is threaded through the same nodes.
 */
module PrioList {
  import opened PrioOrder

  class Network {
    const id: int
    var priority: int
    var next: Network?
    var pnext: Network?

    constructor (id: int)
      ensures this.id == id && priority == 0 && next == null && pnext == null
    {
      this.id := id;
      priority, next, pnext := 0, null, null;
    }
  }

  // ---- lists of nodes ----

  ghost function At(s: seq<Network>, i: nat): Network?
  {
    if i < |s| then s[i] else null
  }

  ghost predicate Within(s: seq<Network>, all: seq<Network>)
  {
    forall i :: 0 <= i < |s| ==> s[i] in all
  }

  ghost predicate Distinct(s: seq<Network>)
  {
    forall i, j :: 0 <= i < j < |s| ==> s[i].id != s[j].id
  }

  /** A chain that is threaded through `pnext`. */
  ghost predicate Threaded(c: seq<Network>)
    reads c
  {
    forall i :: 0 <= i < |c| ==> c[i].pnext == At(c, i + 1)
  }

  ghost predicate Priorities(all: seq<Network>, p: map<Network, int>)
    reads all
  {
    forall n :: n in all ==> Prio(p, n) == n.priority
  }

  /** No node is on two chains or twice on one. */
  ghost predicate Apart(chains: seq<seq<Network>>)
  {
    forall k, i, l, j :: 0 <= k < |chains| && 0 <= i < |chains[k]| && 0 <= l < |chains| && 0 <= j < |chains[l]| ==>
      chains[k][i] == chains[l][j] ==> k == l && i == j
  }

  /** `x` is the end of chain `k` and nowhere else. */
  ghost predicate Ends(chains: seq<seq<Network>>, k: nat, x: Network)
  {
    && k < |chains| && chains[k] != [] && x == chains[k][|chains[k]| - 1]
    && (forall i :: 0 <= i < |chains[k]| - 1 ==> chains[k][i] != x)
    && forall l :: 0 <= l < |chains| && l != k ==> x !in chains[l]
  }

  lemma {:induction false} OfPrioDistinct(xs: seq<Network>, p: map<Network, int>, v: int)
    requires Distinct(xs)
    ensures Distinct(OfPrio(xs, p, v)) && Within(OfPrio(xs, p, v), xs)
  {
    if xs != [] {
      var before := xs[..|xs| - 1];
      OfPrioDistinct(before, p, v);
      var c := OfPrio(before, p, v);
      forall i | 0 <= i < |c|
        ensures c[i] in xs && c[i].id != xs[|xs| - 1].id
      {
        assert c[i] in before;
      }
    }
  }

  lemma ChainsApart(xs: seq<Network>, p: map<Network, int>)
    requires Distinct(xs)
    ensures Apart(ChainsOf(xs, p))
    ensures forall k :: 0 <= k < |ChainsOf(xs, p)| ==> Within(ChainsOf(xs, p)[k], xs)
  {
    var chains := ChainsOf(xs, p);
    ChainsIndex(xs, p);
    ChainsLevel(xs, p);
    forall k | 0 <= k < |chains|
      ensures Distinct(chains[k]) && Within(chains[k], xs)
    {
      OfPrioDistinct(xs, p, Prio(p, chains[k][0]));
    }
    forall k, i, l, j | 0 <= k < |chains| && 0 <= i < |chains[k]| && 0 <= l < |chains| && 0 <= j < |chains[l]| &&
      chains[k][i] == chains[l][j]
      ensures k == l && i == j
    {
      assert Prio(p, chains[k][0]) == Prio(p, chains[l][0]);
    }
  }

  lemma ChainsSnoc(xs: seq<Network>, x: Network, p: map<Network, int>)
    ensures ChainsOf(xs + [x], p) == AddTo(ChainsOf(xs, p), x, p)
  {
    assert (xs + [x])[..|xs|] == xs;
  }

  lemma Prefix(xs: seq<Network>, i: nat)
    requires i < |xs| && Distinct(xs)
    ensures Distinct(xs[..i]) && Within(xs[..i], xs) && xs[i] !in xs[..i] && xs[..i] + [xs[i]] == xs[..i + 1]
  {
  }

  /** The networks with another identifier. */
  ghost function Others(xs: seq<Network>, id: int): (r: seq<Network>)
    ensures forall i :: 0 <= i < |r| ==> r[i].id != id && r[i] in xs
  {
    if xs == [] then [] else Others(xs[..|xs| - 1], id) + if xs[|xs| - 1].id != id then [xs[|xs| - 1]] else []
  }

  lemma {:induction false} OthersNone(xs: seq<Network>, id: int)
    requires forall i :: 0 <= i < |xs| ==> xs[i].id != id
    ensures Others(xs, id) == xs
  {
    if xs != [] {
      OthersNone(xs[..|xs| - 1], id);
    }
  }

  lemma {:induction false} OthersAt(xs: seq<Network>, id: int, i: nat)
    requires i < |xs| && xs[i].id == id && Distinct(xs)
    ensures Others(xs, id) == xs[..i] + xs[i + 1..]
  {
    if i == |xs| - 1 {
      OthersNone(xs[..i], id);
    } else {
      OthersAt(xs[..|xs| - 1], id, i);
    }
  }

  lemma CutAt(xs: seq<Network>, i: nat)
    requires i < |xs| && Distinct(xs)
    ensures Distinct(xs[..i] + xs[i + 1..])
    ensures forall j :: 0 <= j < |xs| - 1 ==> (xs[..i] + xs[i + 1..])[j] == if j < i then xs[j] else xs[j + 1]
  {
  }

  /** No network of the id is on any chain. */
  ghost predicate ClearOf(chains: seq<seq<Network>>, id: int)
  {
    forall k, j :: 0 <= k < |chains| && 0 <= j < |chains[k]| ==> chains[k][j].id != id
  }

  /** What is not in a list is on none of its chains. */
  lemma OffChains(xs: seq<Network>, p: map<Network, int>, id: int)
    requires Distinct(xs) && forall i :: 0 <= i < |xs| ==> xs[i].id != id
    ensures ClearOf(ChainsOf(xs, p), id)
  {
    ChainsApart(xs, p);
  }

  // ---- the configuration ----

  class Config {
    var ssid: Network?
    var pssid: seq<Network>
    ghost var nets: seq<Network>
    ghost var chains: seq<seq<Network>>

    /** `nets` is the list that starts at `ssid`. */
    ghost predicate Listed()
      reads this, nets
    {
      && ssid == At(nets, 0)
      && Distinct(nets)
      && forall i {:trigger nets[i].next} :: 0 <= i < |nets| ==> nets[i].next == At(nets, i + 1)
    }

    /** The index is the chains of the networks `done`, threaded through the nodes. */
    ghost predicate Indexed(done: seq<Network>, p: map<Network, int>)
      reads this, nets
    {
      && chains == ChainsOf(done, p)
      && |pssid| == |chains|
      && forall k :: 0 <= k < |chains| ==> Within(chains[k], nets) && pssid[k] == chains[k][0] && Threaded(chains[k])
    }

    /** The priorities the networks have now. */
    ghost function Prios(): map<Network, int>
      reads this, nets
    {
      map n | n in nets :: n.priority
    }

    ghost predicate Valid()
      reads this, nets
    {
      Listed() && Indexed(nets, Prios())
    }

    method Last(k: nat, ghost done: seq<Network>, ghost p: map<Network, int>) returns (n: Network)
      requires Indexed(done, p) && k < |chains|
      ensures n == chains[k][|chains[k]| - 1]
    {
      n := pssid[k];
      ghost var i := 0;
      while n.pnext != null
        invariant 0 <= i < |chains[k]| && n == chains[k][i]
        decreases |chains[k]| - i
      {
        n := n.pnext;
        i := i + 1;
      }
    }

    /** The link itself. */
    static method Tie(last: Network, n: Network, ghost k: nat, ghost was: seq<seq<Network>>)
      requires forall l :: 0 <= l < |was| ==> Threaded(was[l])
      requires Ends(was, k, last) && forall l :: 0 <= l < |was| ==> n !in was[l]
      requires n.pnext == null
      modifies last`pnext
      ensures Threaded(was[k] + [n]) && forall l :: 0 <= l < |was| && l != k ==> Threaded(was[l])
    {
      last.pnext := n;
      assert Threaded(was[k] + [n]) by {
        ghost var c := was[k] + [n];
        assert forall i :: 0 <= i < |was[k]| - 1 ==> was[k][i] != last;
      }
    }

    method Append(k: nat, n: Network, ghost done: seq<Network>, ghost p: map<Network, int>)
      requires Indexed(done, p) && Distinct(done) && Within(done, nets) && n in nets && n !in done && n.pnext == null
      requires k < |chains| && Prio(p, chains[k][0]) == Prio(p, n)
      modifies `chains, nets`pnext
      ensures Indexed(done + [n], p)
    {
      ghost var was := chains;
      var last := Last(k, done, p);
      assert Ends(was, k, last) && forall l :: 0 <= l < |was| ==> n !in was[l] by {
        ChainsApart(done, p);
      }
      Tie(last, n, k, was);
      chains := chains[k := chains[k] + [n]];
      assert chains == ChainsOf(done + [n], p) by {
        ChainsIndex(done, p);
        AddAtEqual(was, n, p, k);
        ChainsSnoc(done, n, p);
      }
    }

    method FindPlace(n: Network, ghost done: seq<Network>, ghost p: map<Network, int>) returns (k: nat)
      requires Indexed(done, p) && n in nets && Priorities(nets, p)
      requires forall k :: 0 <= k < |chains| ==> Prio(p, chains[k][0]) != Prio(p, n)
      ensures Place(chains, p, Prio(p, n), k)
    {
      k := 0;
      while k < |pssid| && pssid[k].priority >= n.priority
        invariant k <= |pssid| && forall l :: 0 <= l < k ==> Prio(p, chains[l][0]) > Prio(p, n)
      {
        k := k + 1;
      }
    }

    method Open(k: nat, n: Network, ghost done: seq<Network>, ghost p: map<Network, int>)
      requires Indexed(done, p) && n in nets && n.pnext == null && Place(chains, p, Prio(p, n), k)
      modifies `pssid, `chains
      ensures Indexed(done + [n], p)
    {
      ghost var was := chains;
      pssid := pssid[..k] + [n] + pssid[k..];
      chains := chains[..k] + [[n]] + chains[k..];
      assert chains == ChainsOf(done + [n], p) by {
        AddAtFresh(was, n, p, k);
        ChainsSnoc(done, n, p);
      }
      forall l | 0 <= l < |chains|
        ensures Within(chains[l], nets) && pssid[l] == chains[l][0] && Threaded(chains[l])
      {
        InsertedAt(was, [n], k, l);
      }
    }

    /** One network more in the index. */
    method AddPrioNetwork(n: Network, ghost done: seq<Network>, ghost p: map<Network, int>)
      requires Indexed(done, p) && Distinct(done) && Within(done, nets) && n in nets && n !in done && n.pnext == null
      requires Priorities(nets, p)
      modifies `pssid, `chains, nets`pnext
      ensures Indexed(done + [n], p)
    {
      var k := 0;
      while k < |pssid|
        invariant k <= |pssid| && forall l :: 0 <= l < k ==> Prio(p, chains[l][0]) != Prio(p, n)
      {
        if pssid[k].priority == n.priority {
          Append(k, n, done, p);
          return;
        }
        k := k + 1;
      }
      k := FindPlace(n, done, p);
      Open(k, n, done, p);
    }

    method Reset(n: Network, ghost done: seq<Network>, ghost p: map<Network, int>)
      requires Indexed(done, p) && Distinct(done) && n in nets && n !in done
      modifies n`pnext
      ensures Indexed(done, p) && n.pnext == null
    {
      ChainsApart(done, p);
      n.pnext := null;
    }

    method Enter(n: Network, ghost i: nat, ghost p: map<Network, int>)
      requires i < |nets| && n == nets[i] && Distinct(nets) && Indexed(nets[..i], p) && Priorities(nets, p)
      modifies `pssid, `chains, nets`pnext
      ensures Indexed(nets[..i + 1], p)
    {
      Prefix(nets, i);
      Reset(n, nets[..i], p);
      AddPrioNetwork(n, nets[..i], p);
    }

    method Rebuild(ghost p: map<Network, int>)
      requires Listed() && Priorities(nets, p)
      modifies `pssid, `chains, nets`pnext
      ensures Indexed(nets, p)
    {
      pssid, chains := [], [];
      var n := ssid;
      ghost var i := 0;
      while n != null
        invariant i <= |nets| && n == At(nets, i)
        invariant Indexed(nets[..i], p)
        decreases |nets| - i
      {
        Enter(n, i, p);
        n := n.next;
        i := i + 1;
      }
      assert nets[..i] == nets;
    }

    /** The index rebuilt, whatever it and the `pnext` fields were before. */
    method UpdatePrioList()
      requires Listed()
      modifies `pssid, `chains, nets`pnext
      ensures Valid()
    {
      ghost var p := Prios();
      Rebuild(p);
      assert p == Prios();
    }

    constructor ()
      ensures Valid() && nets == []
    {
      ssid, pssid, nets, chains := null, [], [], [];
    }

    /** A priority changed, and the index rebuilt. */
    method SetPriority(n: Network, priority: int)
      requires Valid() && n in nets
      modifies `pssid, `chains, nets`pnext, n`priority
      ensures Valid() && n.priority == priority
    {
      n.priority := priority;
      UpdatePrioList();
    }

    /** A new network at the end of the list, with an identifier above all others. */
    method AddNetwork() returns (n: Network)
      requires Valid()
      modifies this, nets`next, nets`pnext
      ensures Valid() && fresh(n) && nets == old(nets) + [n] && n.priority == 0
      ensures n.id >= 0 && forall m :: m in old(nets) ==> m.id < n.id
      ensures n.id == 0 || exists m :: m in old(nets) && m.id == n.id - 1
    {
      var last, id := LastId();
      n := new Network(id + 1);
      LinkEnd(last, n);
      UpdatePrioList();
    }

    method LinkEnd(last: Network?, n: Network)
      requires Listed() && last == (if nets == [] then null else nets[|nets| - 1])
      requires n.next == null && forall m :: m in nets ==> m.id < n.id
      modifies `ssid, `nets, nets`next
      ensures Listed() && nets == old(nets) + [n]
    {
      if last != null {
        last.next := n;
      } else {
        ssid := n;
      }
      nets := nets + [n];
    }

    /** The last network and the highest identifier. */
    method LastId() returns (last: Network?, id: int)
      requires Listed()
      ensures last == if nets == [] then null else nets[|nets| - 1]
      ensures id >= -1 && (forall m :: m in nets ==> m.id <= id) && (id > -1 ==> exists m :: m in nets && m.id == id)
    {
      last, id := null, -1;
      var n := ssid;
      ghost var i, best: nat := 0, 0;
      while n != null
        invariant i <= |nets| && n == At(nets, i)
        invariant last == if i == 0 then null else nets[i - 1]
        invariant id >= -1 && (forall j :: 0 <= j < i ==> nets[j].id <= id)
        invariant id > -1 ==> best < i && nets[best].id == id
        decreases |nets| - i
      {
        if n.id > id {
          id, best := n.id, i;
        }
        last, n := n, n.next;
        i := i + 1;
      }
    }

    /** The first network with an identifier, and the one before it. */
    method Find(id: int) returns (prev: Network?, n: Network?, ghost i: nat)
      requires Listed()
      ensures i <= |nets| && n == At(nets, i) && prev == if i == 0 then null else nets[i - 1]
      ensures (forall j :: 0 <= j < i ==> nets[j].id != id) && (i < |nets| ==> nets[i].id == id)
      ensures n == null <==> forall j :: 0 <= j < |nets| ==> nets[j].id != id
      ensures n != null ==> n in nets && n.id == id
    {
      prev, n, i := null, ssid, 0;
      while n != null && n.id != id
        invariant i <= |nets| && n == At(nets, i) && prev == if i == 0 then null else nets[i - 1]
        invariant forall j :: 0 <= j < i ==> nets[j].id != id
        decreases |nets| - i
      {
        prev, n := n, n.next;
        i := i + 1;
      }
    }

    /** A network taken out of the list and, with the index rebuilt, off every chain. */
    method RemoveNetwork(id: int) returns (r: int)
      requires Valid()
      modifies this, nets`next, nets`pnext
      ensures Valid() && nets == Others(old(nets), id)
      ensures r == if nets == old(nets) then -1 else 0
      ensures ClearOf(chains, id)
    {
      var prev, n, i := Find(id);
      if n == null {
        r := -1;
        OthersNone(nets, id);
      } else {
        r := 0;
        OthersAt(nets, id, i);
        Drop(prev, n, i);
      }
      OffChains(nets, Prios(), id);
    }

    method Drop(prev: Network?, n: Network, ghost i: nat)
      requires Valid() && i < |nets| && n == nets[i] && prev == if i == 0 then null else nets[i - 1]
      modifies this, nets`next, nets`pnext
      ensures Valid() && nets == old(nets)[..i] + old(nets)[i + 1..]
    {
      Unlink(prev, n, i);
      UpdatePrioList();
    }

    method Unlink(prev: Network?, n: Network, ghost i: nat)
      requires Listed() && i < |nets| && n == nets[i] && prev == if i == 0 then null else nets[i - 1]
      modifies `ssid, `nets, nets`next
      ensures Listed() && nets == old(nets)[..i] + old(nets)[i + 1..]
    {
      if prev != null {
        prev.next := n.next;
      } else {
        ssid := n.next;
      }
      nets := nets[..i] + nets[i + 1..];
      CutAt(old(nets), i);
    }
  }
}
