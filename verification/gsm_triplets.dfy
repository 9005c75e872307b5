/**
 The GSM triplet database of the HLR/AuC gateway: one cursor, shared by all subscribers, goes round
 the list of triplets.
 */
module GsmTriplets {

  import opened Wrappers
  import Rotation

  type Imsi = string

  datatype Triplet = Triplet(imsi: Imsi, kc: seq<int>, sres: seq<int>, rand: seq<int>)

  const EAP_SIM_MAX_CHAL := 3

  /** Which triplets belong to a subscriber. */
  function Marks(db: seq<Triplet>, imsi: Imsi): (m: seq<bool>)
    ensures |m| == |db| && forall i :: 0 <= i < |db| ==> m[i] == (db[i].imsi == imsi)
  {
    seq(|db|, i requires 0 <= i < |db| => db[i].imsi == imsi)
  }

  /** How many challenges a request asks for; an absent or unusable number means the most allowed. */
  function MaxChallenges(asked: Option<int>): (n: nat)
    ensures 1 <= n <= EAP_SIM_MAX_CHAL
    ensures asked.Some? && 1 <= asked.value <= 3 ==> n == asked.value
    ensures asked.None? || !(1 <= asked.value <= 3) ==> n == 3
  {
    if asked.None? || asked.value < 1 || asked.value > EAP_SIM_MAX_CHAL then EAP_SIM_MAX_CHAL else asked.value
  }

  class Gateway {
    var db: seq<Triplet>
    var pos: nat    // the length of the list when there is no position

    ghost predicate Valid()
      reads this
    {
      pos <= |db|
    }

    constructor (triplets: seq<Triplet>)
      ensures Valid() && db == triplets && pos == |triplets|
    {
      db, pos := triplets, |triplets|;
    }

    /** The next triplet of a subscriber, by its place in the list. */
    method GetTriplet(imsi: Imsi) returns (r: Option<nat>)
      requires Valid()
      modifies this`pos
      ensures Valid()
      ensures r.None? <==> forall i :: 0 <= i < |db| ==> db[i].imsi != imsi
      ensures r.None? ==> pos == old(pos)
      ensures r.Some? ==> r.value < |db| && r.value == Rotation.Next(Marks(db, imsi), old(pos)) && pos == r.value + 1
    {
      ghost var marks := Marks(db, imsi);
      Rotation.NextFinds(marks, pos);
      var g := pos;
      while g < |db|
        invariant pos <= g <= |db|
        invariant forall i :: pos <= i < g ==> !marks[i]
      {
        if db[g].imsi == imsi {
          assert g == Rotation.First(marks, old(pos));
          pos := g + 1;
          return Some(g);
        }
        g := g + 1;
      }
      g := 0;
      while g < |db| && g != pos
        invariant 0 <= g <= pos
        invariant forall i :: 0 <= i < g ==> !marks[i]
      {
        if db[g].imsi == imsi {
          assert marks[g] && Rotation.First(marks, old(pos)) == |db| && g == Rotation.First(marks, 0);
          pos := g + 1;
          return Some(g);
        }
        g := g + 1;
      }
      assert forall i :: 0 <= i < |db| ==> !marks[i];
      return None;
    }

    /** The triplets of a response: none if the subscriber has none, else as many as wanted. */
    method Challenges(imsi: Imsi, asked: Option<int>) returns (chosen: seq<nat>)
      requires Valid()
      modifies this`pos
      ensures Valid()
      ensures var marks := Marks(db, imsi);
              chosen == if Rotation.Count(marks) == 0 then [] else Rotation.Stops(marks, old(pos), MaxChallenges(asked))
      ensures forall i :: 0 <= i < |chosen| ==> chosen[i] < |db| && db[chosen[i]].imsi == imsi
    {
      var max := MaxChallenges(asked);
      ghost var marks := Marks(db, imsi);
      chosen := [];
      while |chosen| < max
        invariant Valid() && |chosen| <= max
        invariant chosen != [] ==> Rotation.Count(marks) > 0
        invariant chosen == Rotation.Stops(marks, old(pos), |chosen|)
                  && pos == Rotation.After(marks, old(pos), |chosen|)
        decreases max - |chosen|
      {
        NoneIfUnmarked(db, imsi);
        var g := GetTriplet(imsi);
        if g.None? {
          break;
        }
        Rotation.StopsSnoc(marks, old(pos), |chosen|);
        chosen := chosen + [g.value];
      }
    }
  }

  lemma NoneIfUnmarked(db: seq<Triplet>, imsi: Imsi)
    ensures Rotation.Count(Marks(db, imsi)) == 0 <==> forall i :: 0 <= i < |db| ==> db[i].imsi != imsi
  {
    Rotation.NextFinds(Marks(db, imsi), 0);
  }

  /**
   As many consecutive requests for a subscriber as it has triplets give each of its triplets exactly once,
   wherever the cursor stands.
   */
  lemma EachTripletOnce(db: seq<Triplet>, imsi: Imsi, pos: nat)
    requires pos <= |db|
    ensures var marks := Marks(db, imsi); var s := Rotation.Stops(marks, pos, Rotation.Count(marks));
            && (forall i, j :: 0 <= i < j < |s| ==> s[i] != s[j])
            && forall k :: 0 <= k < |db| ==> (db[k].imsi == imsi <==> k in s)
  {
    Rotation.FullTurn(Marks(db, imsi), pos);
  }

  /** A response repeats no triplet if and only if the subscriber has as many triplets as the response holds. */
  lemma ResponseDistinct(db: seq<Triplet>, imsi: Imsi, pos: nat, asked: Option<int>)
    requires pos <= |db| && Rotation.Count(Marks(db, imsi)) > 0
    ensures var s := Rotation.Stops(Marks(db, imsi), pos, MaxChallenges(asked));
            (forall i, j :: 0 <= i < j < |s| ==> s[i] != s[j]) <==>
            MaxChallenges(asked) <= Rotation.Count(Marks(db, imsi))
  {
    Rotation.DistinctStops(Marks(db, imsi), pos, MaxChallenges(asked));
  }

  /** A subscriber with one triplet gets it again and again in the first response. */
  lemma OneTripletRepeats(a: Triplet)
    ensures var s := Rotation.Stops(Marks([a], a.imsi), 1, MaxChallenges(None)); s[0] == s[1]
  {
    var marks := Marks([a], a.imsi);
    assert marks[0];
    Rotation.NextFinds(marks, 0);
    Rotation.NextFinds(marks, 1);
  }

  // ---- requests of many subscribers ----

  /** The cursor after requests; one that finds nothing leaves it. */
  ghost function Cursor(db: seq<Triplet>, pos: nat, requests: seq<Imsi>): (p: nat)
    requires pos <= |db|
    ensures p <= |db|
  {
    if requests == [] then pos
    else
      var before := Cursor(db, pos, requests[..|requests| - 1]);
      var k := Rotation.Next(Marks(db, requests[|requests| - 1]), before);
      if k < |db| then k + 1 else before
  }

  /** The place of the triplet that a request gets; the length if it gets none. */
  ghost function Served(db: seq<Triplet>, pos: nat, requests: seq<Imsi>, i: nat): nat
    requires pos <= |db| && i < |requests|
  {
    Rotation.Next(Marks(db, requests[i]), Cursor(db, pos, requests[..i]))
  }

  /** In any run of requests a subscriber gets a triplet again if and only if none of its others
      lies between the cursor, wherever the requests in between left it, and that triplet. */
  lemma ComesAgain(db: seq<Triplet>, pos: nat, requests: seq<Imsi>, i: nat, j: nat)
    requires pos <= |db| && i < j < |requests| && requests[i] == requests[j]
    requires Served(db, pos, requests, i) < |db|
    ensures var g, c := Served(db, pos, requests, i), Cursor(db, pos, requests[..j]);
            Served(db, pos, requests, j) == g <==>
            forall x :: 0 <= x < |db| && Rotation.Between(c, x, g) ==> db[x].imsi != requests[i]
  {
    var marks, g, c := Marks(db, requests[i]), Served(db, pos, requests, i), Cursor(db, pos, requests[..j]);
    assert marks[g];
    Rotation.NextIs(marks, c, g);
  }

  /** Twice in a row, without other requests in between, only if it is the subscriber's only one. */
  lemma TwiceInARow(db: seq<Triplet>, pos: nat, requests: seq<Imsi>, i: nat)
    requires pos <= |db| && i + 1 < |requests| && requests[i] == requests[i + 1]
    requires Served(db, pos, requests, i) < |db|
    ensures var g := Served(db, pos, requests, i);
            Served(db, pos, requests, i + 1) == g <==> forall x :: 0 <= x < |db| && x != g ==> db[x].imsi != requests[i]
  {
    var g := Served(db, pos, requests, i);
    assert requests[..i + 1][..i] == requests[..i];
    assert Cursor(db, pos, requests[..i + 1]) == g + 1;
    ComesAgain(db, pos, requests, i, i + 1);
  }

  // ---- a window of requests ----

  /** Some requests of one subscriber, in order. */
  ghost predicate Window(requests: seq<Imsi>, imsi: Imsi, at: seq<nat>)
  {
    && (forall u :: 0 <= u < |at| ==> at[u] < |requests| && requests[at[u]] == imsi)
    && forall u, v :: 0 <= u < v < |at| ==> at[u] < at[v]
  }

  /** On the way from the cursor at the later request to the triplet of the earlier one lies another
      triplet of the subscriber. */
  ghost predicate Parted(db: seq<Triplet>, pos: nat, requests: seq<Imsi>, i: nat, j: nat)
    requires pos <= |db| && i < j < |requests|
  {
    exists x :: 0 <= x < |db| && db[x].imsi == requests[i]
                && Rotation.Between(Cursor(db, pos, requests[..j]), x, Served(db, pos, requests, i))
  }

  ghost predicate AllParted(db: seq<Triplet>, pos: nat, requests: seq<Imsi>, imsi: Imsi, at: seq<nat>)
    requires pos <= |db| && Window(requests, imsi, at)
  {
    forall u, v :: 0 <= u < v < |at| ==> Parted(db, pos, requests, at[u], at[v])
  }

  lemma PartedDiffer(db: seq<Triplet>, pos: nat, requests: seq<Imsi>, i: nat, j: nat)
    requires pos <= |db| && i < j < |requests| && requests[i] == requests[j]
    ensures Served(db, pos, requests, i) != Served(db, pos, requests, j) <==> Parted(db, pos, requests, i, j)
  {
    var marks := Marks(db, requests[i]);
    Rotation.NextFinds(marks, Cursor(db, pos, requests[..i]));
    Rotation.NextFinds(marks, Cursor(db, pos, requests[..j]));
    if Served(db, pos, requests, i) < |db| {
      ComesAgain(db, pos, requests, i, j);
    } else {
      assert forall x :: 0 <= x < |db| ==> !marks[x];
    }
  }

  /** The places of the triplets that the requests of a window get. */
  ghost function Gets(db: seq<Triplet>, pos: nat, requests: seq<Imsi>, imsi: Imsi, at: seq<nat>): (r: seq<nat>)
    requires pos <= |db| && Window(requests, imsi, at)
    ensures |r| == |at| && forall u :: 0 <= u < |at| ==> r[u] == Served(db, pos, requests, at[u])
  {
    seq(|at|, u requires 0 <= u < |at| => Served(db, pos, requests, at[u]))
  }

  /** In any run of mixed requests, any requests of a subscriber get different triplets if and only
      if each two of them are parted. */
  lemma WindowDistinct(db: seq<Triplet>, pos: nat, requests: seq<Imsi>, imsi: Imsi, at: seq<nat>)
    requires pos <= |db| && Window(requests, imsi, at)
    ensures Rotation.NoRepeats(Gets(db, pos, requests, imsi, at)) <==> AllParted(db, pos, requests, imsi, at)
  {
    forall u, v | 0 <= u < v < |at|
      ensures Served(db, pos, requests, at[u]) != Served(db, pos, requests, at[v]) <==>
              Parted(db, pos, requests, at[u], at[v])
    {
      PartedDiffer(db, pos, requests, at[u], at[v]);
    }
  }

  /** As many requests of a subscriber as it has triplets, with requests of others in between, get
      each of its triplets exactly once if and only if each two of them are parted. */
  lemma WindowFull(db: seq<Triplet>, pos: nat, requests: seq<Imsi>, imsi: Imsi, at: seq<nat>)
    requires pos <= |db| && Window(requests, imsi, at) && |at| == Rotation.Count(Marks(db, imsi))
    ensures var s := Gets(db, pos, requests, imsi, at);
            (Rotation.NoRepeats(s) && forall k :: 0 <= k < |db| ==> (db[k].imsi == imsi <==> k in s)) <==>
            AllParted(db, pos, requests, imsi, at)
  {
    var marks, s := Marks(db, imsi), Gets(db, pos, requests, imsi, at);
    WindowDistinct(db, pos, requests, imsi, at);
    forall u | 0 <= u < |s|
      ensures s[u] < |db| && marks[s[u]]
    {
      Rotation.NextFinds(marks, Cursor(db, pos, requests[..at[u]]));
    }
    if Rotation.NoRepeats(s) {
      Rotation.AsManyAsMarks(marks, s);
    }
  }

  /** A request for another subscriber in between can make the same triplet come twice running. */
  lemma OthersDisturb(a: Triplet, a': Triplet, b: Triplet)
    requires a.imsi == a'.imsi != b.imsi
    ensures var db, rs := [a, a', b], [a.imsi, b.imsi, a.imsi];
            Served(db, |db|, rs, 0) == 0 && Served(db, |db|, rs, 2) == 0
  {
    var db, rs := [a, a', b], [a.imsi, b.imsi, a.imsi];
    var mine, theirs := Marks(db, a.imsi), Marks(db, b.imsi);
    assert mine[0] && mine[1] && !mine[2] && !theirs[0] && !theirs[1] && theirs[2];
    assert rs[..0] == [] && rs[..1] == [a.imsi] && rs[..2] == [a.imsi, b.imsi];
    assert [a.imsi][..0] == [] && [a.imsi, b.imsi][..1] == [a.imsi];
    assert Cursor(db, 3, [a.imsi]) == 1;
    assert Cursor(db, 3, [a.imsi, b.imsi]) == 3;
  }
}
