/**
 The authentication centre: requests and resynchronisations of many subscribers, in any order.
 */
module Aka {
  import opened Bytes
  import opened Sqn

  // ---- the stored numbers as a value ----

  datatype Account = Account(imsi: string, sqn: nat)

  /** `ok` says that random numbers could be had, or that the token of a resynchronisation is valid. */
  datatype Event = Request(imsi: string, ok: bool) | Resync(imsi: string, ok: bool, sqn: nat)

  ghost predicate InRange(db: seq<Account>)
  {
    forall i :: 0 <= i < |db| ==> db[i].sqn < LIMIT
  }

  ghost predicate Proper(es: seq<Event>)
  {
    forall i :: 0 <= i < |es| && es[i].Resync? ==> es[i].sqn < LIMIT
  }

  /** The first account of a subscriber; the length if there is none. */
  function Lookup(db: seq<Account>, imsi: string): (k: nat)
    ensures k <= |db| && (k < |db| ==> db[k].imsi == imsi)
    ensures forall i :: 0 <= i < k ==> db[i].imsi != imsi
  {
    if db == [] then 0 else if db[0].imsi == imsi then 0 else 1 + Lookup(db[1..], imsi)
  }

  /** The event takes effect, and on this account. */
  predicate Hits(db: seq<Account>, e: Event, k: nat)
  {
    e.ok && Lookup(db, e.imsi) == k
  }

  function Apply(db: seq<Account>, e: Event, indLen: nat): (r: seq<Account>)
    requires indLen <= 30 && InRange(db) && (e.Resync? ==> e.sqn < LIMIT)
    ensures |r| == |db| && InRange(r)
    ensures forall i :: 0 <= i < |db| ==> r[i].imsi == db[i].imsi
  {
    var k := Lookup(db, e.imsi);
    if k == |db| || !e.ok then db
    else db[k := db[k].(sqn := if e.Request? then Next(db[k].sqn, indLen) else e.sqn)]
  }

  function Run(db: seq<Account>, es: seq<Event>, indLen: nat): (r: seq<Account>)
    requires indLen <= 30 && InRange(db) && Proper(es)
    ensures |r| == |db| && InRange(r)
    ensures forall i :: 0 <= i < |db| ==> r[i].imsi == db[i].imsi
  {
    if es == [] then db else Apply(Run(db, es[..|es| - 1], indLen), es[|es| - 1], indLen)
  }

  /** Accounts are found in the same place as long as their subscribers are the same. */
  lemma {:induction false} SameLookup(a: seq<Account>, b: seq<Account>, imsi: string)
    requires |a| == |b| && forall i :: 0 <= i < |a| ==> a[i].imsi == b[i].imsi
    ensures Lookup(a, imsi) == Lookup(b, imsi)
  {
    if a != [] {
      SameLookup(a[1..], b[1..], imsi);
    }
  }

  lemma {:induction false} LookupIs(db: seq<Account>, imsi: string, k: nat)
    requires k <= |db| && (forall i :: 0 <= i < k ==> db[i].imsi != imsi) && (k < |db| ==> db[k].imsi == imsi)
    ensures Lookup(db, imsi) == k
  {
    if k > 0 {
      LookupIs(db[1..], imsi, k - 1);
    }
  }

  // ---- the history of an account ----

  /** The number an account was last resynchronised to, or had at first. */
  ghost function Base(db: seq<Account>, es: seq<Event>, k: nat): nat
    requires k < |db|
  {
    if es == [] then db[k].sqn
    else
      var last := es[|es| - 1];
      if last.Resync? && Hits(db, last, k) then last.sqn else Base(db, es[..|es| - 1], k)
  }

  lemma {:induction false} BaseInRange(db: seq<Account>, es: seq<Event>, k: nat)
    requires k < |db| && InRange(db) && Proper(es)
    ensures Base(db, es, k) < LIMIT
  {
    if es != [] {
      BaseInRange(db, es[..|es| - 1], k);
    }
  }

  /** The numbers issued from an account since it was last resynchronised. */
  ghost function Issued(db: seq<Account>, es: seq<Event>, k: nat, indLen: nat): seq<nat>
    requires k < |db| && indLen <= 30 && InRange(db) && Proper(es)
  {
    if es == [] then []
    else
      var last, before := es[|es| - 1], es[..|es| - 1];
      if !Hits(db, last, k) then Issued(db, before, k, indLen)
      else if last.Resync? then []
      else Issued(db, before, k, indLen) + [Run(db, es, indLen)[k].sqn]
  }

  /** The first so many numbers after a base. */
  ghost predicate Follow(base: nat, issued: seq<nat>, indLen: nat)
    requires indLen <= 30 && base < LIMIT
  {
    forall i :: 0 <= i < |issued| ==> issued[i] == Steps(base, indLen, i + 1)
  }

  lemma RunStep(db: seq<Account>, es: seq<Event>, k: nat, indLen: nat)
    requires es != [] && k < |db| && indLen <= 30 && InRange(db) && Proper(es)
    ensures var last, before := es[|es| - 1], Run(db, es[..|es| - 1], indLen)[k].sqn;
            Run(db, es, indLen)[k].sqn ==
              if !Hits(db, last, k) then before else if last.Resync? then last.sqn else Next(before, indLen)
  {
    var before := Run(db, es[..|es| - 1], indLen);
    SameLookup(db, before, es[|es| - 1].imsi);
  }

  /** Whatever other subscribers do, an account holds the number that follows its last
      resynchronisation by as many steps as it issued since. */
  lemma {:induction false} AccountFollows(db: seq<Account>, es: seq<Event>, k: nat, indLen: nat)
    requires k < |db| && indLen <= 30 && InRange(db) && Proper(es)
    ensures Base(db, es, k) < LIMIT && Follow(Base(db, es, k), Issued(db, es, k, indLen), indLen)
    ensures Run(db, es, indLen)[k].sqn == Steps(Base(db, es, k), indLen, |Issued(db, es, k, indLen)|)
  {
    BaseInRange(db, es, k);
    if es != [] {
      AccountFollows(db, es[..|es| - 1], k, indLen);
      RunStep(db, es, k, indLen);
      var last, before := es[|es| - 1], Issued(db, es[..|es| - 1], k, indLen);
      if last.Request? && Hits(db, last, k) {
        FollowOn(Base(db, es, k), before, indLen);
      }
    }
  }

  lemma FollowOn(base: nat, issued: seq<nat>, indLen: nat)
    requires indLen <= 30 && base < LIMIT && Follow(base, issued, indLen)
    ensures Follow(base, issued + [Next(Steps(base, indLen, |issued|), indLen)], indLen)
  {
    assert Steps(base, indLen, |issued| + 1) == Next(Steps(base, indLen, |issued|), indLen);
  }

  // ---- fresh numbers ----

  /** Every number is above the base and above the ones issued before it. */
  ghost predicate Rising(base: nat, issued: seq<nat>)
  {
    && (forall i :: 0 <= i < |issued| ==> base < issued[i])
    && forall i, j :: 0 <= i < j < |issued| ==> issued[i] < issued[j]
  }

  lemma FollowingRises(base: nat, issued: seq<nat>, indLen: nat)
    requires indLen <= 30 && base < LIMIT && Follow(base, issued, indLen)
    ensures Rising(base, issued) <==> Sqn.Seq(base, indLen) + |issued| < SeqLimit(indLen)
  {
    var s, m, n := Sqn.Seq(base, indLen), SeqLimit(indLen), |issued|;
    SeqInRange(base, indLen);
    if s + n < m {
      forall i | 0 <= i < n
        ensures base < issued[i]
      {
        RunIncreases(base, indLen, 0, i + 1);
      }
      forall i, j | 0 <= i < j < n
        ensures issued[i] < issued[j]
      {
        RunIncreases(base, indLen, i + 1, j + 1);
      }
    } else {
      StallsAt(base, issued, indLen, m - 1 - s);
    }
  }

  lemma StallsAt(base: nat, issued: seq<nat>, indLen: nat, i: nat)
    requires indLen <= 30 && base < LIMIT && Follow(base, issued, indLen)
    requires i < |issued| && Sqn.Seq(base, indLen) + i == SeqLimit(indLen) - 1
    ensures !Rising(base, issued)
  {
    LastSeqFalls(base, indLen, i);
    assert issued[i] == Steps(base, indLen, i + 1);
    if i == 0 {
      assert Steps(base, indLen, 0) == base;
    } else {
      assert issued[i - 1] == Steps(base, indLen, i);
    }
  }

  /** The number after the one with the last SEQ is not larger. */
  lemma LastSeqFalls(base: nat, indLen: nat, i: nat)
    requires indLen <= 30 && base < LIMIT && Sqn.Seq(base, indLen) + i == SeqLimit(indLen) - 1
    ensures Steps(base, indLen, i + 1) <= Steps(base, indLen, i)
  {
    StepsSplit(base, indLen, i);
    DivMod(0, Sqn.Seq(base, indLen) + i, SeqLimit(indLen));
    NextIncreases(Steps(base, indLen, i), indLen);
  }

  /** In every interleaving of requests and resynchronisations, the numbers issued to a subscriber
      since its last resynchronisation rise above it and above each other if and only if its SEQ
      had room for them. */
  lemma IssuedRise(db: seq<Account>, es: seq<Event>, k: nat, indLen: nat)
    requires k < |db| && indLen <= 30 && InRange(db) && Proper(es)
    ensures Rising(Base(db, es, k), Issued(db, es, k, indLen)) <==>
            Sqn.Seq(Base(db, es, k), indLen) + |Issued(db, es, k, indLen)| < SeqLimit(indLen)
  {
    AccountFollows(db, es, k, indLen);
    FollowingRises(Base(db, es, k), Issued(db, es, k, indLen), indLen);
  }

  /** Some events, a resynchronisation, and some more. */
  ghost function Since(es: seq<Event>, resync: Event, others: seq<Event>): (r: seq<Event>)
    ensures |r| == |es| + 1 + |others| && r[|es|] == resync
  {
    es + [resync] + others
  }

  /** A request that follows a resynchronisation, with only other subscribers' events between them,
      issues a larger number if and only if the SEQ is not the last. */
  lemma {:induction false} ResyncThenRequest(db: seq<Account>, es: seq<Event>, resync: Event, others: seq<Event>,
                                             request: Event, indLen: nat)
    requires indLen <= 30 && InRange(db) && Proper(Since(es, resync, others))
    requires resync.Resync? && request == Request(resync.imsi, true) && resync.ok && Lookup(db, resync.imsi) < |db|
    requires forall i :: 0 <= i < |others| ==> others[i].imsi != resync.imsi
    ensures Proper(Since(es, resync, others) + [request])
    ensures Run(db, Since(es, resync, others) + [request], indLen)[Lookup(db, resync.imsi)].sqn > resync.sqn <==>
            Sqn.Seq(resync.sqn, indLen) + 1 < SeqLimit(indLen)
  {
    OthersPass(db, es, resync, others, indLen);
    RequestSteps(db, Since(es, resync, others), request, indLen);
    NextIncreases(resync.sqn, indLen);
  }

  lemma RequestSteps(db: seq<Account>, es: seq<Event>, request: Event, indLen: nat)
    requires indLen <= 30 && InRange(db) && Proper(es)
    requires request.Request? && request.ok && Lookup(db, request.imsi) < |db|
    ensures var k := Lookup(db, request.imsi);
            Proper(es + [request]) && Run(db, es + [request], indLen)[k].sqn == Next(Run(db, es, indLen)[k].sqn, indLen)
  {
    RunStep(db, es + [request], Lookup(db, request.imsi), indLen);
    assert (es + [request])[..|es|] == es;
  }

  lemma {:induction false} OthersPass(db: seq<Account>, es: seq<Event>, resync: Event, others: seq<Event>, indLen: nat)
    requires indLen <= 30 && InRange(db) && Proper(Since(es, resync, others))
    requires resync.Resync? && resync.ok && Lookup(db, resync.imsi) < |db|
    requires forall i :: 0 <= i < |others| ==> others[i].imsi != resync.imsi
    ensures Run(db, Since(es, resync, others), indLen)[Lookup(db, resync.imsi)].sqn == resync.sqn
    decreases |others|
  {
    var k, run := Lookup(db, resync.imsi), Since(es, resync, others);
    if others == [] {
      assert run == es + [resync] && run[..|es|] == es;
    } else {
      var fewer := others[..|others| - 1];
      assert run[..|run| - 1] == Since(es, resync, fewer);
      OthersPass(db, es, resync, fewer, indLen);
      assert Lookup(db, others[|others| - 1].imsi) != k;
    }
    RunStep(db, run, k, indLen);
  }

  // ---- in memory ----

  class Subscriber {
    const imsi: string
    const sqn: array<byte>

    constructor (imsi: string, sqn: array<byte>)
      ensures this.imsi == imsi && this.sqn == sqn
    {
      this.imsi, this.sqn := imsi, sqn;
    }
  }

  class AuthCentre {
    const subscribers: seq<Subscriber>
    const indLen: nat

    ghost predicate Valid()
    {
      && indLen <= 30
      && (forall i :: 0 <= i < |subscribers| ==> subscribers[i].sqn.Length == 6)
      && forall i, j :: 0 <= i < j < |subscribers| ==> subscribers[i].sqn != subscribers[j].sqn
    }

    constructor (subs: seq<Subscriber>, bits: nat)
      requires bits <= 30 && forall i :: 0 <= i < |subs| ==> subs[i].sqn.Length == 6
      requires forall i, j :: 0 <= i < j < |subs| ==> subs[i].sqn != subs[j].sqn
      ensures Valid() && subscribers == subs && indLen == bits
    {
      subscribers, indLen := subs, bits;
    }

    /** The stored SQNs. */
    ghost function Arrays(): set<array<byte>>
    {
      set i | 0 <= i < |subscribers| :: subscribers[i].sqn
    }

    ghost function View(): (db: seq<Account>)
      requires Valid()
      reads Arrays()
      ensures |db| == |subscribers| && InRange(db)
      ensures forall i :: 0 <= i < |db| ==> db[i] == Account(subscribers[i].imsi, Value(subscribers[i].sqn[..]))
    {
      seq(|subscribers|, i requires 0 <= i < |subscribers| reads Arrays() =>
        Account(subscribers[i].imsi, Value(subscribers[i].sqn[..])))
    }

    method Find(imsi: string) returns (k: nat)
      requires Valid()
      ensures k == Lookup(View(), imsi)
    {
      k := 0;
      while k < |subscribers| && subscribers[k].imsi != imsi
        invariant k <= |subscribers| && forall i :: 0 <= i < k ==> subscribers[i].imsi != imsi
      {
        k := k + 1;
      }
      LookupIs(View(), imsi, k);
    }

    /** Issue an authentication vector; `issued` is the SQN of the first account of the subscriber. */
    method AkaReqAuth(imsi: string, randomOk: bool) returns (k: nat, issued: nat)
      requires Valid()
      modifies Arrays()
      ensures k == Lookup(old(View()), imsi) && View() == Apply(old(View()), Request(imsi, randomOk), indLen)
      ensures k < |subscribers| && randomOk ==> issued == View()[k].sqn
    {
      k := Find(imsi);
      issued := 0;
      ghost var was := View();
      if k < |subscribers| && randomOk {
        IncSqn(subscribers[k].sqn, indLen);
        issued := Value(subscribers[k].sqn[..]);
        assert forall i :: 0 <= i < |was| && i != k ==> View()[i] == was[i];
      }
    }

    static method Store(a: array<byte>, sqn: seq<byte>)
      requires a.Length == |sqn|
      modifies a
      ensures a[..] == sqn
    {
      forall i | 0 <= i < |sqn| {
        a[i] := sqn[i];
      }
    }

    /** Resynchronise: the SQN of the subscriber becomes the one in a request with a correct MAC. */
    method AkaAuts(imsi: string, macOk: bool, sqn: seq<byte>) returns (k: nat)
      requires Valid() && |sqn| == 6
      modifies Arrays()
      ensures k == Lookup(old(View()), imsi) && View() == Apply(old(View()), Resync(imsi, macOk, Value(sqn)), indLen)
    {
      k := Find(imsi);
      ghost var was := View();
      if k < |subscribers| && macOk {
        Store(subscribers[k].sqn, sqn);
        assert forall i :: 0 <= i < |was| && i != k ==> View()[i] == was[i];
      }
    }
  }
}
