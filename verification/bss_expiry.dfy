/**
 Expiry seen from outside the table: which completed scans an entry missed is read off the history
 of operations alone, and the stored counts and removals are shown to agree with it.
 */
module BssExpiry {

  import opened Wrappers
  import opened BssModel
  import opened BssTerms
  import opened BssInvariant
  import opened BssRuns

  /** A result that creates or refreshes the entry with the given id. */
  predicate Reports(t: Table, op: Op, id: nat)
  {
    op.Result? &&
    match FiledUnder(t.cfg, op.res, op.fetch)
    case None => false
    case Some(ssid) =>
      var k := Target(t, op.res.bssid, ssid);
      if k < |t.bss| then t.bss[k].id == id else !op.alloc.NoMemory? && id == t.nextId
  }

  /** Reported since the round began. */
  predicate SeenThisRound(t: Table, ops: seq<Op>, id: nat)
  {
    if ops == [] then false
    else
      var last, before := ops[|ops| - 1], ops[..|ops| - 1];
      !last.Begin? && (Reports(Run(t, before), last, id) || SeenThisRound(t, before, id))
  }

  /** The entry is in the table, idle and covered by the scan. */
  ghost predicate Expected(t: Table, info: Option<ScanInfo>, id: nat)
  {
    exists i :: 0 <= i < |t.bss| && t.bss[i].id == id && Idle(t, t.bss[i]) && Scanned(info, t.bss[i])
  }

  /** The last operation finishes a new scan that should have seen the entry and did not. */
  ghost predicate MissedByLast(t: Table, ops: seq<Op>, id: nat)
    requires ops != []
  {
    var last, before := ops[|ops| - 1], ops[..|ops| - 1];
    && last.Finish? && Completed(last.info, last.newScan)
    && Expected(Run(t, before), last.info, id) && !SeenThisRound(t, before, id)
  }

  /** How many finished scans missed the entry since it was last reported. */
  ghost function MissedScans(t: Table, ops: seq<Op>, id: nat): nat
  {
    if ops == [] then 0
    else
      var last, before := ops[|ops| - 1], ops[..|ops| - 1];
      if Reports(Run(t, before), last, id) then 0
      else MissedScans(t, before, id) + if MissedByLast(t, ops, id) then 1 else 0
  }

  // ---- one step ----

  /** Where an entry of the new state comes from. */
  ghost predicate ComesFrom(t: Table, op: Op, e': Entry, i: nat)
  {
    && i < |t.bss| && e' == t.bss[i].(scanMiss := e'.scanMiss)
    && e'.scanMiss == t.bss[i].scanMiss +
                      (if op.Finish? && Completed(op.info, op.newScan) && Idle(t, t.bss[i])
                          && Scanned(op.info, t.bss[i]) && t.bss[i].lastUpdateIdx < t.updateIdx then 1 else 0)
  }

  ghost predicate Explained(t: Table, op: Op, e': Entry)
  {
    if Reports(t, op, e'.id) then e'.scanMiss == 0 && e'.lastUpdateIdx == t.updateIdx
    else exists i :: ComesFrom(t, op, e', i)
  }

  lemma SurvivorFrom(t: Table, info: Option<ScanInfo>, j: nat) returns (i: nat)
    requires j < |Survivors(t, info, t.bss)|
    ensures i < |t.bss| && Survivors(t, info, t.bss)[j] == Charged(t, info, t.bss[i])
  {
    var m := SurvivorsSelect(t, info);
    i := m[j];
  }

  lemma FinishExplained(t: Table, op: Op, j: nat)
    requires Inv(t) && op.Finish? && j < |Step(t, op).bss|
    ensures Explained(t, op, Step(t, op).bss[j])
  {
    var e' := Step(t, op).bss[j];
    if Completed(op.info, op.newScan) {
      var i := SurvivorFrom(t, op.info, j);
      ExaminedIs(t, op.info, t.bss[i]);
      assert ComesFrom(t, op, e', i);
    } else {
      assert ComesFrom(t, op, e', j);
    }
  }

  lemma FlushExplained(t: Table, op: Op, j: nat)
    requires Inv(t) && (op.FlushAll? || op.FlushOld?) && j < |Step(t, op).bss|
    ensures Explained(t, op, Step(t, op).bss[j])
  {
    var m: seq<nat>;
    if op.FlushAll? {
      m := SiftSelects(t.bss, e => !InUse(t.current, t.cfg, e), e => e);
    } else {
      m := YoungerSelects(t, op.limit, t.bss);
    }
    assert ComesFrom(t, op, Step(t, op).bss[j], m[j]);
  }

  /** Where the entries come from that stay when room is made. */
  lemma PreparedFrom(t: Table, j: nat) returns (i: nat)
    requires j < |Prepared(t).bss|
    ensures i < |t.bss| && Prepared(t).bss[j] == t.bss[i]
  {
    var k := Evictee(t);
    i := if |t.bss| + 1 > t.maxCount && k < |t.bss| && j >= k then j + 1 else j;
  }

  lemma UpdateExplained(t: Table, op: Op, k: nat, j: nat)
    requires Inv(t) && op.Result? && k < |t.bss| && j < |t.bss|
    requires Reports(t, op, t.bss[k].id)
    ensures var bss := Update(t, k, op.res, op.fetch, op.alloc).bss; |bss| == |t.bss| && Explained(t, op, bss[j])
  {
    UpdateAt(t, k, op.res, op.fetch, op.alloc);
    if j < |t.bss| - 1 {
      var i := if j < k then j else j + 1;
      assert Update(t, k, op.res, op.fetch, op.alloc).bss[j] == t.bss[i];
      assert ComesFrom(t, op, t.bss[i], i);
    }
  }

  lemma AddExplained(t: Table, op: Op, ssid: Ssid, j: nat)
    requires Inv(t) && op.Result? && j < |Add(t, ssid, op.res, op.fetch).bss|
    requires Reports(t, op, t.nextId)
    ensures Explained(t, op, Add(t, ssid, op.res, op.fetch).bss[j])
  {
    if j < |Prepared(t).bss| {
      var i := PreparedFrom(t, j);
      assert Add(t, ssid, op.res, op.fetch).bss[j] == t.bss[i];
      assert ComesFrom(t, op, t.bss[i], i);
    } else {
      assert Add(t, ssid, op.res, op.fetch).bss[j] == NewEntry(t, ssid, op.res, op.fetch);
    }
  }

  lemma ResultExplained(t: Table, op: Op, j: nat)
    requires Inv(t) && op.Result? && j < |Step(t, op).bss|
    ensures Explained(t, op, Step(t, op).bss[j])
  {
    match FiledUnder(t.cfg, op.res, op.fetch)
    case None =>
      assert ComesFrom(t, op, t.bss[j], j);
    case Some(ssid) =>
      var k := Target(t, op.res.bssid, ssid);
      if k < |t.bss| {
        UpdateExplained(t, op, k, j);
      } else if op.alloc.NoMemory? {
        assert ComesFrom(t, op, t.bss[j], j);
      } else {
        AddExplained(t, op, ssid, j);
      }
  }

  /** Every entry of the next state is reported by the step, or was there with the count explained. */
  lemma StepExplained(t: Table, op: Op, j: nat)
    requires Inv(t) && j < |Step(t, op).bss|
    ensures Explained(t, op, Step(t, op).bss[j])
  {
    if op.Finish? {
      FinishExplained(t, op, j);
    } else if op.FlushAll? || op.FlushOld? {
      FlushExplained(t, op, j);
    } else if op.Result? {
      ResultExplained(t, op, j);
    } else {
      assert ComesFrom(t, op, Step(t, op).bss[j], j);
    }
  }

  // ---- the history ----

  /** The stamp and the count of an entry say what the history says. */
  ghost predicate Agrees(t0: Table, ops: seq<Op>, e: Entry)
  {
    && (e.lastUpdateIdx == Run(t0, ops).updateIdx <==> SeenThisRound(t0, ops, e.id))
    && e.scanMiss == MissedScans(t0, ops, e.id)
  }

  ghost predicate AllAgree(t0: Table, ops: seq<Op>)
  {
    var t := Run(t0, ops);
    forall j :: 0 <= j < |t.bss| ==> Agrees(t0, ops, t.bss[j])
  }

  /** For every run from the empty table, counts and stamps agree with the history. */
  lemma {:induction false} HistoryAgrees(t0: Table, ops: seq<Op>)
    requires t0.bss == [] && Inv(t0) && SoundRun(t0, ops)
    ensures AllAgree(t0, ops)
  {
    if ops != [] {
      var last, before := ops[|ops| - 1], ops[..|ops| - 1];
      var t := Run(t0, before);
      RunKeepsInv(t0, before);
      HistoryAgrees(t0, before);
      forall j | 0 <= j < |Run(t0, ops).bss|
        ensures Agrees(t0, ops, Run(t0, ops).bss[j])
      {
        StepAgrees(t0, ops, j);
      }
    }
  }

  lemma StepAgrees(t0: Table, ops: seq<Op>, j: nat)
    requires ops != [] && j < |Run(t0, ops).bss|
    requires Inv(Run(t0, ops[..|ops| - 1])) && AllAgree(t0, ops[..|ops| - 1])
    ensures Agrees(t0, ops, Run(t0, ops).bss[j])
  {
    var last, before := ops[|ops| - 1], ops[..|ops| - 1];
    var t, e' := Run(t0, before), Run(t0, ops).bss[j];
    StepExplained(t, last, j);
    StepIndex(t, last);
    if !Reports(t, last, e'.id) {
      var i :| ComesFrom(t, last, e', i);
      ExpectedIsExamined(t, last, i);
    }
  }

  lemma StepIndex(t: Table, op: Op)
    ensures Step(t, op).updateIdx == if op.Begin? then t.updateIdx + 1 else t.updateIdx
  {
  }

  lemma ExpectedIsExamined(t: Table, op: Op, i: nat)
    requires Inv(t) && i < |t.bss|
    ensures op.Finish? ==>
              (Expected(t, op.info, t.bss[i].id) <==> Idle(t, t.bss[i]) && Scanned(op.info, t.bss[i]))
  {
  }

  // ---- expiry ----

  ghost predicate Present(t: Table, id: nat)
  {
    exists i :: 0 <= i < |t.bss| && t.bss[i].id == id
  }

  lemma FinishRemoves(t: Table, info: Option<ScanInfo>, newScan: bool, i: nat)
    requires Inv(t) && i < |t.bss|
    ensures Present(End(t, info, newScan), t.bss[i].id) <==> !(Completed(info, newScan) && Expires(t, info, t.bss[i]))
  {
    if Completed(info, newScan) {
      var s := Survivors(t, info, t.bss);
      if !Expires(t, info, t.bss[i]) {
        SurvivorsComplete(t, info, i);
        var j :| 0 <= j < |s| && s[j] == Charged(t, info, t.bss[i]);
        assert s[j].id == t.bss[i].id;
      } else {
        var m := SurvivorsSelect(t, info);
        forall j | 0 <= j < |s|
          ensures s[j].id != t.bss[i].id
        {
          assert m[j] != i && s[j].id == t.bss[m[j]].id;
        }
      }
    }
  }

  /**
   What the end of a new and complete scan does to an entry. One that is idle and should have been seen
   has a miss more if it was not, and is gone if that makes too many; any other stays as it is.
   */
  lemma EndDoes(t: Table, info: Option<ScanInfo>, i: nat)
    requires Inv(t) && i < |t.bss| && (info.Some? ==> !info.value.aborted)
    ensures var e, t' := t.bss[i], End(t, info, true);
            var misses := if e.lastUpdateIdx == t.updateIdx then e.scanMiss else e.scanMiss + 1;
            if Idle(t, e) && Scanned(info, e) then
              if misses >= t.expireCount then !Present(t', e.id) else e.(scanMiss := misses) in t'.bss
            else e in t'.bss
  {
    ExaminedIs(t, info, t.bss[i]);
    FinishRemoves(t, info, true, i);
    if !Expires(t, info, t.bss[i]) {
      SurvivorsComplete(t, info, i);
    }
  }

  /** A scan that was aborted or is not new changes nothing. */
  lemma EndWithout(t: Table, info: Option<ScanInfo>, newScan: bool)
    requires !newScan || (info.Some? && info.value.aborted)
    ensures End(t, info, newScan) == t
  {
  }

  /**
   Over every run from the empty table, whatever the expiration count was set to and when, the end of a
   round removes an entry exactly when it is idle, the scan is new, complete and covers it, and with this
   one it has missed at least as many such scans in a row as the count says now. With the count zero
   being seen does not help.
   */
  lemma ExpiryIsExact(t0: Table, ops: seq<Op>, info: Option<ScanInfo>, newScan: bool, i: nat)
    requires t0.bss == [] && Inv(t0) && SoundRun(t0, ops)
    requires i < |Run(t0, ops).bss|
    ensures var t := Run(t0, ops); var id := t.bss[i].id;
            Present(End(t, info, newScan), id) <==>
            !(&& newScan && (info.Some? ==> !info.value.aborted) && Idle(t, t.bss[i]) && Scanned(info, t.bss[i])
              && if SeenThisRound(t0, ops, id) then t.expireCount == 0
                 else MissedScans(t0, ops, id) + 1 >= t.expireCount)
  {
    var t := Run(t0, ops);
    RunKeepsInv(t0, ops);
    HistoryAgrees(t0, ops);
    FinishRemoves(t, info, newScan, i);
    ExaminedIs(t, info, t.bss[i]);
    assert Agrees(t0, ops, t.bss[i]);
  }
}
