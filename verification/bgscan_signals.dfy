/**
 The simple background scan module seen from outside: which interval is in force, when the last scan
 was and when the next one is due, read off the events.
 */
module BgscanSignals {
  import opened Wrappers
  import opened BgscanSimple

  /** The state after the first so many events. */
  ghost function After(c: Config, s: State, es: Trace, i: nat): State
    requires c.Valid() && i <= |es|
  {
    Run(c, s, es[..i])
  }

  lemma {:induction false} RunSnoc(c: Config, s: State, es: Trace)
    requires c.Valid() && es != []
    ensures var n := |es| - 1; Run(c, s, es) == Step(c, Run(c, s, es[..n]), es[n].0, es[n].1)
    decreases |es|
  {
    if |es| > 1 {
      var t, rest := Step(c, s, es[0].0, es[0].1), es[1..];
      RunSnoc(c, t, rest);
      assert rest[..|rest| - 1] == es[..|es| - 1][1..];
    }
  }

  lemma AfterStep(c: Config, s: State, es: Trace, i: nat)
    requires c.Valid() && i < |es|
    ensures After(c, s, es, i + 1) == Step(c, After(c, s, es, i), es[i].0, es[i].1)
  {
    RunSnoc(c, s, es[..i + 1]);
    assert es[..i + 1][..i] == es[..i];
  }

  // ---- the interval ----

  /** The first p events end with the last signal, or p is zero and there is none. The signal was, or
      at first is, weak or not. */
  ghost predicate LastSignal(es: Trace, n: nat, p: nat, weak: bool, weakAtFirst: bool)
    requires n <= |es|
  {
    && p <= n && (forall j :: p <= j < n ==> !es[j].0.Signal?)
    && if p == 0 then weak == weakAtFirst else es[p - 1].0 == Signal(!weak)
  }

  /** A scan that goes over the budget for scans at the short interval. */
  ghost predicate Overruns(c: Config, s: State, e: Event)
    requires c.Valid()
  {
    e == Fire(true) && s.timers != [] && s.count > c.long / c.short
  }

  /** The signal at first: too weak, or not known. */
  ghost predicate Weak(c: Config, signal: Option<int>)
  {
    signal.None? || signal.value < c.threshold
  }

  /** With two intervals and a threshold, the short interval is in force exactly if the signal was weak
      when it was last heard of, and no scan since then went over the budget. */
  lemma {:induction false} IntervalIs(c: Config, now: int, signal: Option<int>, es: Trace, n: nat, p: nat, weak: bool)
    requires c.Valid() && c.short != c.long && c.threshold != 0 && n <= |es|
    requires LastSignal(es, n, p, weak, Weak(c, signal))
    ensures var s := Started(c, now, signal);
            After(c, s, es, n).interval == c.short <==>
            weak && forall j :: p <= j < n ==> !Overruns(c, After(c, s, es, j), es[j].0)
    ensures After(c, Started(c, now, signal), es, n).interval in {c.short, c.long}
    decreases n
  {
    var s := Started(c, now, signal);
    if n > 0 {
      var i := n - 1;
      AfterStep(c, s, es, i);
      if p == n {
        EitherInterval(c, now, signal, es, i);
      } else {
        IntervalIs(c, now, signal, es, i, p, weak);
      }
    }
  }

  lemma EitherInterval(c: Config, now: int, signal: Option<int>, es: Trace, i: nat)
    requires c.Valid() && i <= |es|
    ensures var t := After(c, Started(c, now, signal), es, i); t.interval == c.short || t.interval == c.long
  {
    RunKeeps(c, Started(c, now, signal), es[..i]);
  }

  /** There always is a last signal or none. */
  lemma {:induction false} SomeLastSignal(es: Trace, n: nat, weakAtFirst: bool) returns (p: nat, weak: bool)
    requires n <= |es|
    ensures LastSignal(es, n, p, weak, weakAtFirst)
    decreases n
  {
    if n == 0 {
      p, weak := 0, weakAtFirst;
    } else if es[n - 1].0.Signal? {
      p, weak := n, !es[n - 1].0.above;
    } else {
      p, weak := SomeLastSignal(es, n - 1, weakAtFirst);
    }
  }

  /** Once the signal is strong there is no scan at the short interval before it is weak again. */
  lemma StrongMeansLong(c: Config, now: int, signal: Option<int>, es: Trace, i: nat, n: nat)
    requires c.Valid() && c.short != c.long && c.threshold != 0 && i < n < |es| && es[i].0 == Signal(true)
    requires forall j :: i < j < n ==> es[j].0 != Signal(false)
    ensures var t := After(c, Started(c, now, signal), es, n);
            t.interval == c.long && !ShortScan(c, t, es[n].0)
  {
    var p, weak := SomeLastSignal(es, n, Weak(c, signal));
    assert p > i && !weak;
    IntervalIs(c, now, signal, es, n, p, weak);
    EitherInterval(c, now, signal, es, n);
  }

  // ---- the last scan ----

  /** A scan was triggered. */
  ghost predicate Scans(c: Config, s: State, e: Event)
  {
    e == Fire(true) && s.timers != []
  }

  /** The time kept is that of the last scan, or of the start. */
  lemma {:induction false} LastIs(c: Config, s: State, es: Trace, n: nat, k: nat)
    requires c.Valid() && k < n <= |es| && Scans(c, After(c, s, es, k), es[k].0)
    requires forall j :: k < j < n ==> !Scans(c, After(c, s, es, j), es[j].0)
    ensures After(c, s, es, n).last == es[k].1
    decreases n
  {
    AfterStep(c, s, es, n - 1);
    if k < n - 1 {
      LastIs(c, s, es, n - 1, k);
    }
  }

  lemma {:induction false} LastIsStart(c: Config, now: int, signal: Option<int>, es: Trace, n: nat)
    requires c.Valid() && n <= |es|
    requires var s := Started(c, now, signal); forall j :: 0 <= j < n ==> !Scans(c, After(c, s, es, j), es[j].0)
    ensures After(c, Started(c, now, signal), es, n).last == now
    decreases n
  {
    if n > 0 {
      AfterStep(c, Started(c, now, signal), es, n - 1);
      LastIsStart(c, now, signal, es, n - 1);
    }
  }

  // ---- when the next scan is due ----

  /** Weak while at the long interval: there was no scan for more than a second, and budget is left. */
  ghost predicate AtOnce(c: Config, s: State, now: int)
    requires c.Valid()
  {
    if s.interval == c.long then now > s.last + 1 && s.count <= c.long / c.short + 1 else now > s.last + 10
  }

  /** What a signal does to the timer. Weak, it can make the next scan due at once; if not, at the long
      interval, after a short one if that is sooner than a long one after the last scan. Strong, it
      makes the next scan due after a long interval if the short one was in force. Otherwise the timer
      is left alone. */
  lemma SignalTimer(c: Config, s: State, now: int, above: bool)
    requires c.Valid() && c.short != c.long && c.threshold != 0 && (s.interval == c.short || s.interval == c.long)
    ensures var t := Step(c, s, Signal(above), now);
            && t.interval == (if above then c.long else c.short)
            && (!above && AtOnce(c, s, now) ==> t.timers == [now])
            && (!above && !AtOnce(c, s, now) ==>
                  t.timers ==
                  if s.interval == c.long && now + c.short < s.last + c.long then [now + c.short] else s.timers)
            && (above ==> t.timers == if s.interval == c.short then [now + c.long] else s.timers)
            && t.last == s.last && t.count == s.count && t.outstanding == s.outstanding
  {
  }

  /** With one interval only, or without a threshold, signals do nothing. */
  lemma SignalIgnored(c: Config, s: State, now: int, above: bool)
    requires c.Valid() && (c.short == c.long || c.threshold == 0)
    ensures Step(c, s, Signal(above), now) == s
  {
  }

  /** A scan that was not triggered is tried again after an interval; one that was leaves no timer until
      its results start it anew. */
  lemma ScanTimer(c: Config, s: State, now: int)
    requires c.Valid() && |s.timers| == 1
    ensures Step(c, s, Fire(false), now) == s.(timers := [now + s.interval])
    ensures var t := Step(c, s, Fire(true), now); t.timers == [] && t.outstanding && t.last == now
    ensures var t := Step(c, s, Results, now); t == s.(timers := [now + s.interval], outstanding := false)
  {
  }

  function Longest(c: Config): nat
  {
    if c.short > c.long then c.short else c.long
  }

  /** No scan is due before now or later than the longest interval from now. */
  ghost predicate Due(c: Config, s: State, now: int)
  {
    s.timers != [] ==> now <= s.timers[0] <= now + Longest(c)
  }

  /** While timeouts come at their deadlines, the next scan, if none is under way, is due within the
      longest interval at every time. */
  lemma {:induction false} DueInTime(c: Config, s: State, es: Trace, since: int)
    requires c.Valid() && Inv(c, s) && Due(c, s, since) && Timely(c, s, es, since)
    ensures Inv(c, Run(c, s, es)) && Due(c, Run(c, s, es), if es == [] then since else es[|es| - 1].1)
    decreases |es|
  {
    if es != [] {
      StepKeeps(c, s, es[0].0, es[0].1);
      DueInTime(c, Step(c, s, es[0].0, es[0].1), es[1..], es[0].1);
    }
  }

  lemma DueFromStart(c: Config, now: int, signal: Option<int>, es: Trace)
    requires c.Valid() && Timely(c, Started(c, now, signal), es, now)
    ensures Due(c, Run(c, Started(c, now, signal), es), if es == [] then now else es[|es| - 1].1)
  {
    DueInTime(c, Started(c, now, signal), es, now);
  }
}
