/**
 The simple background scan module: a timer that triggers scans, at a short interval while the
 signal is weak and at a long one otherwise, with a budget for scans at the short interval.
 */
module BgscanSimple {
  import opened Wrappers

  /** The two intervals, in seconds, and the signal threshold; zero for no threshold. */
  datatype Config = Config(short: nat, long: nat, threshold: int) {
    predicate Valid()
    {
      short > 0 && long > 0
    }

    /** The scans at the short interval before backing off. */
    function Budget(): nat
      requires Valid()
    {
      long / short + 1
    }
  }

  /** `timers` are the deadlines of the registered timeouts; `outstanding` says that a triggered
      scan has not reported its results yet. */
  datatype State = State(interval: nat, count: int, last: int, timers: seq<int>, outstanding: bool)

  // ---- the events ----

  /** A timeout: a scan is triggered, with or without success. */
  function Fired(c: Config, s: State, now: int, ok: bool): State
    requires c.Valid()
  {
    if s.timers == [] then s
    else if !ok then s.(timers := s.timers[1..] + [now + s.interval])
    else if s.interval == c.short then
      s.(timers := s.timers[1..], outstanding := true, last := now, count := s.count + 1,
        interval := if s.count + 1 > c.Budget() then c.long else s.interval)
    else
      s.(timers := s.timers[1..], outstanding := true, last := now,
        count := if s.count > 0 then s.count - 1 else s.count)
  }

  /** Scan results: the timer is started anew. */
  function Notified(s: State, now: int): State
  {
    s.(timers := [now + s.interval], outstanding := false)
  }

  /** A signal level change, to above or below the threshold. */
  function Signalled(c: Config, s: State, now: int, above: bool): State
    requires c.Valid()
  {
    if c.short == c.long || c.threshold == 0 then s
    else if s.interval == c.long && !above then
      var t := s.(interval := c.short);
      if now > s.last + 1 && s.count <= c.Budget() then t.(timers := [now])
      else if s.last + c.long > now + c.short then t.(timers := [now + c.short])
      else t
    else if s.interval == c.short && above then s.(interval := c.long, timers := [now + c.long])
    else if !above && now > s.last + 10 then s.(timers := [now])
    else s
  }

  /** The first state; `signal` is the level if it could be polled. */
  function Started(c: Config, now: int, signal: Option<int>): State
  {
    var interval := if c.threshold != 0 && signal.Some? && signal.value >= c.threshold then c.long else c.short;
    State(interval, 0, now, [now + interval], false)
  }

  datatype Event = Fire(ok: bool) | Results | Signal(above: bool)

  function Step(c: Config, s: State, e: Event, now: int): State
    requires c.Valid()
  {
    match e
    case Fire(ok) => Fired(c, s, now, ok)
    case Results => Notified(s, now)
    case Signal(above) => Signalled(c, s, now, above)
  }

  /** Events and their times. */
  type Trace = seq<(Event, int)>

  ghost function Run(c: Config, s: State, es: Trace): State
    requires c.Valid()
    decreases |es|
  {
    if es == [] then s else Run(c, Step(c, s, es[0].0, es[0].1), es[1..])
  }

  // ---- what every event keeps ----

  ghost predicate Inv(c: Config, s: State)
  {
    && (s.interval == c.short || s.interval == c.long)
    && s.count >= 0
    && |s.timers| <= 1
    && (s.timers == [] ==> s.outstanding)
  }

  lemma StepKeeps(c: Config, s: State, e: Event, now: int)
    requires c.Valid() && Inv(c, s)
    ensures Inv(c, Step(c, s, e, now))
  {
  }

  /** In every run at most one timer is pending, and a timer is pending or a scan outstanding. */
  lemma {:induction false} RunKeeps(c: Config, s: State, es: Trace)
    requires c.Valid() && Inv(c, s)
    ensures Inv(c, Run(c, s, es))
    decreases |es|
  {
    if es != [] {
      StepKeeps(c, s, es[0].0, es[0].1);
      RunKeeps(c, Step(c, s, es[0].0, es[0].1), es[1..]);
    }
  }

  // ---- scans at the short interval ----

  /** A successful scan at the short interval. */
  predicate ShortScan(c: Config, s: State, e: Event)
  {
    e == Fire(true) && s.timers != [] && s.interval == c.short
  }

  /** A successful scan at the long interval that gives a short one back. */
  predicate Refund(c: Config, s: State, e: Event)
  {
    e == Fire(true) && s.timers != [] && s.interval != c.short && s.count > 0
  }

  /** A switch from the long interval to the short one. */
  predicate Entry(c: Config, s: State, e: Event)
  {
    c.short != c.long && c.threshold != 0 && s.interval == c.long && e == Signal(false)
  }

  ghost function CountWhere(c: Config, s: State, es: Trace, p: (Config, State, Event) -> bool): nat
    requires c.Valid()
    decreases |es|
  {
    if es == [] then 0
    else (if p(c, s, es[0].0) then 1 else 0) + CountWhere(c, Step(c, s, es[0].0, es[0].1), es[1..], p)
  }

  /** The counter is the scans at the short interval less the ones given back. */
  lemma {:induction false} CountBalances(c: Config, s: State, es: Trace)
    requires c.Valid()
    ensures Run(c, s, es).count == s.count + CountWhere(c, s, es, ShortScan) - CountWhere(c, s, es, Refund)
    decreases |es|
  {
    if es != [] {
      CountBalances(c, Step(c, s, es[0].0, es[0].1), es[1..]);
    }
  }

  /** The interval is the short one before every event. */
  ghost predicate Burst(c: Config, s: State, es: Trace)
    requires c.Valid()
    decreases |es|
  {
    es == [] || (s.interval == c.short && Burst(c, Step(c, s, es[0].0, es[0].1), es[1..]))
  }

  /** The short scans a burst has left. */
  function Room(c: Config, s: State): int
    requires c.Valid()
  {
    if s.count > c.Budget() then 1 else c.Budget() + 1 - s.count
  }

  /** With two different intervals, a burst ends when the room is used up. */
  lemma {:induction false} BurstIsBounded(c: Config, s: State, es: Trace)
    requires c.Valid() && c.short != c.long && Burst(c, s, es)
    ensures CountWhere(c, s, es, ShortScan) <= Room(c, s)
    decreases |es|
  {
    if es != [] {
      var t := Step(c, s, es[0].0, es[0].1);
      BurstIsBounded(c, t, es[1..]);
      if t.interval != c.short {
        assert es[1..] == [];
      }
    }
  }

  lemma DivTimes(a: nat, b: nat)
    requires b > 0
    ensures (a / b) * b <= a
  {
  }

  lemma TimesLeq(a: nat, b: nat, d: nat)
    requires a <= b
    ensures a * d <= b * d
  {
  }

  /** A burst holds at most long / short + 2 scans, which span at most a long interval and two
      short ones. */
  lemma BurstSpan(c: Config, s: State, es: Trace)
    requires c.Valid() && Inv(c, s) && c.short != c.long && Burst(c, s, es)
    ensures CountWhere(c, s, es, ShortScan) <= c.long / c.short + 2
    ensures CountWhere(c, s, es, ShortScan) * c.short <= c.long + 2 * c.short
  {
    BurstIsBounded(c, s, es);
    TimesLeq(CountWhere(c, s, es, ShortScan), c.long / c.short + 2, c.short);
    DivTimes(c.long, c.short);
  }

  /** Time does not go back, every timeout comes at its deadline, and nothing comes after a deadline
      that was not kept. */
  ghost predicate Timely(c: Config, s: State, es: Trace, since: int)
    requires c.Valid()
    decreases |es|
  {
    es == [] ||
    (&& since <= es[0].1 && (es[0].0.Fire? ==> s.timers != [] && es[0].1 == s.timers[0])
     && (s.timers != [] ==> es[0].1 <= s.timers[0])
     && Timely(c, Step(c, s, es[0].0, es[0].1), es[1..], es[0].1))
  }

  /** A timer that runs out, a scan, and its results at once, over and over. */
  lemma {:induction false} ShortForever(c: Config, s: State, since: int, n: nat) returns (es: Trace)
    requires c.Valid() && c.short == c.long && s.interval == c.short && |s.timers| == 1 && since <= s.timers[0]
    ensures Timely(c, s, es, since) && Burst(c, s, es) && CountWhere(c, s, es, ShortScan) == n
    decreases n
  {
    es := [];
    if n > 0 {
      var now := s.timers[0];
      var t := Notified(Fired(c, s, now, true), now);
      var rest := ShortForever(c, t, now, n - 1);
      es := [(Fire(true), now), (Results, now)] + rest;
      assert es[1..] == [(Results, now)] + rest && es[1..][1..] == rest;
    }
  }

  /** With equal intervals there is no bound: from the start there are bursts of any length, with
      every timeout at its deadline. */
  lemma EqualIntervals(c: Config, now: int, signal: Option<int>, n: nat) returns (es: Trace)
    requires c.Valid() && c.short == c.long
    ensures var s := Started(c, now, signal);
            Timely(c, s, es, now) && Burst(c, s, es) && CountWhere(c, s, es, ShortScan) == n
  {
    es := ShortForever(c, Started(c, now, signal), now, n);
  }

  /** Over a whole run: the first budget, one scan for every scan given back, and one for every
      switch to the short interval. */
  ghost predicate WithinBudget(c: Config, s: State, entries: nat)
    requires c.Valid()
  {
    s.count <= c.Budget() + entries + if s.interval == c.short then 0 else 1
  }

  lemma {:induction false} BudgetRun(c: Config, s: State, es: Trace, entries: nat)
    requires c.Valid() && c.short != c.long && Inv(c, s) && WithinBudget(c, s, entries)
    ensures WithinBudget(c, Run(c, s, es), entries + CountWhere(c, s, es, Entry))
    decreases |es|
  {
    if es != [] {
      var t := Step(c, s, es[0].0, es[0].1);
      StepKeeps(c, s, es[0].0, es[0].1);
      BudgetRun(c, t, es[1..], if Entry(c, s, es[0].0) then entries + 1 else entries);
    }
  }

  lemma ShortScansOfARun(c: Config, now: int, signal: Option<int>, es: Trace)
    requires c.Valid() && c.short != c.long
    ensures var s := Started(c, now, signal);
            CountWhere(c, s, es, ShortScan) <=
              c.long / c.short + 2 + CountWhere(c, s, es, Refund) + CountWhere(c, s, es, Entry)
  {
    var s := Started(c, now, signal);
    BudgetRun(c, s, es, 0);
    CountBalances(c, s, es);
  }

  // ---- the parameters ----

  /** The intervals in force, from a short interval, a threshold and a long interval that were
      read: thirty seconds where none is given. */
  function Defaults(v: (int, int, int)): (c: Config)
    ensures c.Valid() && c.threshold == v.1
    ensures v.0 > 0 ==> c.short == v.0
    ensures v.2 > 0 ==> c.long == v.2
    ensures v.0 <= 0 && v.2 <= 0 ==> c.short == 30 == c.long
  {
    Config(if v.0 <= 0 then 30 else v.0, if v.2 <= 0 then 30 else v.2, v.1)
  }

  // ---- the module's data ----

  class Bgscan {
    const config: Config
    var scanInterval: nat
    var shortScanCount: int
    var lastBgscan: int
    var timers: seq<int>
    var outstanding: bool

    ghost function View(): State
      reads this
    {
      State(scanInterval, shortScanCount, lastBgscan, timers, outstanding)
    }

    ghost predicate Valid()
      reads this
    {
      config.Valid() && Inv(config, View())
    }

    constructor (v: (int, int, int), now: int, signal: Option<int>)
      ensures Valid() && config == Defaults(v) && View() == Started(config, now, signal)
    {
      var c := Defaults(v);
      config := c;
      var interval := c.short;
      if c.threshold != 0 {
        if signal.Some? && signal.value >= c.threshold {
          interval := c.long;
        }
      }
      scanInterval, shortScanCount, lastBgscan := interval, 0, now;
      timers, outstanding := [now + interval], false;
    }

    method CancelTimeout()
      modifies `timers
      ensures timers == []
    {
      timers := [];
    }

    method RegisterTimeout(deadline: int)
      modifies `timers
      ensures timers == old(timers) + [deadline]
    {
      timers := timers + [deadline];
    }

    /** The registered timeout runs out; `ok` says whether a scan could be triggered. */
    method Timeout(now: int, ok: bool)
      requires Valid() && timers != []
      modifies this
      ensures Valid() && View() == Fired(config, old(View()), now, ok)
    {
      StepKeeps(config, View(), Fire(ok), now);
      timers := timers[1..];
      if !ok {
        RegisterTimeout(now + scanInterval);
      } else {
        outstanding := true;
        if scanInterval == config.short {
          shortScanCount := shortScanCount + 1;
          if shortScanCount > config.long / config.short + 1 {
            scanInterval := config.long;
          }
        } else if shortScanCount > 0 {
          shortScanCount := shortScanCount - 1;
        }
        lastBgscan := now;
      }
    }

    method NotifyScan(now: int)
      requires Valid()
      modifies this
      ensures Valid() && View() == Notified(old(View()), now)
    {
      CancelTimeout();
      RegisterTimeout(now + scanInterval);
      outstanding := false;
    }

    method NotifySignalChange(now: int, above: bool)
      requires Valid()
      modifies this
      ensures Valid() && View() == Signalled(config, old(View()), now, above)
    {
      StepKeeps(config, View(), Signal(above), now);
      var scan := false;
      if config.short == config.long || config.threshold == 0 {
        return;
      }
      if scanInterval == config.long && !above {
        scanInterval := config.short;
        if now > lastBgscan + 1 && shortScanCount <= config.long / config.short + 1 {
          scan := true;
        } else if lastBgscan + config.long > now + scanInterval {
          CancelTimeout();
          RegisterTimeout(now + scanInterval);
        }
      } else if scanInterval == config.short && above {
        scanInterval := config.long;
        CancelTimeout();
        RegisterTimeout(now + scanInterval);
      } else if !above {
        if now > lastBgscan + 10 {
          scan := true;
        }
      }
      if scan {
        CancelTimeout();
        RegisterTimeout(now);
      }
    }
  }
}
