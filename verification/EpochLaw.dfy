/** The limiter's answers read off the instants of its probes.  Time falls into epochs of two
    periods: the first begins with the limiter, each later one with the first probe after the
    epoch before it.  In the first half of an epoch an address is only held to what it sent in
    that half; in the second half the first half still weighs, less and less. */
module EpochLaw {
  import opened SlidingWindow
  import opened RateLimiterRuns

  /** When the epoch began that the last probe falls into. */
  function Epoch(start: int, period: nat, log: Log): int {
    if log == [] then start
    else
      var e := Epoch(start, period, log[..|log| - 1]);
      var now := log[|log| - 1].probe.now;
      if now < e + 2 * period then e else now
  }

  /** The probes of an address in an interval that were not refused. */
  function Heard(log: Log, ip: IpAddr, from: int, until: int): set<nat> {
    set i: nat | i < |log| && log[i].probe.ip == ip && from <= log[i].probe.now < until && log[i].answer != Full
  }

  /** The addresses heard in an interval. */
  function Callers(log: Log, from: int, until: int): set<IpAddr> {
    set e | e in log && from <= e.probe.now < until && e.answer != Full :: e.probe.ip
  }

  /** The whole answer, in the first half of an epoch and in the second. */
  lemma AnswerExactlyWhen(cfg: Config, start: int, log: Log, k: nat)
    requires IsRun(cfg, Frame(start, false), log) && Ticking(Frame(start, false), log)
    requires cfg.limit > 0 && cfg.period > 0 && k < |log|
    ensures var p := log[k].probe;
            var e := Epoch(start, cfg.period, log[..k + 1]);
            var half := if p.now < e + cfg.period then e else e + cfg.period;
            var own := |Heard(log[..k], p.ip, half, half + cfg.period)|;
            var before := if half == e then 0 else |Heard(log[..k], p.ip, e, e + cfg.period)|;
            var c := if before > 65535 then 65535 else before;
            var s := cfg.period / 1_000_000_000;
            var d := (p.later - half) / 1_000_000_000;
            var weight := if p.later >= half + cfg.period then 0 else c * (s - d) / s;
            && e <= p.now < e + 2 * cfg.period
            && (log[k].answer == Full <==> own == 0 && |Callers(log[..k], half, half + cfg.period)| == cfg.capacity)
            && (log[k].answer != Full ==> (log[k].answer == Verdict(false) <==> own + 1 + weight > cfg.limit))
  {
    hide Ticking, Follows, Epoch, Heard, Callers, Decide;
    var p := log[k].probe;
    var e := Epoch(start, cfg.period, log[..k + 1]);
    var frame := FrameAt(e, cfg.period, p.now);
    FrameOf(cfg, start, log, k);
    SumIsHeard(cfg, start, log, k, frame.startsAt, p.ip);
    KnownIsCallers(cfg, start, log, k, frame.startsAt);
    if frame.linked {
      SumIsHeard(cfg, start, log, k, e, p.ip);
    }
    DecideExactlyWhen(cfg, log[..k], frame, p);
  }

  lemma FrameOf(cfg: Config, start: int, log: Log, k: nat)
    requires IsRun(cfg, Frame(start, false), log) && Ticking(Frame(start, false), log)
    requires cfg.limit > 0 && cfg.period > 0 && k < |log|
    ensures var (e, p) := (Epoch(start, cfg.period, log[..k + 1]), log[k].probe);
      && e <= p.now < e + 2 * cfg.period && p.now <= p.later
      && log[k].frame == FrameAt(e, cfg.period, p.now)
      && log[k].answer == Decide(cfg, log[..k], log[k].frame, p)
  {
    Frames(cfg, start, log, k + 1);
    assert Follows(cfg, Frame(start, false), log, k);
  }

  lemma DecideExactlyWhen(cfg: Config, log: Log, frame: Frame, p: Probe)
    requires Sane(cfg) && cfg.limit > 0 && cfg.period > 0 && frame.startsAt <= p.later
    ensures var own := Sum(log, p.ip, frame.startsAt);
            var before := PrevSum(cfg, log, frame, p.ip);
            var c := if before > 65535 then 65535 else before;
            var s := cfg.period / 1_000_000_000;
            var d := (p.later - frame.startsAt) / 1_000_000_000;
            var weight := if p.later >= frame.startsAt + cfg.period then 0 else c * (s - d) / s;
            var answer := Decide(cfg, log, frame, p);
            && (answer == Full <==> own == 0 && |Known(log, frame.startsAt)| == cfg.capacity)
            && (answer != Full ==> (answer == Verdict(false) <==> own + 1 + weight > cfg.limit))
  {
  }

  function FrameAt(e: int, period: nat, now: int): Frame {
    if now < e + period then Frame(e, false) else Frame(e + period, true)
  }

  /** Every probe of the current epoch is in the window of its half, all others came before. */
  lemma {:induction false} Frames(cfg: Config, start: int, log: Log, n: nat)
    requires IsRun(cfg, Frame(start, false), log) && Ticking(Frame(start, false), log)
    requires cfg.limit > 0 && cfg.period > 0 && n <= |log|
    ensures var e := Epoch(start, cfg.period, log[..n]);
            && (n == 0 ==> e == start)
            && (n > 0 ==> e <= log[n - 1].probe.now && log[n - 1].frame == FrameAt(e, cfg.period, log[n - 1].probe.now))
            && forall i :: 0 <= i < n ==>
                 log[i].probe.now < e + 2 * cfg.period
                 && (log[i].probe.now >= e ==> log[i].frame == FrameAt(e, cfg.period, log[i].probe.now))
  {
    if n > 0 {
      Frames(cfg, start, log, n - 1);
      assert log[..n][..n - 1] == log[..n - 1];
      assert Follows(cfg, Frame(start, false), log, n - 1);
    }
  }

  /** Probes are charged to the window of their instant. */
  lemma SumIsHeard(cfg: Config, start: int, log: Log, k: nat, w: int, ip: IpAddr)
    requires IsRun(cfg, Frame(start, false), log) && Ticking(Frame(start, false), log)
    requires cfg.limit > 0 && cfg.period > 0 && k < |log|
    requires w in {Epoch(start, cfg.period, log[..k + 1]), log[k].frame.startsAt}
    requires w <= log[k].frame.startsAt
    ensures Sum(log[..k], ip, w) == |Heard(log[..k], ip, w, w + cfg.period)|
  {
    forall i | 0 <= i < k ensures log[i].frame.startsAt == w <==> w <= log[i].probe.now < w + cfg.period {
      InWindow(cfg, start, log, k, w, i);
    }
    CountIsSize(log[..k], Charged(ip, w));
    assert Heard(log[..k], ip, w, w + cfg.period) == Indices(log[..k], Charged(ip, w));
  }

  lemma InWindow(cfg: Config, start: int, log: Log, k: nat, w: int, i: nat)
    requires IsRun(cfg, Frame(start, false), log) && Ticking(Frame(start, false), log)
    requires cfg.limit > 0 && cfg.period > 0 && i < k < |log|
    requires w in {Epoch(start, cfg.period, log[..k + 1]), log[k].frame.startsAt}
    ensures log[i].frame.startsAt == w <==> w <= log[i].probe.now < w + cfg.period
  {
    hide IsRun, Ticking, Epoch;
    WindowsApart(cfg, Frame(start, false), log);
    Frames(cfg, start, log, k + 1);
    assert Covers(cfg, log[i]) && Covers(cfg, log[k]);
  }

  lemma KnownIsCallers(cfg: Config, start: int, log: Log, k: nat, w: int)
    requires IsRun(cfg, Frame(start, false), log) && Ticking(Frame(start, false), log)
    requires cfg.limit > 0 && cfg.period > 0 && k < |log| && w == log[k].frame.startsAt
    ensures Known(log[..k], w) == Callers(log[..k], w, w + cfg.period)
  {
    forall e | e in log[..k] ensures e.frame.startsAt == w <==> w <= e.probe.now < w + cfg.period {
      var i :| 0 <= i < k && log[i] == e;
      InWindow(cfg, start, log, k, w, i);
    }
  }

  function Indices(log: Log, p: Entry -> bool): set<nat> { set i: nat | i < |log| && p(log[i]) }

  lemma {:induction false} CountIsSize(log: Log, p: Entry -> bool)
    ensures Count(log, p) == |Indices(log, p)|
  {
    if log == [] {
      assert Indices(log, p) == {};
    } else {
      var n := |log| - 1;
      CountIsSize(log[..n], p);
      assert Indices(log, p) == Indices(log[..n], p) + if p(log[n]) then {n} else {};
    }
  }

  /** Without a period there is one window for ever; without a limit nothing passes. */
  lemma AnswerWithoutPeriodOrLimit(cfg: Config, start: int, log: Log, k: nat)
    requires IsRun(cfg, Frame(start, false), log) && (cfg.limit == 0 || cfg.period == 0) && k < |log|
    ensures cfg.limit == 0 ==> log[k].answer == Verdict(false)
    ensures cfg.limit > 0 ==>
              var own := |set i: nat | i < k && log[i].probe.ip == log[k].probe.ip && log[i].answer != Full|;
              var callers := set e | e in log[..k] && e.answer != Full :: e.probe.ip;
              && (log[k].answer == Full <==> own == 0 && |callers| == cfg.capacity)
              && (log[k].answer != Full ==> (log[k].answer == Verdict(false) <==> own + 1 > cfg.limit))
  {
    assert Follows(cfg, Frame(start, false), log, k);
    if cfg.limit > 0 {
      ZeroPeriodNeverMovesOn(cfg, Frame(start, false), log);
      var own := set i: nat | i < k && log[i].probe.ip == log[k].probe.ip && log[i].answer != Full;
      CountIsSize(log[..k], Charged(log[k].probe.ip, start));
      assert own == Indices(log[..k], Charged(log[k].probe.ip, start));
      assert Known(log[..k], start) == set e | e in log[..k] && e.answer != Full :: e.probe.ip;
    }
  }
}
