/** Whether the limiter keeps to the sliding-window estimate it approximates. */
module RateEstimate {
  import opened SlidingWindow
  import opened RateLimiterRuns

  /** The sliding-window estimate of a probe's address, this probe included and scaled by the
      period, is below `limit + 1`.  It counts every probe that was not refused. */
  ghost predicate WithinEstimate(cfg: Config, log: Log, frame: Frame, probe: Probe) {
    var left := cfg.period - Elapsed(frame.startsAt, probe.later);
    var own := (Sum(log, probe.ip, frame.startsAt) + 1) * cfg.period;
    PrevSum(cfg, log, frame, probe.ip) * left + own < (cfg.limit + 1) * cfg.period
  }

  /** Entry `k` was admitted while its window lasted. */
  predicate AdmittedInTime(cfg: Config, log: Log, k: nat)
    requires k < |log|
  {
    log[k].answer == Verdict(true) && Elapsed(log[k].frame.startsAt, log[k].probe.later) < cfg.period
  }

  /** On all runs, what is admitted is within the estimate. */
  ghost predicate KeepsEstimate(cfg: Config, first: Frame) {
    forall log: Log, k ::
      IsRun(cfg, first, log) && Ticking(first, log) && 0 <= k < |log| && AdmittedInTime(cfg, log, k) ==>
      WithinEstimate(cfg, log[..k], log[k].frame, log[k].probe)
  }

  /** The limiter keeps to the estimate on all runs exactly when a saturated counter weighs
      at least the limit even in the last second of the next window. */
  lemma KeepsEstimateExactlyWhen(cfg: Config, start: int)
    requires Sane(cfg) && cfg.period > 0
    ensures KeepsEstimate(cfg, Frame(start, false)) <==>
              cfg.capacity == 0 || cfg.limit * (cfg.period / NANOS) <= U16_MAX
  {
    var first := Frame(start, false);
    if cfg.capacity == 0 || cfg.limit * (cfg.period / NANOS) <= U16_MAX {
      forall log: Log, k
        | IsRun(cfg, first, log) && Ticking(first, log) && 0 <= k < |log| && AdmittedInTime(cfg, log, k)
        ensures WithinEstimate(cfg, log[..k], log[k].frame, log[k].probe)
      {
        AdmittedIsWithin(cfg, first, log, k);
      }
    } else {
      var log, k := Overrun(cfg, start);
    }
  }

  lemma AdmittedIsWithin(cfg: Config, first: Frame, log: Log, k: nat)
    requires IsRun(cfg, first, log) && cfg.period > 0 && k < |log| && AdmittedInTime(cfg, log, k)
    requires cfg.capacity == 0 || cfg.limit * (cfg.period / NANOS) <= U16_MAX
    ensures WithinEstimate(cfg, log[..k], log[k].frame, log[k].probe)
  {
    var e := log[k];
    assert Follows(cfg, first, log, k) && e in log;
    if cfg.capacity == 0 {
      ClosedAdmitsNothing(cfg, first, log, e.probe.ip, 0);
    } else {
      VerdictTracksEstimate(cfg, log[..k], e.frame, e.probe);
      if PrevSum(cfg, log[..k], e.frame, e.probe.ip) > U16_MAX {
        SaturatedWeighs(cfg, Elapsed(e.frame.startsAt, e.probe.later));
      }
    }
  }

  lemma AtLeast(a: nat, b: nat, c: nat)
    requires c > 0 && a * c <= b
    ensures a <= b / c
  {
    Quotient(b, c);
    assert (b / c + 1) * c == b / c * c + c;
    Cancel(a, b / c + 1, c);
  }

  /** A saturated counter leaves no room in the next window. */
  lemma SaturatedWeighs(cfg: Config, elapsed: nat)
    requires Sane(cfg) && elapsed < cfg.period && cfg.limit * (cfg.period / NANOS) <= U16_MAX
    ensures GetApprox(U16_MAX, elapsed, cfg.period) >= cfg.limit
  {
    var s := cfg.period / NANOS;
    var left := s - elapsed / NANOS;
    MulMonotone(left, 1, U16_MAX);
    AtLeast(cfg.limit, U16_MAX * left, s);
  }

  /** In the last second of the next window it leaves some. */
  lemma SaturatedFades(cfg: Config)
    requires Sane(cfg) && cfg.period > 0 && cfg.limit * (cfg.period / NANOS) > U16_MAX
    ensures GetApprox(U16_MAX, cfg.period - NANOS, cfg.period) < cfg.limit
  {
    var s := cfg.period / NANOS;
    assert (cfg.period - NANOS) / NANOS == s - 1;
    Quotient(U16_MAX, s);
    Cancel(U16_MAX / s, cfg.limit, s);
  }

  // The run that shows it

  /** Probes at the very start stay in the first window and are all charged to it. */
  lemma {:induction false} FirstWindow(cfg: Config, start: int, log: Log)
    requires IsRun(cfg, Frame(start, false), log) && cfg.period > 0
    requires forall i :: 0 <= i < |log| ==> log[i].probe == Probe(V4(0), start, start)
    ensures forall i :: 0 <= i < |log| ==> log[i].frame == Frame(start, false)
  {
    if log != [] {
      var n := |log| - 1;
      RunPrefix(cfg, Frame(start, false), log, n);
      FirstWindow(cfg, start, log[..n]);
      assert Follows(cfg, Frame(start, false), log, n);
      assert forall i :: 0 <= i < n ==> log[..n][i] == log[i];
    }
  }

  /** `n` probes of one address at one instant. */
  lemma Flood(cfg: Config, start: int, n: nat) returns (log: Log)
    requires Sane(cfg) && cfg.limit > 0 && cfg.period > 0 && cfg.capacity > 0
    ensures IsRun(cfg, Frame(start, false), log) && Ticking(Frame(start, false), log) && |log| == n
    ensures forall i :: 0 <= i < n ==> log[i].probe == Probe(V4(0), start, start) && log[i].frame == Frame(start, false)
    ensures Sum(log, V4(0), start) == n
  {
    log := Run(cfg, Frame(start, false), seq(n, _ => Probe(V4(0), start, start)));
    FirstWindow(cfg, start, log);
    AloneIsHeard(cfg, Frame(start, false), log);
    CountAll(log, Charged(V4(0), start));
  }

  /** So many probes in the first window that its counter saturates, and one more in the last
      second of the next. */
  lemma Overrun(cfg: Config, start: int) returns (log: Log, k: nat)
    requires Sane(cfg) && cfg.period > 0 && cfg.capacity > 0 && cfg.limit * (cfg.period / NANOS) > U16_MAX
    ensures IsRun(cfg, Frame(start, false), log) && Ticking(Frame(start, false), log)
    ensures k < |log| && AdmittedInTime(cfg, log, k) && !WithinEstimate(cfg, log[..k], log[k].frame, log[k].probe)
  {
    var first, s := Frame(start, false), cfg.period / NANOS;
    k := (cfg.limit + 1) * s;
    var flood := Flood(cfg, start, k);
    var now := start + 2 * cfg.period - NANOS;
    var last := Probe(V4(0), now, now);
    RunSnoc(cfg, first, flood, last);
    log := flood + [Outcome(cfg, flood, first, last)];
    assert log[..k] == flood;
    LastIsAdmitted(cfg, start, flood, last);
    assert k * NANOS == (cfg.limit + 1) * cfg.period;
  }

  lemma LastIsAdmitted(cfg: Config, start: int, flood: Log, last: Probe)
    requires Sane(cfg) && cfg.period > 0 && cfg.capacity > 0 && cfg.limit * (cfg.period / NANOS) > U16_MAX
    requires forall e :: e in flood ==> e.frame.startsAt == start
    requires Sum(flood, V4(0), start) > U16_MAX
    requires last == Probe(V4(0), start + 2 * cfg.period - NANOS, start + 2 * cfg.period - NANOS)
    ensures Outcome(cfg, flood, Frame(start, false), last)
         == Entry(last, Frame(start + cfg.period, true), Verdict(true))
    ensures Sum(flood, V4(0), start + cfg.period) == 0
  {
    assert Known(flood, start + cfg.period) == {};
    CountZero(flood, Charged(V4(0), start + cfg.period));
    SaturatedFades(cfg);
  }
}
