/** What a rate limiter guarantees over whole runs, for every sequence of probes. */
module RateLimiterRuns {
  import opened SlidingWindow

  /** The clock never runs backwards, neither inside a call nor between calls. */
  ghost predicate Ticking(first: Frame, log: Log) {
    && (forall i :: 0 <= i < |log| ==> first.startsAt <= log[i].probe.now <= log[i].probe.later)
    && (forall i, j :: 0 <= i < j < |log| ==> log[i].probe.later <= log[j].probe.now)
  }

  /** The entry's window covers its instant. */
  predicate Covers(cfg: Config, e: Entry) {
    e.frame.startsAt <= e.probe.now < e.frame.startsAt + cfg.period
  }

  /** Same window, or windows at least a period apart. */
  predicate Apart(cfg: Config, e: Entry, f: Entry) {
    e.frame.startsAt == f.frame.startsAt || e.frame.startsAt + cfg.period <= f.frame.startsAt
  }

  ghost predicate Paced(cfg: Config, log: Log) {
    && (forall i :: 0 <= i < |log| ==> Covers(cfg, log[i]))
    && (forall i, j :: 0 <= i < j < |log| ==> Apart(cfg, log[i], log[j]))
  }

  function AdmittedIn(ip: IpAddr, window: int): Entry -> bool {
    (e: Entry) => e.probe.ip == ip && e.frame.startsAt == window && e.answer == Verdict(true)
  }

  function AdmittedAt(ip: IpAddr, from: int, until: int): Entry -> bool {
    (e: Entry) => e.probe.ip == ip && from <= e.probe.now < until && e.answer == Verdict(true)
  }

  /** How often `ip` was admitted in the period that begins at `from`. */
  function Admissions(cfg: Config, log: Log, ip: IpAddr, from: int): nat {
    Count(log, AdmittedAt(ip, from, from + cfg.period))
  }

  /** Windows only move forward, by at least a period each time, and every probe
      is charged to a window that covers its own instant. */
  lemma {:induction false} WindowsApart(cfg: Config, first: Frame, log: Log)
    requires IsRun(cfg, first, log) && Ticking(first, log) && cfg.limit > 0 && cfg.period > 0
    ensures Paced(cfg, log)
  {
    if log != [] {
      var n := |log| - 1;
      RunPrefix(cfg, first, log, n);
      WindowsApart(cfg, first, log[..n]);
      NextWindow(cfg, first, log);
      forall i | 0 <= i < n ensures Covers(cfg, log[i]) && Apart(cfg, log[i], log[n]) {
        assert Covers(cfg, log[..n][i]);
        assert i < n - 1 ==> Apart(cfg, log[..n][i], log[..n][n - 1]);
      }
      forall i, j | 0 <= i < j < n ensures Apart(cfg, log[i], log[j]) {
        assert Apart(cfg, log[..n][i], log[..n][j]);
      }
    }
  }

  lemma NextWindow(cfg: Config, first: Frame, log: Log)
    requires IsRun(cfg, first, log) && Ticking(first, log) && cfg.limit > 0 && cfg.period > 0
    requires log != [] && (|log| > 1 ==> Covers(cfg, log[|log| - 2]))
    ensures Covers(cfg, log[|log| - 1])
    ensures |log| > 1 ==> Apart(cfg, log[|log| - 2], log[|log| - 1])
  {
    assert Follows(cfg, first, log, |log| - 1);
  }

  /** Each window admits an address at most `limit` times. */
  lemma {:induction false} AdmittedPerWindow(cfg: Config, first: Frame, log: Log, ip: IpAddr, window: int)
    requires IsRun(cfg, first, log)
    ensures Count(log, AdmittedIn(ip, window)) <= Min(cfg.limit, Sum(log, ip, window))
  {
    if log != [] {
      var n := |log| - 1;
      RunPrefix(cfg, first, log, n);
      AdmittedPerWindow(cfg, first, log[..n], ip, window);
      assert Follows(cfg, first, log, n);
    }
  }

  /** The bound of the whole limiter: whatever is sent and whenever, no address is
      admitted more than `2 * limit` times in any interval as long as the period. */
  lemma AtMostTwiceLimit(cfg: Config, first: Frame, log: Log, ip: IpAddr, from: int)
    requires IsRun(cfg, first, log) && Ticking(first, log) && cfg.period > 0
    ensures Admissions(cfg, log, ip, from) <= 2 * cfg.limit
  {
    if cfg.limit == 0 {
      ClosedAdmitsNothing(cfg, first, log, ip, from);
    } else {
      WindowsApart(cfg, first, log);
      var w1, w2 := TwoWindows(cfg, log, ip, from);
      CountCovered(log, AdmittedAt(ip, from, from + cfg.period), AdmittedIn(ip, w1), AdmittedIn(ip, w2));
      AdmittedPerWindow(cfg, first, log, ip, w1);
      AdmittedPerWindow(cfg, first, log, ip, w2);
    }
  }

  /** An interval of one period meets at most two windows. */
  lemma TwoWindows(cfg: Config, log: Log, ip: IpAddr, from: int) returns (w1: int, w2: int)
    requires Paced(cfg, log)
    ensures forall k :: 0 <= k < |log| && AdmittedAt(ip, from, from + cfg.period)(log[k]) ==>
              AdmittedIn(ip, w1)(log[k]) || AdmittedIn(ip, w2)(log[k])
  {
    var p := AdmittedAt(ip, from, from + cfg.period);
    w1, w2 := 0, 0;
    if i :| 0 <= i < |log| && p(log[i]) {
      w1 := log[i].frame.startsAt;
      if j :| 0 <= j < |log| && p(log[j]) && log[j].frame.startsAt != w1 {
        w2 := log[j].frame.startsAt;
        forall k | 0 <= k < |log| && p(log[k]) ensures log[k].frame.startsAt in {w1, w2} {
          NoThirdWindow(cfg, log, from, i, j, k);
        }
      }
    }
  }

  lemma NoThirdWindow(cfg: Config, log: Log, from: int, i: nat, j: nat, k: nat)
    requires Paced(cfg, log) && i < |log| && j < |log| && k < |log|
    requires forall n :: n in {i, j, k} ==> from <= log[n].probe.now < from + cfg.period
    requires log[i].frame.startsAt != log[j].frame.startsAt
    ensures log[k].frame.startsAt == log[i].frame.startsAt || log[k].frame.startsAt == log[j].frame.startsAt
  {
    assert Covers(cfg, log[i]) && Covers(cfg, log[j]) && Covers(cfg, log[k]);
    assert Apart(cfg, log[i], log[j]) || Apart(cfg, log[j], log[i]);
    assert i == k || Apart(cfg, log[i], log[k]) || Apart(cfg, log[k], log[i]);
    assert j == k || Apart(cfg, log[j], log[k]) || Apart(cfg, log[k], log[j]);
  }

  /** With a zero period there is one window for ever, so the limit is for the whole run. */
  lemma {:induction false} ZeroPeriodNeverMovesOn(cfg: Config, first: Frame, log: Log)
    requires IsRun(cfg, first, log) && cfg.period == 0
    ensures forall i :: 0 <= i < |log| ==> log[i].frame == first
  {
    if log != [] {
      var n := |log| - 1;
      RunPrefix(cfg, first, log, n);
      ZeroPeriodNeverMovesOn(cfg, first, log[..n]);
      assert Follows(cfg, first, log, n);
      assert forall i :: 0 <= i < n ==> log[..n][i] == log[i];
    }
  }

  lemma ZeroPeriodAdmitsLimitOnce(cfg: Config, first: Frame, log: Log, ip: IpAddr)
    requires IsRun(cfg, first, log) && cfg.period == 0
    ensures Count(log, (e: Entry) => e.probe.ip == ip && e.answer == Verdict(true)) <= cfg.limit
  {
    ZeroPeriodNeverMovesOn(cfg, first, log);
    AdmittedPerWindow(cfg, first, log, ip, first.startsAt);
    var p := (e: Entry) => e.probe.ip == ip && e.answer == Verdict(true);
    CountCovered(log, p, AdmittedIn(ip, first.startsAt), (e: Entry) => false);
    CountZero(log, (e: Entry) => false);
  }

  // The documented rate

  lemma {:induction false} ClosedAdmitsNothing(cfg: Config, first: Frame, log: Log, ip: IpAddr, from: int)
    requires IsRun(cfg, first, log) && (cfg.limit == 0 || cfg.capacity == 0)
    ensures Admissions(cfg, log, ip, from) == 0
    ensures cfg.limit > 0 ==> forall e :: e in log ==> e.answer == Full
  {
    if log != [] {
      var n := |log| - 1;
      RunPrefix(cfg, first, log, n);
      ClosedAdmitsNothing(cfg, first, log[..n], ip, from);
      assert Follows(cfg, first, log, n);
      if cfg.limit > 0 {
        assert Known(log[..n], log[n].frame.startsAt) == {};
        CountZero(log[..n], Charged(log[n].probe.ip, log[n].frame.startsAt));
      }
    }
  }

  /** Entry `k` of the double burst: `limit` probes in the last instant of the second
      window, then as many when that window is over. */
  function BurstEntry(cfg: Config, start: int, ip: IpAddr, k: nat): Entry {
    if k < cfg.limit
    then
      var now := start + 2 * cfg.period - 1;
      Entry(Probe(ip, now, now), Frame(start + cfg.period, true), Verdict(true))
    else
      var now := start + 2 * cfg.period;
      Entry(Probe(ip, now, now), Frame(now, false), Verdict(true))
  }

  ghost predicate IsBurst(cfg: Config, start: int, ip: IpAddr, log: Log) {
    |log| <= 2 * cfg.limit && forall i :: 0 <= i < |log| ==> log[i] == BurstEntry(cfg, start, ip, i)
  }

  /** The first half is charged to the second window, the second half to a window that
      has forgotten it. */
  lemma {:induction false} BurstSum(cfg: Config, start: int, ip: IpAddr, log: Log, window: int)
    requires Sane(cfg) && cfg.period > 0 && IsBurst(cfg, start, ip, log)
    ensures Sum(log, ip, window) == if window == start + cfg.period then Min(|log|, cfg.limit)
                                    else if window == start + 2 * cfg.period then |log| - Min(|log|, cfg.limit)
                                    else 0
  {
    if log != [] {
      BurstSum(cfg, start, ip, log[..|log| - 1], window);
    }
  }

  lemma {:induction false} BurstIsRun(cfg: Config, start: int, ip: IpAddr, log: Log)
    requires Sane(cfg) && cfg.period > 0 && cfg.capacity > 0 && IsBurst(cfg, start, ip, log)
    ensures IsRun(cfg, Frame(start, false), log)
  {
    forall k | 0 <= k < |log| ensures Follows(cfg, Frame(start, false), log, k) {
      BurstSum(cfg, start, ip, log[..k], log[k].frame.startsAt);
      BurstSum(cfg, start, ip, log[..k], log[k].frame.startsAt - cfg.period);
      BurstFrame(cfg, start, ip, log, k);
      BurstVerdict(cfg, log[..k], log[k]);
    }
  }

  lemma BurstFrame(cfg: Config, start: int, ip: IpAddr, log: Log, k: nat)
    requires Sane(cfg) && cfg.period > 0 && IsBurst(cfg, start, ip, log) && k < |log|
    ensures NextFrame(cfg, LastFrame(Frame(start, false), log[..k]), log[k].probe.now) == log[k].frame
  {
    assert k > 0 ==> log[..k][k - 1] == BurstEntry(cfg, start, ip, k - 1);
  }

  /** With nothing to remember, an address is heard until the limit. */
  lemma BurstVerdict(cfg: Config, log: Log, e: Entry)
    requires Sane(cfg) && cfg.capacity > 0 && Sum(log, e.probe.ip, e.frame.startsAt) < cfg.limit
    requires PrevSum(cfg, log, e.frame, e.probe.ip) == 0
    requires forall x :: x in log ==> x.probe.ip == e.probe.ip
    ensures Decide(cfg, log, e.frame, e.probe) == Verdict(true)
  {
    if Sum(log, e.probe.ip, e.frame.startsAt) == 0 {
      KnownIffCharged(log, e.probe.ip, e.frame.startsAt);
      assert Known(log, e.frame.startsAt) == {};
    }
  }

  lemma {:induction false} CountAll(log: Log, p: Entry -> bool)
    requires forall i :: 0 <= i < |log| ==> p(log[i])
    ensures Count(log, p) == |log|
  {
    if log != [] {
      CountAll(log[..|log| - 1], p);
    }
  }

  function DoubleBurst(cfg: Config, start: int, ip: IpAddr): Log {
    seq(2 * cfg.limit, (i: nat) => BurstEntry(cfg, start, ip, i))
  }

  /** The bound is tight for every limit, period and capacity that admit anything. */
  lemma TwiceLimitIsReached(cfg: Config, start: int, ip: IpAddr)
    requires Sane(cfg) && cfg.period > 0 && cfg.capacity > 0
    ensures var log := DoubleBurst(cfg, start, ip);
      && IsRun(cfg, Frame(start, false), log) && Ticking(Frame(start, false), log)
      && Admissions(cfg, log, ip, start + 2 * cfg.period - 1) == 2 * cfg.limit
  {
    var log := DoubleBurst(cfg, start, ip);
    var from := start + 2 * cfg.period - 1;
    BurstIsRun(cfg, start, ip, log);
    CountAll(log, AdmittedAt(ip, from, from + cfg.period));
  }

  /** The documented rate: at most `limit` in any period. */
  ghost predicate KeepsDocumentedRate(cfg: Config, first: Frame) {
    forall log, ip, from :: IsRun(cfg, first, log) && Ticking(first, log) ==>
      Admissions(cfg, log, ip, from) <= cfg.limit
  }

  /** A limiter keeps the documented rate on all runs exactly when it admits nothing at all. */
  lemma DocumentedRateExactlyWhenClosed(cfg: Config, start: int)
    requires Sane(cfg) && cfg.period > 0
    ensures KeepsDocumentedRate(cfg, Frame(start, false)) <==> cfg.limit == 0 || cfg.capacity == 0
  {
    var first := Frame(start, false);
    if cfg.limit == 0 || cfg.capacity == 0 {
      forall log, ip, from | IsRun(cfg, first, log) && Ticking(first, log)
        ensures Admissions(cfg, log, ip, from) <= cfg.limit
      {
        ClosedAdmitsNothing(cfg, first, log, ip, from);
      }
    } else {
      TwiceLimitIsReached(cfg, start, V4(0));
    }
  }

  // Weighing the previous window

  /** `GetApprox` is the exact share, rounded down after the elapsed time was. */
  lemma ApproxBounds(prev: nat, needle: nat, period: nat)
    requires period % NANOS == 0 && needle < period
    ensures var approx := GetApprox(prev, needle, period);
      && prev * (period - needle) < (approx + 1) * period
      && approx * period <= prev * (period - needle + needle % NANOS)
      && approx <= prev
  {
    var s, m := period / NANOS, needle / NANOS;
    var rest := needle % NANOS;
    var approx := prev * (s - m) / s;
    Quotient(prev * (s - m), s);
    MulMonotone(s, s - m, prev);
    Cancel(approx, prev + 1, s);
    Rescale(prev, approx, s, s - m, rest);
  }

  /** From whole seconds to nanoseconds. */
  lemma Rescale(prev: nat, approx: nat, s: nat, left: nat, rest: nat)
    requires prev * left - s < approx * s <= prev * left
    requires rest < NANOS && rest <= left * NANOS
    ensures prev * (left * NANOS - rest) < (approx + 1) * (s * NANOS)
    ensures approx * (s * NANOS) <= prev * (left * NANOS)
  {
    MulMonotone(left * NANOS, left * NANOS - rest, prev);
    assert prev * (left * NANOS) == prev * left * NANOS;
    assert (approx + 1) * (s * NANOS) == (approx * s + s) * NANOS;
    assert approx * (s * NANOS) == approx * s * NANOS;
  }

  lemma Quotient(a: nat, b: nat)
    requires b > 0
    ensures a - b < a / b * b <= a
  {
    assert a == a / b * b + a % b;
  }

  lemma MulMonotone(a: nat, b: nat, c: nat)
    requires a >= b
    ensures c * a >= c * b && a * c >= b * c
  {
  }

  lemma Cancel(a: nat, b: nat, c: nat)
    ensures a * c < b * c ==> a < b
  {
    if a >= b {
      MulMonotone(a, b, c);
    }
  }

  lemma QuotientMonotone(a: nat, b: nat, c: nat)
    requires c > 0 && a <= b
    ensures a / c <= b / c
  {
    Quotient(a, c);
    Quotient(b, c);
    assert (b / c + 1) * c == b / c * c + c;
    Cancel(a / c, b / c + 1, c);
  }

  /** The product stays far inside the 64 bits it is computed in. */
  lemma ApproxFitsU64(prev: nat, needle: nat, period: nat)
    requires period % NANOS == 0 && period / NANOS <= U16_MAX && prev <= U16_MAX && needle < period
    ensures prev * (period / NANOS - needle / NANOS) < 0x1_0000_0000
  {
    var left := period / NANOS - needle / NANOS;
    MulMonotone(U16_MAX, prev, left);
    MulMonotone(U16_MAX, left, U16_MAX);
  }

  /** Less weight as time passes, more for a busier past. */
  lemma ApproxMonotone(prev: nat, prev': nat, needle: nat, needle': nat, period: nat)
    requires period % NANOS == 0 && prev <= prev' && needle' <= needle
    ensures GetApprox(prev, needle, period) <= GetApprox(prev', needle', period)
  {
    if needle < period {
      var s := period / NANOS;
      var left, left' := s - needle / NANOS, s - needle' / NANOS;
      MulMonotone(prev', prev, left);
      MulMonotone(left', left, prev');
      QuotientMonotone(prev * left, prev' * left', s);
    }
  }

  /** The sliding-window estimate decides up to rounding, both sides scaled by the period.
      A rejected probe has an estimate above `limit` once the elapsed time is cut to whole
      seconds.  An admitted one has an estimate below `limit + 1`, the previous window
      counted no further than its counter goes. */
  lemma VerdictTracksEstimate(cfg: Config, log: Log, frame: Frame, probe: Probe)
    requires Sane(cfg) && cfg.limit > 0
    requires Elapsed(frame.startsAt, probe.later) < cfg.period
    ensures var left := cfg.period - Elapsed(frame.startsAt, probe.later);
            var cut := Elapsed(frame.startsAt, probe.later) % NANOS;
            var prev := PrevSum(cfg, log, frame, probe.ip);
            var own := (Sum(log, probe.ip, frame.startsAt) + 1) * cfg.period;
            match Decide(cfg, log, frame, probe)
            case Verdict(true) => Min(U16_MAX, prev) * left + own < (cfg.limit + 1) * cfg.period
            case Verdict(false) => prev * (left + cut) + own > cfg.limit * cfg.period
            case Full => Sum(log, probe.ip, frame.startsAt) == 0 && |Known(log, frame.startsAt)| == cfg.capacity
  {
    hide GetApprox;
    var elapsed := Elapsed(frame.startsAt, probe.later);
    var prev := PrevSum(cfg, log, frame, probe.ip);
    var own := Sum(log, probe.ip, frame.startsAt) + 1;
    ApproxBounds(Min(U16_MAX, prev), elapsed, cfg.period);
    ScaledVerdict(cfg.limit, GetApprox(Min(U16_MAX, prev), elapsed, cfg.period), Min(U16_MAX, own), cfg.period);
    MulMonotone(prev, Min(U16_MAX, prev), cfg.period - elapsed + elapsed % NANOS);
    MulMonotone(own, Min(U16_MAX, own), cfg.period);
  }

  lemma ScaledVerdict(limit: nat, approx: nat, own: nat, period: nat)
    requires period > 0
    ensures limit >= approx + own ==> (approx + 1) * period + own * period <= (limit + 1) * period
    ensures limit < approx + own ==> approx * period + own * period > limit * period
  {
    assert (approx + 1) * period + own * period == (approx + own + 1) * period;
    assert approx * period + own * period == (approx + own) * period;
    if limit >= approx + own {
      MulMonotone(limit + 1, approx + own + 1, period);
    } else {
      MulMonotone(approx + own, limit + 1, period);
    }
  }

  // Recovery and capacity

  /** The address of probe `k` has not been heard for two periods. */
  ghost predicate Silent(cfg: Config, log: Log, k: nat)
    requires k < |log|
  {
    forall i :: 0 <= i < k && log[i].probe.ip == log[k].probe.ip ==>
      log[i].probe.now + 2 * cfg.period <= log[k].probe.now
  }

  /** Two quiet periods are enough to be heard again, whatever other addresses do. */
  lemma SilenceIsForgiven(cfg: Config, first: Frame, log: Log, k: nat)
    requires IsRun(cfg, first, log) && Ticking(first, log) && cfg.limit > 0 && cfg.period > 0 && k < |log|
    requires Silent(cfg, log, k)
    ensures log[k].answer != Verdict(false)
  {
    WindowsApart(cfg, first, log);
    var ip, w := log[k].probe.ip, log[k].frame.startsAt;
    assert Covers(cfg, log[k]);
    forall i | 0 <= i < k && log[i].probe.ip == ip ensures log[i].frame.startsAt < w - cfg.period {
      assert Covers(cfg, log[i]);
    }
    CountZero(log[..k], Charged(ip, w));
    CountZero(log[..k], Charged(ip, w - cfg.period));
    assert Follows(cfg, first, log, k);
  }

  /** Nobody who was silent for two periods is answered "limited". */
  ghost predicate Forgives(cfg: Config, first: Frame) {
    forall log: Log, k :: IsRun(cfg, first, log) && Ticking(first, log) && 0 <= k < |log| && Silent(cfg, log, k) ==>
      log[k].answer != Verdict(false)
  }

  /** Silence is forgiven on all runs exactly when the limiter admits anything at all and its
      windows move on; without capacity it refuses instead. */
  lemma ForgivesExactlyWhen(cfg: Config, start: int)
    requires Sane(cfg)
    ensures Forgives(cfg, Frame(start, false)) <==> cfg.limit > 0 && (cfg.period > 0 || cfg.capacity == 0)
  {
    var first := Frame(start, false);
    if cfg.limit > 0 && (cfg.period > 0 || cfg.capacity == 0) {
      forall log: Log, k | IsRun(cfg, first, log) && Ticking(first, log) && 0 <= k < |log| && Silent(cfg, log, k)
        ensures log[k].answer != Verdict(false)
      {
        if cfg.period > 0 {
          SilenceIsForgiven(cfg, first, log, k);
        } else {
          ClosedAdmitsNothing(cfg, first, log, log[k].probe.ip, 0);
        }
      }
    } else {
      var log, k := Unforgiven(cfg, first);
      assert Silent(cfg, log, k);
    }
  }

  /** One probe too many of one address at one instant. */
  lemma Unforgiven(cfg: Config, first: Frame) returns (log: Log, k: nat)
    requires Sane(cfg) && (cfg.limit == 0 || (cfg.period == 0 && cfg.capacity > 0))
    ensures IsRun(cfg, first, log) && Ticking(first, log) && k < |log| && log[k].answer == Verdict(false)
    ensures Silent(cfg, log, k)
  {
    var probe := Probe(V4(0), first.startsAt, first.startsAt);
    log := Run(cfg, first, seq(cfg.limit + 1, _ => probe));
    if cfg.limit == 0 {
      k := 0;
      assert Follows(cfg, first, log, 0);
    } else {
      k := SomeLimited(cfg, first, log);
    }
  }

  /** An address alone in a window is never refused. */
  lemma AloneIsHeard(cfg: Config, first: Frame, log: Log)
    requires IsRun(cfg, first, log) && cfg.limit > 0 && cfg.capacity > 0
    requires forall i, j :: 0 <= i < j < |log| ==>
               log[i].probe.ip == log[j].probe.ip && log[i].frame.startsAt == log[j].frame.startsAt
    ensures forall i :: 0 <= i < |log| ==> log[i].answer != Full
  {
    if log != [] {
      assert Follows(cfg, first, log, 0) && Known(log[..0], log[0].frame.startsAt) == {};
      forall i | 0 < i < |log| ensures log[i].answer != Full {
        RefusedAlwaysOrNever(cfg, first, log, 0, i);
      }
    }
  }

  lemma SomeLimited(cfg: Config, first: Frame, log: Log) returns (k: nat)
    requires IsRun(cfg, first, log) && cfg.period == 0 && cfg.capacity > 0 && 0 < cfg.limit < |log|
    requires forall i :: 0 <= i < |log| ==> log[i].probe.ip == V4(0)
    ensures k < |log| && log[k].answer == Verdict(false)
  {
    var p := (e: Entry) => e.probe.ip == V4(0) && e.answer == Verdict(true);
    ZeroPeriodNeverMovesOn(cfg, first, log);
    ZeroPeriodAdmitsLimitOnce(cfg, first, log, V4(0));
    if forall i :: 0 <= i < |log| ==> p(log[i]) {
      CountAll(log, p);
      assert false;
    }
    k :| 0 <= k < |log| && !p(log[k]);
    AloneIsHeard(cfg, first, log);
  }

  /** A window never holds more addresses than its capacity. */
  lemma {:induction false} WithinCapacity(cfg: Config, first: Frame, log: Log, window: int)
    requires IsRun(cfg, first, log) && cfg.limit > 0
    ensures |Known(log, window)| <= cfg.capacity
  {
    if log != [] {
      var n := |log| - 1;
      RunPrefix(cfg, first, log, n);
      WithinCapacity(cfg, first, log[..n], window);
      assert Follows(cfg, first, log, n);
      assert log == log[..n] + [log[n]];
      KnownSnoc(log[..n], log[n], window);
      KnownIffCharged(log[..n], log[n].probe.ip, window);
      if log[n].probe.ip in Known(log[..n], window) {
        assert Known(log, window) == Known(log[..n], window);
      }
    } else {
      assert Known(log, window) == {};
    }
  }

  lemma SubsetOfSameSize(a: set<IpAddr>, b: set<IpAddr>)
    requires a <= b && |b| <= |a|
    ensures a == b
  {
    assert b == a + (b - a);
    assert |b - a| == 0;
  }

  /** Inside one window an address is refused always or never. */
  lemma RefusedAlwaysOrNever(cfg: Config, first: Frame, log: Log, i: nat, j: nat)
    requires IsRun(cfg, first, log) && cfg.limit > 0 && i < j < |log|
    requires log[i].probe.ip == log[j].probe.ip && log[i].frame.startsAt == log[j].frame.startsAt
    ensures log[i].answer == Full <==> log[j].answer == Full
  {
    var ip, w := log[i].probe.ip, log[i].frame.startsAt;
    assert Follows(cfg, first, log, i) && Follows(cfg, first, log, j);
    KnownIffCharged(log[..j], ip, w);
    KnownIffCharged(log[..i], ip, w);
    if log[i].answer != Full {
      assert log[i] in log[..j];
    } else {
      assert Known(log[..i], w) <= Known(log[..j], w);
      RunPrefix(cfg, first, log, j);
      WithinCapacity(cfg, first, log[..j], w);
      SubsetOfSameSize(Known(log[..i], w), Known(log[..j], w));
    }
  }
}
