/** The rate limiter as a law over the log of its own probes.
    No bucket, no map and no counter appears here: what a probe is answered is
    decided by counting earlier log entries.  `RateLimiter` keeps two buckets
    instead and is proved to give exactly these answers. */
module SlidingWindow {
  const NANOS: nat := 1_000_000_000
  const U16_MAX: nat := 0xFFFF

  datatype IpAddr = V4(bits: nat) | V6(bits: nat)

  /** `Full` is `Err(())`; `Verdict(b)` is `Ok(b)`. */
  datatype Answer = Full | Verdict(resume: bool)

  /** `capacity` is the number of addresses one window can hold. */
  datatype Config = Config(limit: nat, period: nat, capacity: nat)

  /** What a rule's configuration can be: the limit is clamped below the largest counter
      value and the window is a number of whole seconds. */
  type LimiterConfig = cfg: Config | Sane(cfg) witness Config(0, 0, 0)

  /** The current window.  A `linked` window began exactly one period after the one
      before it, which is still remembered; any other window remembers nothing. */
  datatype Frame = Frame(startsAt: int, linked: bool)

  /** One call: the clock is read once to place the probe and once more to weigh it. */
  datatype Probe = Probe(ip: IpAddr, now: int, later: int)

  datatype Entry = Entry(probe: Probe, frame: Frame, answer: Answer)

  type Log = seq<Entry>

  predicate Sane(cfg: Config) {
    cfg.limit < U16_MAX && cfg.period % NANOS == 0
  }

  function Min(a: nat, b: nat): nat { if a <= b then a else b }

  function Elapsed(since: int, now: int): nat { if now >= since then now - since else 0 }

  function Share(whole: nat, part: nat, parts: nat): nat
    requires parts > 0
  {
    var scaled: nat := whole * part;
    scaled / parts
  }

  /** The share of the previous window that still weighs on the current one,
      computed on whole seconds. */
  function GetApprox(prev: nat, needle: nat, period: nat): nat
    requires period % NANOS == 0
  {
    if needle >= period then 0 else Share(prev, period / NANOS - needle / NANOS, period / NANOS)
  }

  function Count(log: Log, p: Entry -> bool): nat {
    if log == [] then 0
    else Count(log[..|log| - 1], p) + if p(log[|log| - 1]) then 1 else 0
  }

  /** Probes of `ip` charged to the window starting at `window`: all but the refused ones. */
  function Charged(ip: IpAddr, window: int): Entry -> bool {
    (e: Entry) => e.probe.ip == ip && e.frame.startsAt == window && e.answer.Verdict?
  }

  function Sum(log: Log, ip: IpAddr, window: int): nat { Count(log, Charged(ip, window)) }

  /** The addresses that hold a place in a window. */
  function Known(log: Log, window: int): set<IpAddr> {
    set e | e in log && e.frame.startsAt == window && e.answer.Verdict? :: e.probe.ip
  }

  function NextFrame(cfg: Config, frame: Frame, now: int): Frame {
    if cfg.limit == 0 || cfg.period == 0 || now < frame.startsAt + cfg.period then frame
    else if !frame.linked && now < frame.startsAt + 2 * cfg.period then Frame(frame.startsAt + cfg.period, true)
    else Frame(now, false)
  }

  function PrevSum(cfg: Config, log: Log, frame: Frame, ip: IpAddr): nat {
    if frame.linked then Sum(log, ip, frame.startsAt - cfg.period) else 0
  }

  /** The answer to a probe that falls into window `frame`. */
  function Decide(cfg: Config, log: Log, frame: Frame, probe: Probe): Answer
    requires Sane(cfg)
  {
    var sum := Sum(log, probe.ip, frame.startsAt);
    if cfg.limit == 0 then Verdict(false)
    else if sum == 0 && |Known(log, frame.startsAt)| == cfg.capacity then Full
    else
      var prev := Min(U16_MAX, PrevSum(cfg, log, frame, probe.ip));
      var approx := GetApprox(prev, Elapsed(frame.startsAt, probe.later), cfg.period);
      Verdict(cfg.limit >= approx + Min(U16_MAX, sum + 1))
  }

  function Outcome(cfg: Config, log: Log, frame: Frame, probe: Probe): Entry
    requires Sane(cfg)
  {
    var frame' := NextFrame(cfg, frame, probe.now);
    Entry(probe, frame', Decide(cfg, log, frame', probe))
  }

  function LastFrame(first: Frame, log: Log): Frame {
    if log == [] then first else log[|log| - 1].frame
  }

  /** Entry `k` is what its probe is answered after the entries before it. */
  ghost predicate Follows(cfg: Config, first: Frame, log: Log, k: nat)
    requires Sane(cfg) && k < |log|
  {
    log[k] == Outcome(cfg, log[..k], LastFrame(first, log[..k]), log[k].probe)
  }

  /** `log` is a run of a limiter whose first window is `first`. */
  ghost predicate IsRun(cfg: Config, first: Frame, log: Log) {
    Sane(cfg) && forall k :: 0 <= k < |log| ==> Follows(cfg, first, log, k)
  }

  lemma RunSnoc(cfg: Config, first: Frame, log: Log, probe: Probe)
    requires IsRun(cfg, first, log)
    ensures IsRun(cfg, first, log + [Outcome(cfg, log, LastFrame(first, log), probe)])
  {
    var log' := log + [Outcome(cfg, log, LastFrame(first, log), probe)];
    forall k | 0 <= k < |log'| ensures Follows(cfg, first, log', k) {
      assert log'[..k] == log[..k];
      assert k < |log| ==> Follows(cfg, first, log, k);
      assert k == |log| ==> log'[..k] == log;
    }
  }

  lemma RunPrefix(cfg: Config, first: Frame, log: Log, n: nat)
    requires IsRun(cfg, first, log) && n <= |log|
    ensures IsRun(cfg, first, log[..n])
  {
    forall k | 0 <= k < n ensures Follows(cfg, first, log[..n], k) {
      assert log[..n][..k] == log[..k];
      assert Follows(cfg, first, log, k);
    }
  }

  /** Every sequence of probes has a run, and that run is the only one. */
  function Run(cfg: Config, first: Frame, probes: seq<Probe>): (log: Log)
    requires Sane(cfg)
    ensures |log| == |probes| && IsRun(cfg, first, log)
    ensures forall i :: 0 <= i < |log| ==> log[i].probe == probes[i]
  {
    if probes == [] then []
    else
      var log := Run(cfg, first, probes[..|probes| - 1]);
      RunSnoc(cfg, first, log, probes[|probes| - 1]);
      log + [Outcome(cfg, log, LastFrame(first, log), probes[|probes| - 1])]
  }

  lemma {:induction false} RunUnique(cfg: Config, first: Frame, log: Log, log': Log)
    requires IsRun(cfg, first, log) && IsRun(cfg, first, log') && |log| == |log'|
    requires forall i :: 0 <= i < |log| ==> log[i].probe == log'[i].probe
    ensures log == log'
  {
    if log != [] {
      var n := |log| - 1;
      RunPrefix(cfg, first, log, n);
      RunPrefix(cfg, first, log', n);
      RunUnique(cfg, first, log[..n], log'[..n]);
      assert Follows(cfg, first, log, n) && Follows(cfg, first, log', n);
      assert log == log[..n] + [log[n]] && log' == log'[..n] + [log'[n]];
    }
  }

  lemma CountSnoc(log: Log, e: Entry, p: Entry -> bool)
    ensures Count(log + [e], p) == Count(log, p) + if p(e) then 1 else 0
  {
    assert (log + [e])[..|log|] == log;
  }

  lemma {:induction false} CountZero(log: Log, p: Entry -> bool)
    ensures Count(log, p) == 0 <==> forall i :: 0 <= i < |log| ==> !p(log[i])
  {
    if log != [] {
      var init := log[..|log| - 1];
      CountZero(init, p);
      assert forall i :: 0 <= i < |init| ==> init[i] == log[i];
    }
  }

  lemma {:induction false} CountCovered(log: Log, p: Entry -> bool, q: Entry -> bool, r: Entry -> bool)
    requires forall i :: 0 <= i < |log| && p(log[i]) ==> q(log[i]) || r(log[i])
    ensures Count(log, p) <= Count(log, q) + Count(log, r)
  {
    if log != [] {
      var init := log[..|log| - 1];
      assert forall i :: 0 <= i < |init| ==> init[i] == log[i];
      CountCovered(init, p, q, r);
    }
  }

  /** Holding a place and being charged are the same thing. */
  lemma KnownIffCharged(log: Log, ip: IpAddr, window: int)
    ensures ip in Known(log, window) <==> Sum(log, ip, window) > 0
  {
    CountZero(log, Charged(ip, window));
    if ip in Known(log, window) {
      var e :| e in log && e.frame.startsAt == window && e.answer.Verdict? && e.probe.ip == ip;
      var i :| 0 <= i < |log| && log[i] == e;
      assert Charged(ip, window)(log[i]);
    }
  }

  lemma KnownSnoc(log: Log, e: Entry, window: int)
    ensures Known(log + [e], window)
         == Known(log, window) + if e.frame.startsAt == window && e.answer.Verdict? then {e.probe.ip} else {}
  {
    var left, right := Known(log + [e], window), Known(log, window);
    forall ip | ip in left
      ensures ip in right || (e.frame.startsAt == window && e.answer.Verdict? && ip == e.probe.ip)
    {
      var x :| x in log + [e] && x.frame.startsAt == window && x.answer.Verdict? && x.probe.ip == ip;
      assert x in log || x == e;
    }
    forall ip | ip in right ensures ip in left {
      var x :| x in log && x.frame.startsAt == window && x.answer.Verdict? && x.probe.ip == ip;
      assert x in log + [e];
    }
    assert e in log + [e];
  }
}
