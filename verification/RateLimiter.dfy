/** pingoo/rate_limiter.rs: the two-bucket limiter and its worker loop. */
module RateLimiter {
  import opened SlidingWindow

  datatype Bucket = Bucket(startsAt: int, inner: map<IpAddr, nat>, capacity: nat)

  /** What is assumed of `HashMap::with_capacity`: it never reserves less than asked,
      and asking for what it reserved reserves the same again. */
  ghost predicate Allocator(alloc: nat -> nat) {
    forall c: nat :: alloc(c) >= c && alloc(alloc(c)) == alloc(c)
  }

  function CreatePrevWindow(instant: int, later: int, period: nat): int {
    if Elapsed(instant, later) < period then instant else instant - period
  }

  function Increment(sum: nat): nat { if sum >= U16_MAX then U16_MAX else sum + 1 }

  function SumOf(b: Bucket, ip: IpAddr): nat { if ip in b.inner then b.inner[ip] else 0 }

  /** A bucket after one more probe of `ip`. */
  function Credit(b: Bucket, ip: IpAddr): Bucket {
    b.(inner := b.inner[ip := Increment(SumOf(b, ip))])
  }

  /** The bucket holds exactly the charges of its window. */
  ghost predicate Holds(b: Bucket, log: Log) {
    forall ip :: SumOf(b, ip) == Min(U16_MAX, Sum(log, ip, b.startsAt)) && (ip in b.inner ==> b.inner[ip] > 0)
  }

  /** The two buckets carry the windows the log still depends on. */
  ghost predicate Mirrors(green: Bucket, blue: Bucket, period: nat, log: Log, frame: Frame) {
    if frame.linked then
      && period > 0
      && blue.startsAt == frame.startsAt
      && green.startsAt == frame.startsAt - period
      && Holds(blue, log) && Holds(green, log)
      && |blue.inner| <= blue.capacity
    else
      && green.startsAt == frame.startsAt >= blue.startsAt
      && Holds(green, log) && blue.inner == map[]
      && |green.inner| <= green.capacity
  }

  class RateLimiter {
    const alloc: nat -> nat
    const limit: nat
    const samplingPeriod: nat
    var green: Bucket
    var blue: Bucket

    ghost const first: Frame
    ghost const reserved: nat
    ghost var log: Log

    ghost predicate Valid()
      reads this
    {
      && Allocator(alloc)
      && IsRun(Cfg(), first, log)
      && alloc(reserved) == reserved
      && green.capacity == blue.capacity == reserved
      && (forall i :: 0 <= i < |log| ==> log[i].frame.startsAt <= Window().startsAt)
      && (limit > 0 ==> Mirrors(green, blue, samplingPeriod, log, Window()))
    }

    ghost function Cfg(): Config { Config(limit, samplingPeriod, reserved) }

    ghost function Window(): Frame
      reads this
    {
      LastFrame(first, log)
    }

    constructor (alloc: nat -> nat, limit: nat, samplingPeriod: nat, capacity: nat, now: int, later: int)
      requires Allocator(alloc)
      requires limit <= U16_MAX && samplingPeriod % NANOS == 0
      ensures Valid() && log == [] && first == Frame(now, false)
      ensures Cfg() == Config(if limit == 65535 then 65534 else limit, samplingPeriod, alloc(capacity))
      ensures green.startsAt == now
              && blue.startsAt == if later - now < samplingPeriod then now else now - samplingPeriod
    {
      var sanitized := limit;
      if limit == U16_MAX {
        sanitized := limit - 1;
      }
      var before := CreatePrevWindow(now, later, samplingPeriod);
      this.alloc := alloc;
      this.limit := sanitized;
      this.samplingPeriod := samplingPeriod;
      this.green := Bucket(now, map[], alloc(capacity));
      this.blue := Bucket(before, map[], alloc(capacity));
      this.first := Frame(now, false);
      this.reserved := alloc(capacity);
      this.log := [];
    }

    predicate IsWithinCurrWindow(now: int, start: int) { now < start + samplingPeriod }

    predicate IsOutsideNextWindow(now: int, start: int) { now >= start + 2 * samplingPeriod }

    /** One probe.  `now` and `later` are the two readings of the clock. */
    method CanResume(ip: IpAddr, now: int, later: int) returns (r: Answer)
      requires Valid()
      modifies this`green, this`blue, this`log
      ensures Valid()
      ensures log == old(log) + [Outcome(Cfg(), old(log), old(Window()), Probe(ip, now, later))]
      ensures r == log[|log| - 1].answer
    {
      RunSnoc(Cfg(), first, log, Probe(ip, now, later));
      ghost var entry := Outcome(Cfg(), log, Window(), Probe(ip, now, later));
      if limit == 0 {
        log := log + [entry];
        return Verdict(false);
      }
      Advance(now);
      r := Charge(Probe(ip, now, later), entry.frame);
      log := log + [entry];
    }

    /** Lines 144-169: charge the current bucket and weigh the previous one. */
    method Charge(probe: Probe, ghost frame: Frame) returns (r: Answer)
      requires Sane(Cfg()) && limit > 0 && Mirrors(green, blue, samplingPeriod, log, frame)
      requires green.capacity == blue.capacity == reserved
      modifies this`green, this`blue
      ensures green.capacity == blue.capacity == reserved
      ensures r == Decide(Cfg(), log, frame, probe)
      ensures Mirrors(green, blue, samplingPeriod, log + [Entry(probe, frame, r)], frame)
    {
      hide Mirrors, GetApprox;
      var ip := probe.ip;
      var isGreen := green.startsAt >= blue.startsAt;
      var curr, prev := if isGreen then green else blue, if isGreen then blue else green;
      BucketNumbers(green, blue, Cfg(), log, frame, ip);
      var currSum;
      if ip in curr.inner {
        currSum := Increment(curr.inner[ip]);
      } else if curr.capacity == |curr.inner| {
        RefusalMirrors(green, blue, samplingPeriod, log, Entry(probe, frame, Full));
        return Full;
      } else {
        currSum := Increment(0);
      }
      var prevSum := SumOf(prev, ip);
      var approx := GetApprox(prevSum, Elapsed(curr.startsAt, probe.later), samplingPeriod);
      r := Verdict(limit >= approx + currSum);
      ChargeMirrors(green, blue, samplingPeriod, log, Entry(probe, frame, r));
      curr := curr.(inner := curr.inner[ip := currSum]);
      assert curr == Credit(if isGreen then green else blue, ip);
      if isGreen { green := curr; } else { blue := curr; }
    }

    /** Lines 121-142: replace the buckets whose window is over. */
    method Advance(now: int)
      requires Valid() && limit > 0
      modifies this`green, this`blue
      ensures Mirrors(green, blue, samplingPeriod, log, NextFrame(Cfg(), Window(), now))
      ensures green.capacity == blue.capacity == reserved
    {
      var isGreen := green.startsAt >= blue.startsAt;
      var startsAt := if isGreen then green.startsAt else blue.startsAt;
      ghost var frame' := NextFrame(Cfg(), Window(), now);
      if !IsWithinCurrWindow(now, startsAt) && samplingPeriod > 0 {
        var capacity := green.capacity;
        NothingLater(log, frame'.startsAt, Window().startsAt);
        if IsOutsideNextWindow(now, green.startsAt) {
          green := Bucket(now, map[], alloc(capacity));
          blue := Bucket(now, map[], alloc(capacity));
        } else if isGreen {
          blue := Bucket(green.startsAt + samplingPeriod, map[], alloc(capacity));
        } else {
          // Lines 138-139 would make green the successor of blue.  A blue window that
          // is over always ends two periods after green, so it is reset instead.
          assert false;
        }
      }
    }
  }

  /** The four numbers `Charge` works with are the counts `Decide` works with. */
  lemma BucketNumbers(green: Bucket, blue: Bucket, cfg: Config, log: Log, frame: Frame, ip: IpAddr)
    requires Mirrors(green, blue, cfg.period, log, frame)
    ensures frame.linked <==> green.startsAt < blue.startsAt
    ensures var (curr, prev) := if frame.linked then (blue, green) else (green, blue);
            && curr.startsAt == frame.startsAt
            && |curr.inner| == |Known(log, frame.startsAt)|
            && (ip in curr.inner <==> Sum(log, ip, frame.startsAt) > 0)
            && Increment(SumOf(curr, ip)) == Min(U16_MAX, Sum(log, ip, frame.startsAt) + 1)
            && SumOf(prev, ip) == Min(U16_MAX, PrevSum(cfg, log, frame, ip))
  {
    BucketView(if frame.linked then blue else green, log, ip);
  }

  /** The worker of one rule: it owns its limiter and answers probes in the order it
      receives them, until the channel is closed. */
  method GetRateLimitHandle(alloc: nat -> nat, max: nat, window: nat, capacity: nat,
                            created: int, later: int, inbox: seq<Probe>) returns (answers: seq<Answer>)
    requires Allocator(alloc) && max <= U16_MAX && window <= U16_MAX
    ensures |answers| == |inbox|
    ensures var log := Run(WorkerConfig(alloc, max, window, capacity), Frame(created, false), inbox);
            forall i :: 0 <= i < |inbox| ==> answers[i] == log[i].answer
  {
    var limiter := new RateLimiter(alloc, max, window * NANOS, capacity, created, later);
    answers := [];
    var received := 0;
    while received < |inbox|
      invariant 0 <= received == |answers| == |limiter.log| <= |inbox|
      invariant limiter.Valid() && fresh(limiter) && limiter.first == Frame(created, false)
      invariant limiter.Cfg() == WorkerConfig(alloc, max, window, capacity)
      invariant forall i :: 0 <= i < received ==>
                  limiter.log[i].probe == inbox[i] && answers[i] == limiter.log[i].answer
    {
      var probe := inbox[received];
      var result := limiter.CanResume(probe.ip, probe.now, probe.later);
      answers := answers + [result];
      received := received + 1;
    }
    RunUnique(limiter.Cfg(), Frame(created, false), limiter.log, Run(limiter.Cfg(), Frame(created, false), inbox));
  }

  function WorkerConfig(alloc: nat -> nat, max: nat, window: nat, capacity: nat): (cfg: Config)
    requires max <= U16_MAX
    ensures Sane(cfg)
    ensures cfg.limit == (if max == 65535 then 65534 else max) && cfg.period == window * 1_000_000_000
    ensures cfg.capacity == alloc(capacity)
  {
    Config(Min(max, U16_MAX - 1), window * NANOS, alloc(capacity))
  }

  lemma NothingLater(log: Log, window: int, last: int)
    requires forall i :: 0 <= i < |log| ==> log[i].frame.startsAt <= last
    requires window > last
    ensures forall ip :: Sum(log, ip, window) == 0
  {
    forall ip ensures Sum(log, ip, window) == 0 {
      CountZero(log, Charged(ip, window));
    }
  }

  /** A charge counts in its own window only, and a refusal counts nowhere. */
  lemma KeepsHolding(b: Bucket, log: Log, e: Entry)
    ensures Holds(b, log) && (b.startsAt != e.frame.startsAt || e.answer == Full) ==> Holds(b, log + [e])
  {
    forall ip
      ensures Sum(log + [e], ip, b.startsAt) == Sum(log, ip, b.startsAt) + if Charged(ip, b.startsAt)(e) then 1 else 0
    {
      CountSnoc(log, e, Charged(ip, b.startsAt));
    }
  }

  lemma ChargedHolds(b: Bucket, log: Log, e: Entry)
    requires Holds(b, log) && e.frame.startsAt == b.startsAt && e.answer.Verdict?
    ensures Holds(Credit(b, e.probe.ip), log + [e])
  {
    forall ip ensures Sum(log + [e], ip, b.startsAt) == Sum(log, ip, b.startsAt) + if ip == e.probe.ip then 1 else 0 {
      CountSnoc(log, e, Charged(ip, b.startsAt));
    }
  }

  lemma RefusalMirrors(green: Bucket, blue: Bucket, period: nat, log: Log, e: Entry)
    requires Mirrors(green, blue, period, log, e.frame) && e.answer == Full
    ensures Mirrors(green, blue, period, log + [e], e.frame)
  {
    KeepsHolding(green, log, e);
    KeepsHolding(blue, log, e);
  }

  lemma ChargeMirrors(green: Bucket, blue: Bucket, period: nat, log: Log, e: Entry)
    requires Mirrors(green, blue, period, log, e.frame) && e.answer.Verdict?
    requires var curr := if e.frame.linked then blue else green;
             e.probe.ip in curr.inner || |curr.inner| != curr.capacity
    ensures if e.frame.linked
            then Mirrors(green, Credit(blue, e.probe.ip), period, log + [e], e.frame)
            else Mirrors(Credit(green, e.probe.ip), blue, period, log + [e], e.frame)
  {
    if e.frame.linked {
      KeepsHolding(green, log, e);
      ChargedHolds(blue, log, e);
      assert Credit(blue, e.probe.ip).inner.Keys == blue.inner.Keys + {e.probe.ip};
    } else {
      ChargedHolds(green, log, e);
      assert Credit(green, e.probe.ip).inner.Keys == green.inner.Keys + {e.probe.ip};
    }
  }

  /** A bucket's keys are the addresses known to its window. */
  lemma BucketView(b: Bucket, log: Log, ip: IpAddr)
    requires Holds(b, log)
    ensures b.inner.Keys == Known(log, b.startsAt) && |b.inner| == |Known(log, b.startsAt)|
    ensures ip in b.inner <==> Sum(log, ip, b.startsAt) > 0
  {
    forall x ensures x in b.inner <==> x in Known(log, b.startsAt) {
      KnownIffCharged(log, x, b.startsAt);
    }
    assert b.inner.Keys == Known(log, b.startsAt);
    KnownIffCharged(log, ip, b.startsAt);
  }
}
