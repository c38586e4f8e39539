/** Any number of requests, over any number of listeners, sharing one limiter worker per
    rule: the handler of pingoo/listeners/http_listener.rs and the worker of
    pingoo/rate_limiter.rs as one step system. */
module Gateway {
  import opened SlidingWindow
  import opened RateLimiterRuns
  import opened Wrappers
  import opened HttpListener

  /** `pc` actions of the script are behind the request; `Waiting` waits for the answer to the
      probe of the next one. */
  datatype Phase = Ready(pc: nat) | Waiting(pc: nat) | Done(response: Response, pc: nat) | Dropped

  datatype Process = Process(req: Request, phase: Phase)

  /** A probe with the way back to the handler that sent it. */
  datatype Ticket = Ticket(id: nat, pc: nat, ip: IpAddr)

  /** One worker: the tickets queued for it, its log, and the ticket behind each log entry.
      `sent` records every ticket that ever entered the queue. */
  datatype Channel = Channel(first: Frame, queue: seq<Ticket>, log: Log, answered: seq<Ticket>, sent: seq<Ticket>)

  datatype Setup = Setup(rules: seq<Rule>, services: seq<Request -> bool>)

  datatype System = System(procs: map<nat, Process>, channels: seq<Channel>)

  /** `Lose` is a handler that finds its channel closed, before its probe is queued or after;
      `Drop` is a client that went away. */
  datatype Event =
    | Accept(id: nat, req: Request)
    | Advance(id: nat)
    | Lose(id: nat)
    | Drop(id: nat)
    | Serve(rule: nat, now: int, later: int)

  function ScriptOf(setup: Setup, req: Request): seq<Instr> { Script(setup.rules, req, 0) }

  ghost predicate Initial(setup: Setup, s: System) {
    && s.procs == map[]
    && |s.channels| == |setup.rules|
    && forall r :: 0 <= r < |s.channels| ==> s.channels[r] == Channel(s.channels[r].first, [], [], [], [])
  }

  predicate ClockAllows(c: Channel, now: int, later: int) {
    && c.first.startsAt <= now <= later
    && (c.log != [] ==> c.log[|c.log| - 1].probe.later <= now)
  }

  predicate Enabled(setup: Setup, s: System, ev: Event)
    requires |s.channels| == |setup.rules|
  {
    match ev
    case Accept(id, _) => id !in s.procs
    case Drop(id) => id in s.procs && (s.procs[id].phase.Ready? || s.procs[id].phase.Waiting?)
    case Lose(id) =>
      && id in s.procs && (s.procs[id].phase.Ready? || s.procs[id].phase.Waiting?)
      && (s.procs[id].phase.Ready? ==> AdvancePhase(setup, s.procs[id]).Waiting?)
    case Advance(id) =>
      && id in s.procs && s.procs[id].phase.Ready?
      && var phase := AdvancePhase(setup, s.procs[id]);
         // a sender waits while the channel is full
         (phase.Waiting? ==> |s.channels[ScriptOf(setup, s.procs[id].req)[phase.pc].rule].queue| < CHANNEL_SIZE)
    case Serve(r, now, later) =>
      && r < |setup.rules| && setup.rules[r].limiter.Some?
      && s.channels[r].queue != [] && ClockAllows(s.channels[r], now, later)
  }

  /** One action of a handler, or the choice of a service after the last one. */
  function AdvancePhase(setup: Setup, p: Process): (phase: Phase)
    requires p.phase.Ready?
    ensures phase.Waiting? ==>
              phase.pc == p.phase.pc < |ScriptOf(setup, p.req)| && Probes(setup.rules, ScriptOf(setup, p.req)[phase.pc])
  {
    var script := ScriptOf(setup, p.req);
    var pc := p.phase.pc;
    if pc >= |script| then Done(Dispatch(setup.services, p.req, 0), pc)
    else if Probes(setup.rules, script[pc]) then Waiting(pc)
    else
      var effect := Effect(setup.rules, p.req, script[pc], Unreachable);
      if effect.Some? then Done(effect.value, pc) else Ready(pc + 1)
  }

  /** The answer goes to the handler that waits for this very ticket, or to nobody. */
  function Deliver(p: Process, ticket: Ticket, answer: Answer): Process {
    if p.phase != Waiting(ticket.pc) then p
    else
      var response := ReplyResponse(Answered(answer));
      p.(phase := if response.Some? then Done(response.value, ticket.pc) else Ready(ticket.pc + 1))
  }

  /** The worker takes the oldest ticket and answers it. */
  function Receive(cfg: LimiterConfig, c: Channel, now: int, later: int): Channel
    requires c.queue != []
  {
    var probe := Probe(c.queue[0].ip, now, later);
    c.(queue := c.queue[1..], answered := c.answered + [c.queue[0]],
       log := c.log + [Outcome(cfg, c.log, LastFrame(c.first, c.log), probe)])
  }

  function Enqueue(c: Channel, ticket: Ticket): Channel {
    c.(queue := c.queue + [ticket], sent := c.sent + [ticket])
  }

  function Apply(setup: Setup, s: System, ev: Event): System
    requires |s.channels| == |setup.rules| && Enabled(setup, s, ev)
  {
    match ev
    case Accept(id, req) =>
      var gate := GateResponse(req);
      s.(procs := s.procs[id := Process(req, if gate.Some? then Done(gate.value, 0) else Ready(0))])
    case Drop(id) => s.(procs := s.procs[id := s.procs[id].(phase := Dropped)])
    case Lose(id) =>
      var p := s.procs[id];
      s.(procs := s.procs[id := p.(phase := Done(InternalError, p.phase.pc))])
    case Advance(id) =>
      var p := s.procs[id];
      var phase := AdvancePhase(setup, p);
      var procs := s.procs[id := p.(phase := phase)];
      if phase.Waiting? then
        var r := ScriptOf(setup, p.req)[phase.pc].rule;
        System(procs, s.channels[r := Enqueue(s.channels[r], Ticket(id, phase.pc, p.req.ip))])
      else s.(procs := procs)
    case Serve(r, now, later) =>
      var ticket := s.channels[r].queue[0];
      var c := Receive(setup.rules[r].limiter.value, s.channels[r], now, later);
      var procs := if ticket.id in s.procs
                   then s.procs[ticket.id := Deliver(s.procs[ticket.id], ticket, c.log[|c.log| - 1].answer)]
                   else s.procs;
      System(procs, s.channels[r := c])
  }

  /** `events` takes the system from `s` to `s'`. */
  predicate Runs(setup: Setup, s: System, events: seq<Event>, s': System)
    decreases events
  {
    if events == [] then s == s'
    else
      && |s.channels| == |setup.rules| && Enabled(setup, s, events[0])
      && Runs(setup, Apply(setup, s, events[0]), events[1..], s')
  }

  ghost predicate Reachable(setup: Setup, s: System) {
    exists s0, events :: Initial(setup, s0) && Runs(setup, s0, events, s)
  }

  // Invariants

  /** A worker's book-keeping: its log is a run, and what was sent is what was answered
      followed by what still waits, in order. */
  ghost predicate Orderly(cfg: Option<LimiterConfig>, c: Channel) {
    && c.sent == c.answered + c.queue
    && |c.log| == |c.answered| && |c.queue| <= CHANNEL_SIZE
    && (forall k :: 0 <= k < |c.log| ==> c.log[k].probe.ip == c.answered[k].ip)
    && (cfg.Some? ==> IsRun(cfg.value, c.first, c.log) && Ticking(c.first, c.log))
    && (cfg.None? ==> c.sent == [])
  }

  /** The worker gave this answer to ticket `pc` of this request. */
  ghost predicate Replied(c: Channel, id: nat, pc: nat, ip: IpAddr, answer: Answer) {
    exists k ::
      0 <= k < |c.log| && k < |c.answered| && c.answered[k] == Ticket(id, pc, ip) && c.log[k].answer == answer
  }

  ghost predicate Admits(c: Channel, id: nat, pc: nat, ip: IpAddr) { Replied(c, id, pc, ip, Verdict(true)) }

  /** Action `pc` let the request pass. */
  ghost predicate Cleared(setup: Setup, s: System, id: nat, req: Request, pc: nat) {
    var script := ScriptOf(setup, req);
    && pc < |script| && script[pc].rule < |s.channels|
    && (Probes(setup.rules, script[pc]) ==> Admits(s.channels[script[pc].rule], id, pc, req.ip))
    && script[pc].action != Block
    && (script[pc].action == Captcha ==> req.verifiedCookie == Some(true))
  }

  /** Action `pc` ended the request with this response. */
  ghost predicate Stopped(setup: Setup, s: System, id: nat, req: Request, pc: nat, response: Response) {
    var script := ScriptOf(setup, req);
    && pc < |script| && script[pc].rule < |s.channels|
    && if Probes(setup.rules, script[pc]) then
         match response
         case InternalError => true
         case ServiceUnavailable => Replied(s.channels[script[pc].rule], id, pc, req.ip, Full)
         case TooManyRequests => Replied(s.channels[script[pc].rule], id, pc, req.ip, Verdict(false))
         case _ => false
       else Effect(setup.rules, req, script[pc], Unreachable) == Some(response)
  }

  /** Why a request with `pc` actions behind it was answered this. */
  ghost predicate Ended(setup: Setup, s: System, id: nat, req: Request, pc: nat, response: Response) {
    var gate := GateResponse(req);
    if gate.Some? then response == gate.value
    else if pc == |ScriptOf(setup, req)| then response == Dispatch(setup.services, req, 0)
    else Stopped(setup, s, id, req, pc, response)
  }

  /** How many actions a request has behind it. */
  function Progress(setup: Setup, p: Process): nat {
    match p.phase
    case Ready(pc) => pc
    case Waiting(pc) => pc
    case Done(_, pc) => pc
    case Dropped => 0
  }

  ghost predicate Honest(setup: Setup, s: System, id: nat)
    requires id in s.procs
  {
    var p := s.procs[id];
    && Progress(setup, p) <= |ScriptOf(setup, p.req)|
    && (forall pc :: 0 <= pc < Progress(setup, p) ==> Cleared(setup, s, id, p.req, pc))
    && (p.phase.Waiting? ==>
          p.phase.pc < |ScriptOf(setup, p.req)| && Probes(setup.rules, ScriptOf(setup, p.req)[p.phase.pc]))
    && (p.phase.Done? ==> Ended(setup, s, id, p.req, p.phase.pc, p.phase.response))
    && (p.phase.Ready? || p.phase.Waiting? ==> GateResponse(p.req).None?)
  }

  /** A ticket stands for a probe its request did send, at the rule it was sent to. */
  ghost predicate Genuine(setup: Setup, s: System, r: nat, t: Ticket) {
    && t.id in s.procs && s.procs[t.id].req.ip == t.ip
    && var script := ScriptOf(setup, s.procs[t.id].req);
    && t.pc < |script| && Probes(setup.rules, script[t.pc]) && script[t.pc].rule == r
    && (s.procs[t.id].phase.Ready? ==> t.pc < s.procs[t.id].phase.pc)
    && (s.procs[t.id].phase.Waiting? ==> t.pc <= s.procs[t.id].phase.pc)
  }

  ghost predicate Distinct(ts: seq<Ticket>) {
    forall i, j :: 0 <= i < j < |ts| ==> ts[i] != ts[j]
  }

  ghost predicate AllGenuine(setup: Setup, s: System) {
    forall r, t :: 0 <= r < |s.channels| && t in s.channels[r].sent ==> Genuine(setup, s, r, t)
  }

  ghost predicate Inv(setup: Setup, s: System) {
    && |s.channels| == |setup.rules|
    && (forall r :: 0 <= r < |s.channels| ==>
          Orderly(setup.rules[r].limiter, s.channels[r]) && Distinct(s.channels[r].sent))
    && AllGenuine(setup, s)
    && (forall id :: id in s.procs ==> Honest(setup, s, id))
  }

  lemma InvHolds(setup: Setup, s: System)
    requires Reachable(setup, s)
    ensures Inv(setup, s)
  {
    var s0, events :| Initial(setup, s0) && Runs(setup, s0, events, s);
    InvAlong(setup, s0, events, s);
  }

  lemma {:induction false} InvAlong(setup: Setup, s: System, events: seq<Event>, s': System)
    requires Inv(setup, s) && Runs(setup, s, events, s')
    ensures Inv(setup, s')
    decreases events
  {
    if events != [] {
      InvKept(setup, s, events[0]);
      InvAlong(setup, Apply(setup, s, events[0]), events[1..], s');
    }
  }

  lemma InvKept(setup: Setup, s: System, ev: Event)
    requires Inv(setup, s) && Enabled(setup, s, ev)
    ensures Inv(setup, Apply(setup, s, ev))
  {
    match ev
    case Accept(id, req) => ProcsOnly(setup, s, ev, id);
    case Drop(id) => ProcsOnly(setup, s, ev, id);
    case Lose(id) => ProcsOnly(setup, s, ev, id);
    case Advance(id) =>
      if AdvancePhase(setup, s.procs[id]).Waiting? {
        SendKept(setup, s, id);
      } else {
        ProcsOnly(setup, s, ev, id);
      }
    case Serve(r, now, later) => ServeKept(setup, s, r, now, later);
  }

  /** Steps that touch one request and no channel. */
  lemma ProcsOnly(setup: Setup, s: System, ev: Event, id: nat)
    requires Inv(setup, s) && Enabled(setup, s, ev)
    requires ev == Drop(id) || ev == Lose(id) || (ev.Accept? && ev.id == id)
          || (ev == Advance(id) && !AdvancePhase(setup, s.procs[id]).Waiting?)
    ensures Inv(setup, Apply(setup, s, ev))
  {
    hide Genuine, Cleared, Script, Dispatch, Orderly, Distinct;
    var s' := Apply(setup, s, ev);
    TicketsKept(setup, s, s', id);
    forall x | x in s'.procs ensures Honest(setup, s', x) {
      if x != id {
        OthersKept(setup, s, s', x);
      } else if !ev.Accept? {
        assert Honest(setup, s, id);
        LogsGrow(setup, s, s', id);
        if ev.Advance? {
          Advanced(setup, s, s', id);
        }
      }
    }
  }

  lemma TicketsKept(setup: Setup, s: System, s': System, id: nat)
    requires AllGenuine(setup, s) && s'.channels == s.channels && s.procs.Keys <= s'.procs.Keys
    requires forall x :: x in s.procs && x != id ==> s'.procs[x] == s.procs[x]
    requires id in s.procs ==> s'.procs[id].req == s.procs[id].req
    requires id in s.procs && s'.procs[id].phase.Ready? ==>
               s.procs[id].phase.Ready? && s.procs[id].phase.pc <= s'.procs[id].phase.pc
    requires id in s.procs ==> !s'.procs[id].phase.Waiting?
    ensures AllGenuine(setup, s')
  {
    forall r, t | 0 <= r < |s'.channels| && t in s'.channels[r].sent ensures Genuine(setup, s', r, t) {
      assert Genuine(setup, s, r, t);
    }
  }

  lemma OthersKept(setup: Setup, s: System, s': System, x: nat)
    requires x in s.procs && Honest(setup, s, x) && x in s'.procs && s'.procs[x] == s.procs[x]
    requires GrownLogs(setup, s, s')
    ensures Honest(setup, s', x)
  {
    LogsGrow(setup, s, s', x);
  }

  lemma Advanced(setup: Setup, s: System, s': System, id: nat)
    requires id in s.procs && s.procs[id].phase.Ready? && Honest(setup, s, id) && GrownLogs(setup, s, s')
    requires id in s'.procs && s'.procs[id] == s.procs[id].(phase := AdvancePhase(setup, s.procs[id]))
    ensures Honest(setup, s', id)
  {
    LogsGrow(setup, s, s', id);
    var p := s.procs[id];
    if p.phase.pc < |ScriptOf(setup, p.req)| && s'.procs[id].phase == Ready(p.phase.pc + 1) {
      assert ScriptOf(setup, p.req)[p.phase.pc] in ScriptOf(setup, p.req);
      assert Cleared(setup, s', id, p.req, p.phase.pc);
    }
  }

  ghost predicate GrownLogs(setup: Setup, s: System, s': System) {
    && |s.channels| == |s'.channels| == |setup.rules|
    && forall r :: 0 <= r < |s.channels| ==>
         s.channels[r].log <= s'.channels[r].log && s.channels[r].answered <= s'.channels[r].answered
  }

  /** A handler hands a probe to its rule's worker. */
  lemma SendKept(setup: Setup, s: System, id: nat)
    requires Inv(setup, s) && Enabled(setup, s, Advance(id)) && AdvancePhase(setup, s.procs[id]).Waiting?
    ensures Inv(setup, Apply(setup, s, Advance(id)))
  {
    var s' := Apply(setup, s, Advance(id));
    assert Honest(setup, s, id);
    TicketSent(setup, s, id);
    forall x | x in s'.procs ensures Honest(setup, s', x) {
      if x != id {
        OthersKept(setup, s, s', x);
      } else {
        Advanced(setup, s, s', id);
      }
    }
  }

  lemma TicketSent(setup: Setup, s: System, id: nat)
    requires Inv(setup, s) && Enabled(setup, s, Advance(id)) && AdvancePhase(setup, s.procs[id]).Waiting?
    ensures var s' := Apply(setup, s, Advance(id));
      && AllGenuine(setup, s') && GrownLogs(setup, s, s')
      && forall r :: 0 <= r < |s'.channels| ==>
           Orderly(setup.rules[r].limiter, s'.channels[r]) && Distinct(s'.channels[r].sent)
  {
    hide Dispatch, IsRun, Honest, Effect;
    var s' := Apply(setup, s, Advance(id));
    var p := s.procs[id];
    var pc := p.phase.pc;
    var q := ScriptOf(setup, p.req)[pc].rule;
    var ticket := Ticket(id, pc, p.req.ip);
    assert Orderly(setup.rules[q].limiter, s.channels[q]);
    forall i | 0 <= i < |s.channels[q].sent| ensures s.channels[q].sent[i] != ticket {
      assert Genuine(setup, s, q, s.channels[q].sent[i]);
    }
    assert Distinct(s'.channels[q].sent);
    forall r, t | 0 <= r < |s.channels| && t in s'.channels[r].sent ensures Genuine(setup, s', r, t) {
      assert t in s.channels[r].sent ==> Genuine(setup, s, r, t);
    }
  }

  /** What a request has behind it stays behind it while logs grow. */
  lemma LogsGrow(setup: Setup, s: System, s': System, id: nat)
    requires GrownLogs(setup, s, s')
    ensures forall req, pc: nat :: Cleared(setup, s, id, req, pc) ==> Cleared(setup, s', id, req, pc)
    ensures forall req, pc: nat, response ::
              Stopped(setup, s, id, req, pc, response) ==> Stopped(setup, s', id, req, pc, response)
  {
    forall r, pc: nat, ip, answer | 0 <= r < |s.channels| && Replied(s.channels[r], id, pc, ip, answer)
      ensures Replied(s'.channels[r], id, pc, ip, answer)
    {
      var c := s.channels[r];
      var k :| 0 <= k < |c.log| && k < |c.answered| && c.answered[k] == Ticket(id, pc, ip) && c.log[k].answer == answer;
      assert s'.channels[r].answered[k] == Ticket(id, pc, ip);
    }
  }

  lemma WorkerKept(cfg: LimiterConfig, c: Channel, now: int, later: int)
    requires Orderly(Some(cfg), c) && c.queue != [] && ClockAllows(c, now, later)
    ensures Orderly(Some(cfg), Receive(cfg, c, now, later))
  {
    RunSnoc(cfg, c.first, c.log, Probe(c.queue[0].ip, now, later));
    var c' := Receive(cfg, c, now, later);
    assert c.answered + c.queue == c.answered + [c.queue[0]] + c.queue[1..];
    forall i | 0 <= i < |c.log| ensures c'.log[i].probe.later <= now {
      assert c.log[i].probe.now <= c.log[i].probe.later;
      assert i < |c.log| - 1 ==> c.log[i].probe.later <= c.log[|c.log| - 1].probe.now;
    }
  }

  lemma ServeKept(setup: Setup, s: System, q: nat, now: int, later: int)
    requires Inv(setup, s) && Enabled(setup, s, Serve(q, now, later))
    ensures Inv(setup, Apply(setup, s, Serve(q, now, later)))
  {
    var s' := Apply(setup, s, Serve(q, now, later));
    var ticket := s.channels[q].queue[0];
    TicketServed(setup, s, q, now, later);
    forall x | x in s'.procs ensures Honest(setup, s', x) {
      if x != ticket.id {
        OthersKept(setup, s, s', x);
      } else {
        assert Honest(setup, s, x);
        Delivered(setup, s, s', q, ticket);
      }
    }
  }

  lemma TicketServed(setup: Setup, s: System, q: nat, now: int, later: int)
    requires Inv(setup, s) && Enabled(setup, s, Serve(q, now, later))
    ensures var s' := Apply(setup, s, Serve(q, now, later));
      && Genuine(setup, s, q, s.channels[q].queue[0])
      && AllGenuine(setup, s') && GrownLogs(setup, s, s')
      && |s'.channels[q].log| == |s'.channels[q].answered|
      && forall r :: 0 <= r < |s'.channels| ==>
           Orderly(setup.rules[r].limiter, s'.channels[r]) && Distinct(s'.channels[r].sent)
  {
    hide Dispatch, IsRun, Honest, Effect, Script, Decide, NextFrame;
    var s' := Apply(setup, s, Serve(q, now, later));
    var c := s.channels[q];
    assert Orderly(setup.rules[q].limiter, c);
    WorkerKept(setup.rules[q].limiter.value, c, now, later);
    assert c.sent[|c.answered|] == c.queue[0];
    forall r, t | 0 <= r < |s.channels| && t in s'.channels[r].sent ensures Genuine(setup, s', r, t) {
      assert t in s.channels[r].sent;
      assert Genuine(setup, s, r, t);
    }
  }

  /** The handler that moves on after an answer was admitted by that answer. */
  lemma Delivered(setup: Setup, s: System, s': System, q: nat, ticket: Ticket)
    requires GrownLogs(setup, s, s') && q < |s.channels|
    requires ticket.id in s.procs && Honest(setup, s, ticket.id) && Genuine(setup, s, q, ticket)
    requires var c' := s'.channels[q];
      && |c'.log| == |c'.answered| > 0 && c'.answered[|c'.answered| - 1] == ticket
      && ticket.id in s'.procs
        && s'.procs[ticket.id] == Deliver(s.procs[ticket.id], ticket, c'.log[|c'.log| - 1].answer)
    ensures Honest(setup, s', ticket.id)
  {
    LogsGrow(setup, s, s', ticket.id);
    var p, p' := s.procs[ticket.id], s'.procs[ticket.id];
    if p.phase == Waiting(ticket.pc) {
      var c' := s'.channels[q];
      assert c'.answered[|c'.log| - 1] == Ticket(ticket.id, ticket.pc, p.req.ip);
      assert Replied(c', ticket.id, ticket.pc, p.req.ip, c'.log[|c'.log| - 1].answer);
    }
  }

  // What holds in every reachable state

  /** The limiter of rule `r` stands between this request and the services. */
  predicate Limits(setup: Setup, r: nat, req: Request) {
    r < |setup.rules| && setup.rules[r].limiter.Some? && setup.rules[r].matches(req) && Limit in setup.rules[r].actions
  }

  predicate ServedAt(s: System, id: nat) {
    id in s.procs && s.procs[id].phase.Done? && s.procs[id].phase.response.Served?
  }

  /** An action of a matching rule is in the script. */
  lemma {:induction false} InScript(setup: Setup, r: nat, action: Action, req: Request, from: nat) returns (pc: nat)
    requires from <= r < |setup.rules| && setup.rules[r].matches(req) && action in setup.rules[r].actions
    ensures var script := Script(setup.rules, req, from); pc < |script| && script[pc] == Instr(r, action)
    decreases r - from
  {
    var here := if setup.rules[from].matches(req) then Instrs(from, setup.rules[from].actions) else [];
    if from == r {
      pc :| 0 <= pc < |setup.rules[r].actions| && setup.rules[r].actions[pc] == action;
    } else {
      var rest := InScript(setup, r, action, req, from + 1);
      pc := |here| + rest;
    }
  }

  lemma ServedAtTheEnd(setup: Setup, s: System, id: nat)
    requires Reachable(setup, s) && ServedAt(s, id)
    ensures |s.channels| == |setup.rules|
    ensures var req := s.procs[id].req;
      && GateResponse(req).None? && s.procs[id].phase.response == Dispatch(setup.services, req, 0)
      && forall pc :: 0 <= pc < |ScriptOf(setup, req)| ==> Cleared(setup, s, id, req, pc)
  {
    hide Cleared;
    InvHolds(setup, s);
    assert Honest(setup, s, id);
  }

  /** No request reaches a service past a limiter that did not admit it. */
  lemma NoServiceWithoutAdmission(setup: Setup, s: System, id: nat, r: nat)
    requires Reachable(setup, s) && ServedAt(s, id) && Limits(setup, r, s.procs[id].req)
    ensures r < |s.channels| && exists pc :: Admits(s.channels[r], id, pc, s.procs[id].req.ip)
  {
    hide Reachable, Dispatch;
    ServedAtTheEnd(setup, s, id);
    var pc := InScript(setup, r, Limit, s.procs[id].req, 0);
    assert Cleared(setup, s, id, s.procs[id].req, pc);
  }

  /** A served request was stopped by nothing: it passed the gate, no matching rule blocks
      it, every captcha asked of it was solved, and it went to the first service that wants it. */
  lemma ServedPassedEverything(setup: Setup, s: System, id: nat)
    requires Reachable(setup, s) && ServedAt(s, id)
    ensures var req := s.procs[id].req;
      && 0 < req.userAgentLength < 256 && !req.captchaPath && req.verifiedCookie != Some(false)
      && (forall r :: 0 <= r < |setup.rules| && setup.rules[r].matches(req) ==>
            Block !in setup.rules[r].actions
            && (Captcha in setup.rules[r].actions ==> req.verifiedCookie == Some(true)))
      && (forall x :: x in ScriptOf(setup, req) ==>
            x.action != Block && (x.action == Captcha ==> req.verifiedCookie == Some(true)))
      && var k := s.procs[id].phase.response.service;
         k < |setup.services| && setup.services[k](req) && forall m :: 0 <= m < k ==> !setup.services[m](req)
  {
    ServedAtTheEnd(setup, s, id);
    var req := s.procs[id].req;
    DispatchFirst(setup.services, req, 0, s.procs[id].phase.response.service);
    forall x | x in ScriptOf(setup, req)
      ensures x.action != Block && (x.action == Captcha ==> req.verifiedCookie == Some(true))
    {
      var pc :| 0 <= pc < |ScriptOf(setup, req)| && ScriptOf(setup, req)[pc] == x;
      assert Cleared(setup, s, id, req, pc);
    }
    forall r | 0 <= r < |setup.rules| && setup.rules[r].matches(req)
      ensures Block !in setup.rules[r].actions
      ensures Captcha in setup.rules[r].actions ==> req.verifiedCookie == Some(true)
    {
      if Block in setup.rules[r].actions {
        var pc := InScript(setup, r, Block, req, 0);
      }
      if Captcha in setup.rules[r].actions {
        var pc := InScript(setup, r, Captcha, req, 0);
      }
    }
  }

  /** Probes are conserved, answered in the order they were sent, and answered once. */
  lemma ProbesConserved(setup: Setup, s: System, r: nat)
    requires Reachable(setup, s) && r < |setup.rules|
    ensures r < |s.channels|
    ensures var c := s.channels[r];
      && c.sent == c.answered + c.queue && |c.log| == |c.answered| && |c.queue| <= 1024
      && (forall i, j :: 0 <= i < j < |c.sent| ==> c.sent[i] != c.sent[j])
      && (setup.rules[r].limiter.Some? ==>
            c.log == Run(setup.rules[r].limiter.value, c.first,
              seq(|c.log|, i requires 0 <= i < |c.log| => c.log[i].probe)))
  {
    InvHolds(setup, s);
    var c := s.channels[r];
    assert Orderly(setup.rules[r].limiter, c);
    if setup.rules[r].limiter.Some? {
      var cfg := setup.rules[r].limiter.value;
      RunUnique(cfg, c.first, c.log, Run(cfg, c.first, seq(|c.log|, i requires 0 <= i < |c.log| => c.log[i].probe)));
    }
  }

  /** The requests behind the log entries that satisfy `p`. */
  function Clients(log: Log, answered: seq<Ticket>, p: Entry -> bool): set<nat>
    requires |log| == |answered|
  {
    set k | 0 <= k < |log| && p(log[k]) :: answered[k].id
  }

  lemma {:induction false} ClientsAtMostCount(log: Log, answered: seq<Ticket>, p: Entry -> bool)
    requires |log| == |answered|
    ensures |Clients(log, answered, p)| <= Count(log, p)
  {
    if log == [] {
      assert Clients(log, answered, p) == {};
    } else {
      var n := |log| - 1;
      ClientsAtMostCount(log[..n], answered[..n], p);
      var rest := Clients(log[..n], answered[..n], p);
      if p(log[n]) {
        assert Clients(log, answered, p) == rest + {answered[n].id};
      } else {
        assert Clients(log, answered, p) == rest;
      }
    }
  }

  /** The requests of `ip` that reached a service past limiter `r`, admitted by it within
      the period that begins at `from`. */
  ghost function ServedWithin(setup: Setup, s: System, r: nat, ip: IpAddr, from: int): set<nat>
    requires r < |s.channels| && r < |setup.rules| && setup.rules[r].limiter.Some?
  {
    var until := from + setup.rules[r].limiter.value.period;
    set id | id in s.procs && ServedAt(s, id) && Limits(setup, r, s.procs[id].req) && s.procs[id].req.ip == ip
             && AdmittedWithin(s.channels[r], id, ip, from, until)
  }

  ghost predicate AdmittedWithin(c: Channel, id: nat, ip: IpAddr, from: int, until: int) {
    exists k :: 0 <= k < |c.log| && k < |c.answered| && c.answered[k].id == id && AdmittedAt(ip, from, until)(c.log[k])
  }

  /** The limiter's bound reaches the services: over all listeners and whatever the
      interleaving, at most `2 * limit` requests of one address per period. */
  lemma ServicesSeeAtMostTwiceLimit(setup: Setup, s: System, r: nat, ip: IpAddr, from: int)
    requires Reachable(setup, s) && r < |setup.rules| && r < |s.channels|
    requires setup.rules[r].limiter.Some? && setup.rules[r].limiter.value.period > 0
    ensures |ServedWithin(setup, s, r, ip, from)| <= 2 * setup.rules[r].limiter.value.limit
  {
    hide Runs, AllGenuine, Honest, IsRun, Distinct, Count, Limits, ServedAt;
    InvHolds(setup, s);
    var cfg := setup.rules[r].limiter.value;
    var c := s.channels[r];
    assert Orderly(setup.rules[r].limiter, c);
    var p := AdmittedAt(ip, from, from + cfg.period);
    var served, clients := ServedWithin(setup, s, r, ip, from), Clients(c.log, c.answered, p);
    assert served <= clients;
    SubsetSize(served, clients);
    ClientsAtMostCount(c.log, c.answered, p);
    AtMostTwiceLimit(cfg, c.first, c.log, ip, from);
  }

  lemma SubsetSize(a: set<nat>, b: set<nat>)
    requires a <= b
    ensures |a| <= |b|
  {
    assert b == a + (b - a);
  }
}
