/** What a concurrent handler answers is what the handler's loops answer, given the replies
    its own probes got. */
module GatewayAnswers {
  import opened SlidingWindow
  import opened Wrappers
  import opened HttpListener
  import opened Gateway

  /** The answer a ticket got from its worker, if it has got one. */
  ghost function AnswerTo(c: Channel, ticket: Ticket): Option<Answer> {
    if exists k :: 0 <= k < |c.log| && k < |c.answered| && c.answered[k] == ticket then
      var k :| 0 <= k < |c.log| && k < |c.answered| && c.answered[k] == ticket;
      Some(c.log[k].answer)
    else None
  }

  /** What the handler was told about its probe `pc`: the worker's answer, unless it found the
      channel gone. */
  ghost function ReplyTo(setup: Setup, s: System, id: nat, pc: nat): Reply
    requires |s.channels| == |setup.rules| && id in s.procs && pc < |ScriptOf(setup, s.procs[id].req)|
  {
    var p := s.procs[id];
    var answer := AnswerTo(s.channels[ScriptOf(setup, p.req)[pc].rule], Ticket(id, pc, p.req.ip));
    if p.phase == Done(InternalError, pc) || answer.None? then Unreachable else Answered(answer.value)
  }

  /** What it was told about each of its probes, from action `from` on. */
  ghost function Replies(setup: Setup, s: System, id: nat, from: nat): seq<Reply>
    requires |s.channels| == |setup.rules| && id in s.procs && from <= |ScriptOf(setup, s.procs[id].req)|
    decreases |ScriptOf(setup, s.procs[id].req)| - from
  {
    var script := ScriptOf(setup, s.procs[id].req);
    if from == |script| then []
    else
      var here := if Probes(setup.rules, script[from]) then [ReplyTo(setup, s, id, from)] else [];
      here + Replies(setup, s, id, from + 1)
  }

  function AsReplies(told: seq<Reply>): nat -> Reply { (n: nat) => if n < |told| then told[n] else Unreachable }

  /** From the probe after `sent` on, the replies are these. */
  predicate Tells(replies: nat -> Reply, sent: nat, told: seq<Reply>) {
    forall n :: 0 <= n < |told| ==> replies(sent + n) == told[n]
  }

  /** A ticket is answered once. */
  lemma OneAnswer(c: Channel, ticket: Ticket, answer: Answer)
    requires Distinct(c.sent) && c.sent == c.answered + c.queue
    requires Replied(c, ticket.id, ticket.pc, ticket.ip, answer)
    ensures AnswerTo(c, ticket) == Some(answer)
  {
    forall i, j | 0 <= i < j < |c.answered| ensures c.answered[i] != c.answered[j] {
      assert c.sent[i] == c.answered[i] && c.sent[j] == c.answered[j];
    }
  }

  /** A cleared action lets the walk go on. */
  lemma ClearedPasses(setup: Setup, s: System, id: nat, pc: nat)
    requires Inv(setup, s) && id in s.procs && Cleared(setup, s, id, s.procs[id].req, pc)
    requires s.procs[id].phase.Done? && s.procs[id].phase.pc != pc
    ensures Effect(setup.rules, s.procs[id].req, ScriptOf(setup, s.procs[id].req)[pc], ReplyTo(setup, s, id, pc)).None?
  {
    var req := s.procs[id].req;
    var x := ScriptOf(setup, req)[pc];
    var c := s.channels[x.rule];
    assert Orderly(setup.rules[x.rule].limiter, c);
    if Probes(setup.rules, x) {
      OneAnswer(c, Ticket(id, pc, req.ip), Verdict(true));
    }
  }

  /** The action that stopped the request ends the walk with the response. */
  lemma StoppedEnds(setup: Setup, s: System, id: nat, pc: nat)
    requires Inv(setup, s) && id in s.procs && s.procs[id].phase.Done? && s.procs[id].phase.pc == pc
    requires Stopped(setup, s, id, s.procs[id].req, pc, s.procs[id].phase.response)
    ensures Effect(setup.rules, s.procs[id].req, ScriptOf(setup, s.procs[id].req)[pc], ReplyTo(setup, s, id, pc))
         == Some(s.procs[id].phase.response)
  {
    var p := s.procs[id];
    var x := ScriptOf(setup, p.req)[pc];
    var c := s.channels[x.rule];
    assert Orderly(setup.rules[x.rule].limiter, c);
    if Probes(setup.rules, x) && p.phase.response != InternalError {
      var answer := if p.phase.response.ServiceUnavailable? then Full else Verdict(false);
      OneAnswer(c, Ticket(id, pc, p.req.ip), answer);
    }
  }

  lemma {:induction false} WalkEnds(setup: Setup, s: System, id: nat, from: nat, replies: nat -> Reply, sent: nat)
    requires Inv(setup, s) && id in s.procs && s.procs[id].phase.Done? && GateResponse(s.procs[id].req).None?
    requires from <= s.procs[id].phase.pc <= |ScriptOf(setup, s.procs[id].req)|
    requires Tells(replies, sent, Replies(setup, s, id, from))
    ensures var p := s.procs[id];
            Walk(setup.rules, setup.services, p.req, ScriptOf(setup, p.req)[from..], replies, sent) == p.phase.response
    decreases s.procs[id].phase.pc - from
  {
    var p := s.procs[id];
    var script := ScriptOf(setup, p.req);
    assert Honest(setup, s, id);
    if from < |script| {
      var x := script[from];
      assert script[from..][0] == x && script[from..][1..] == script[from + 1..];
      NextReplies(setup, s, id, from, replies, sent);
      if from < p.phase.pc {
        ClearedPasses(setup, s, id, from);
        WalkEnds(setup, s, id, from + 1, replies, sent + if Probes(setup.rules, x) then 1 else 0);
      } else {
        StoppedEnds(setup, s, id, from);
      }
    }
  }

  lemma NextReplies(setup: Setup, s: System, id: nat, from: nat, replies: nat -> Reply, sent: nat)
    requires |s.channels| == |setup.rules| && id in s.procs && from < |ScriptOf(setup, s.procs[id].req)|
    requires Tells(replies, sent, Replies(setup, s, id, from))
    ensures var probes := Probes(setup.rules, ScriptOf(setup, s.procs[id].req)[from]);
      && (probes ==> replies(sent) == ReplyTo(setup, s, id, from))
      && Tells(replies, sent + if probes then 1 else 0, Replies(setup, s, id, from + 1))
  {
    var all, told := Replies(setup, s, id, from), Replies(setup, s, id, from + 1);
    var d := if Probes(setup.rules, ScriptOf(setup, s.procs[id].req)[from]) then 1 else 0;
    assert |all| == d + |told|;
    forall n | 0 <= n < |told| ensures replies(sent + d + n) == told[n] {
      assert all[d + n] == told[n];
    }
    assert d == 1 ==> replies(sent + 0) == all[0];
  }

  /** However handlers and workers interleave, a request that got past the gate is answered
      what `HandleRequest` answers on the replies the request's own probes got. */
  lemma AnswersAsAlone(setup: Setup, s: System, id: nat)
    requires Reachable(setup, s) && id in s.procs && s.procs[id].phase.Done? && |s.channels| == |setup.rules|
    ensures var req, response := s.procs[id].req, s.procs[id].phase.response;
            var replies := AsReplies(Replies(setup, s, id, 0));
            if GateResponse(req).Some? then response == GateResponse(req).value
            else response == Walk(setup.rules, setup.services, req, Script(setup.rules, req, 0), replies, 0)
  {
    InvHolds(setup, s);
    assert Honest(setup, s, id);
    if GateResponse(s.procs[id].req).None? {
      var script := ScriptOf(setup, s.procs[id].req);
      assert script[0..] == script;
      WalkEnds(setup, s, id, 0, AsReplies(Replies(setup, s, id, 0)), 0);
    }
  }
}
