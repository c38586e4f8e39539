/** pingoo/listeners/http_listener.rs: what happens to one request between the listener
    and the services, and how many requests share the limiters. */
module HttpListener {
  import opened SlidingWindow
  import opened Wrappers

  const USER_AGENT_MAX_LENGTH: nat := 256
  /** Probes a limiter's channel can hold before senders wait. */
  const CHANNEL_SIZE: nat := 1024

  datatype Action = Block | Captcha | Limit

  /** `verifiedCookie` says whether the request carries a captcha verified cookie and,
      if so, whether that cookie is valid for this client. */
  datatype Request = Request(ip: IpAddr, userAgentLength: nat, captchaPath: bool,
                             verifiedCookie: Option<bool>, rest: string)

  datatype Rule = Rule(matches: Request -> bool, actions: seq<Action>, limiter: Option<LimiterConfig>)

  datatype Response =
    | Blocked | CaptchaApi | CaptchaPage
    | TooManyRequests | ServiceUnavailable | InternalError
    | Served(service: nat) | NotFound

  /** The limiter's side of a probe: an answer, or a channel that is gone. */
  datatype Reply = Answered(answer: Answer) | Unreachable

  /** One action of a matching rule. */
  datatype Instr = Instr(rule: nat, action: Action)

  function GateResponse(req: Request): Option<Response> {
    if req.userAgentLength == 0 || req.userAgentLength >= USER_AGENT_MAX_LENGTH then Some(Blocked)
    else if req.captchaPath then Some(CaptchaApi)
    else if req.verifiedCookie == Some(false) then Some(CaptchaPage)
    else None
  }

  /** The actions a request meets, in order, from rule `from` on. */
  function Script(rules: seq<Rule>, req: Request, from: nat): seq<Instr>
    requires from <= |rules|
    ensures from == |rules| ==> Script(rules, req, from) == []
    ensures forall x :: x in Script(rules, req, from) ==> from <= x.rule < |rules|
    decreases |rules| - from
  {
    if from == |rules| then []
    else (if rules[from].matches(req) then Instrs(from, rules[from].actions) else []) + Script(rules, req, from + 1)
  }

  function Instrs(rule: nat, actions: seq<Action>): (s: seq<Instr>)
    ensures |s| == |actions| && forall j :: 0 <= j < |s| ==> s[j] == Instr(rule, actions[j])
  {
    seq(|actions|, j requires 0 <= j < |actions| => Instr(rule, actions[j]))
  }

  predicate Probes(rules: seq<Rule>, x: Instr) {
    x.rule < |rules| && x.action == Limit && rules[x.rule].limiter.Some?
  }

  function ReplyResponse(reply: Reply): Option<Response> {
    match reply
    case Unreachable => Some(InternalError)
    case Answered(Full) => Some(ServiceUnavailable)
    case Answered(Verdict(false)) => Some(TooManyRequests)
    case Answered(Verdict(true)) => None
  }

  /** `limit_http_request`: what the handler makes of the limiter's reply. */
  method LimitHttpRequest(reply: Reply) returns (r: Option<Response>)
    ensures r == ReplyResponse(reply)
  {
    if reply.Unreachable? {
      return Some(InternalError);
    }
    var result := reply.answer;
    if result.Full? {
      return Some(ServiceUnavailable);
    }
    var canResume := result.resume;
    if !canResume {
      return Some(TooManyRequests);
    }
    return None;
  }

  /** The response an action ends the request with, if it does. */
  function Effect(rules: seq<Rule>, req: Request, x: Instr, reply: Reply): Option<Response> {
    match x.action
    case Block => Some(Blocked)
    case Captcha => if req.verifiedCookie == Some(true) then None else Some(CaptchaPage)
    case Limit => if Probes(rules, x) then ReplyResponse(reply) else None
  }

  function Dispatch(services: seq<Request -> bool>, req: Request, from: nat): Response
    requires from <= |services|
    decreases |services| - from
  {
    if from == |services| then NotFound
    else if services[from](req) then Served(from)
    else Dispatch(services, req, from + 1)
  }

  /** The first action that ends the request decides; `replies(n)` answers its probe `n`. */
  function Walk(rules: seq<Rule>, services: seq<Request -> bool>, req: Request,
                script: seq<Instr>, replies: nat -> Reply, sent: nat): Response
  {
    if script == [] then Dispatch(services, req, 0)
    else
      var effect := Effect(rules, req, script[0], replies(sent));
      if effect.Some? then effect.value
      else Walk(rules, services, req, script[1..], replies, sent + if Probes(rules, script[0]) then 1 else 0)
  }

  /** What is still to decide: walking `script` after `sent` probes gives `final`, and
      `due` probes will have been sent if nothing ends the walk. */
  ghost predicate Pending(rules: seq<Rule>, services: seq<Request -> bool>, req: Request, script: seq<Instr>,
                          replies: nat -> Reply, sent: nat, final: Response, due: nat) {
    && Walk(rules, services, req, script, replies, sent) == final
    && sent + |ProbesOf(rules, script)| == due
    && AllAdmitted(replies, sent)
  }

  predicate AllAdmitted(replies: nat -> Reply, sent: int) {
    forall n :: 0 <= n < sent ==> replies(n) == Answered(Verdict(true))
  }

  /** No probe follows one that was not admitted, and the last one accounts for the response. */
  predicate Accounted(replies: nat -> Reply, sent: nat, response: Response) {
    && AllAdmitted(replies, sent - 1)
    && Explains(response, if sent > 0 then Some(replies(sent - 1)) else None)
  }

  /** The reply to the last probe accounts for the response. */
  predicate Explains(response: Response, last: Option<Reply>) {
    match response
    case TooManyRequests => last == Some(Answered(Verdict(false)))
    case ServiceUnavailable => last == Some(Answered(Full))
    case InternalError => last == Some(Unreachable)
    case _ => last == None || last == Some(Answered(Verdict(true)))
  }

  /** The request handler. */
  method HandleRequest(rules: seq<Rule>, services: seq<Request -> bool>, req: Request, replies: nat -> Reply)
    returns (response: Response, sent: nat)
    ensures GateResponse(req).Some? ==> response == GateResponse(req).value && sent == 0
    ensures GateResponse(req).None? ==> response == Walk(rules, services, req, Script(rules, req, 0), replies, 0)
    ensures req.userAgentLength == 0 || req.userAgentLength >= 256 ==> response == Blocked && sent == 0
    ensures 0 < req.userAgentLength < 256 && req.captchaPath ==> response == CaptchaApi && sent == 0
    ensures 0 < req.userAgentLength < 256 && !req.captchaPath && req.verifiedCookie == Some(false) ==>
              response == CaptchaPage && sent == 0
    ensures response.Served? ==>
              0 < req.userAgentLength < 256 && !req.captchaPath && req.verifiedCookie != Some(false)
    ensures Accounted(replies, sent, response)
    ensures response.Served? ==> sent == |ProbesOf(rules, Script(rules, req, 0))| && AllAdmitted(replies, sent)
  {
    sent := 0;
    if req.userAgentLength == 0 || req.userAgentLength >= USER_AGENT_MAX_LENGTH {
      return Blocked, 0;
    }
    if req.captchaPath {
      return CaptchaApi, 0;
    }
    var captchaVerified := false;
    if req.verifiedCookie.Some? {
      if req.verifiedCookie.value {
        captchaVerified := true;
      } else {
        return CaptchaPage, 0;
      }
    }

    ghost var final := Walk(rules, services, req, Script(rules, req, 0), replies, 0);
    ghost var due := |ProbesOf(rules, Script(rules, req, 0))|;
    var stop;
    stop, sent := ApplyRules(rules, services, req, captchaVerified, replies, final, due);
    if stop.Some? {
      return stop.value, sent;
    }
    response := ChooseService(services, req);
  }

  /** The outer loop: the rules in order. */
  method ApplyRules(rules: seq<Rule>, services: seq<Request -> bool>, req: Request, captchaVerified: bool,
                    replies: nat -> Reply, ghost final: Response, ghost due: nat)
    returns (stop: Option<Response>, sent: nat)
    requires captchaVerified <==> req.verifiedCookie == Some(true)
    requires final == Walk(rules, services, req, Script(rules, req, 0), replies, 0)
    requires due == |ProbesOf(rules, Script(rules, req, 0))|
    ensures stop.Some? ==> stop.value == final && !stop.value.Served? && Accounted(replies, sent, stop.value)
    ensures stop.None? ==> final == Dispatch(services, req, 0) && sent == due && AllAdmitted(replies, sent)
  {
    hide Accounted, Script, Effect;
    sent := 0;
    var i := 0;
    while i < |rules|
      invariant 0 <= i <= |rules|
      invariant Pending(rules, services, req, Script(rules, req, i), replies, sent, final, due)
    {
      if rules[i].matches(req) {
        stop, sent := ApplyActions(rules, services, req, i, captchaVerified, replies, sent, final, due);
        if stop.Some? {
          return stop, sent;
        }
      } else {
        SkipRule(rules, req, i);
      }
      i := i + 1;
    }
    assert Script(rules, req, i) == [];
    return None, sent;
  }

  /** The first service that wants the request serves it. */
  method ChooseService(services: seq<Request -> bool>, req: Request) returns (response: Response)
    ensures response == Dispatch(services, req, 0) && (response.Served? || response.NotFound?)
  {
    var k := 0;
    while k < |services|
      invariant 0 <= k <= |services|
      invariant Dispatch(services, req, 0) == Dispatch(services, req, k)
    {
      if services[k](req) {
        return Served(k);
      }
      k := k + 1;
    }
    return NotFound;
  }

  /** The inner loop: the actions of one matching rule. */
  method ApplyActions(rules: seq<Rule>, services: seq<Request -> bool>, req: Request, i: nat, captchaVerified: bool,
                      replies: nat -> Reply, sent: nat, ghost final: Response, ghost due: nat)
    returns (stop: Option<Response>, sent': nat)
    requires i < |rules| && rules[i].matches(req)
    requires captchaVerified <==> req.verifiedCookie == Some(true)
    requires Pending(rules, services, req, Script(rules, req, i), replies, sent, final, due)
    ensures stop.Some? ==> stop.value == final && !stop.value.Served? && Accounted(replies, sent', stop.value)
    ensures stop.None? ==> Pending(rules, services, req, Script(rules, req, i + 1), replies, sent', final, due)
  {
    hide Pending, Accounted, Script;
    stop, sent' := None, sent;
    var actions := rules[i].actions;
    ghost var after := Script(rules, req, i + 1);
    var j := 0;
    OpenRule(rules, req, i);
    while j < |actions|
      invariant 0 <= j <= |actions|
      invariant Pending(rules, services, req, Instrs(i, actions)[j..] + after, replies, sent', final, due)
    {
      ghost var rest := Instrs(i, actions)[j..] + after;
      assert rest[0] == Instr(i, actions[j]) && rest[1..] == Instrs(i, actions)[j + 1..] + after;
      PendingStep(rules, services, req, rest, replies, sent', final, due);
      match actions[j] {
        case Block =>
          return Some(Blocked), sent';
        case Captcha =>
          if !captchaVerified {
            return Some(CaptchaPage), sent';
          }
        case Limit =>
          if rules[i].limiter.Some? {
            var res := LimitHttpRequest(replies(sent'));
            sent' := sent' + 1;
            if res.Some? {
              return res, sent';
            }
          }
      }
      j := j + 1;
    }
    assert Instrs(i, actions)[j..] + after == after;
  }

  lemma OpenRule(rules: seq<Rule>, req: Request, i: nat)
    requires i < |rules| && rules[i].matches(req)
    ensures Script(rules, req, i) == Instrs(i, rules[i].actions)[0..] + Script(rules, req, i + 1)
  {
    assert Instrs(i, rules[i].actions)[0..] == Instrs(i, rules[i].actions);
  }

  lemma SkipRule(rules: seq<Rule>, req: Request, i: nat)
    requires i < |rules| && !rules[i].matches(req)
    ensures Script(rules, req, i) == Script(rules, req, i + 1)
  {
  }

  lemma PendingStep(rules: seq<Rule>, services: seq<Request -> bool>, req: Request, script: seq<Instr>,
                    replies: nat -> Reply, sent: nat, final: Response, due: nat)
    requires script != [] && Pending(rules, services, req, script, replies, sent, final, due)
    ensures var effect := Effect(rules, req, script[0], replies(sent));
            var sent' := sent + if Probes(rules, script[0]) then 1 else 0;
            if effect.Some? then effect.value == final && !final.Served? && Accounted(replies, sent', final)
            else Pending(rules, services, req, script[1..], replies, sent', final, due)
  {
  }

  function ProbesOf(rules: seq<Rule>, script: seq<Instr>): seq<Instr> {
    if script == [] then []
    else (if Probes(rules, script[0]) then [script[0]] else []) + ProbesOf(rules, script[1..])
  }

  /** A request reaches service `k` exactly when no matching rule blocks it, no matching rule
      asks for a captcha it has not solved, every probe it sends is admitted, and `k` is the
      first service that wants it. */
  lemma {:induction false} ServedExactlyWhen(rules: seq<Rule>, services: seq<Request -> bool>, req: Request,
                                             script: seq<Instr>, replies: nat -> Reply, sent: nat, k: nat)
    requires forall x :: x in script ==> x.rule < |rules|
    ensures Walk(rules, services, req, script, replies, sent) == Served(k) <==>
      && (forall x :: x in script ==> x.action != Block && (x.action == Captcha ==> req.verifiedCookie == Some(true)))
      && (forall n :: sent <= n < sent + |ProbesOf(rules, script)| ==> replies(n) == Answered(Verdict(true)))
      && k < |services| && services[k](req) && (forall m :: 0 <= m < k ==> !services[m](req))
  {
    if script == [] {
      DispatchFirst(services, req, 0, k);
    } else {
      var sent' := sent + if Probes(rules, script[0]) then 1 else 0;
      ServedExactlyWhen(rules, services, req, script[1..], replies, sent', k);
      assert forall x :: x in script <==> x == script[0] || x in script[1..];
      assert |ProbesOf(rules, script)| == sent' - sent + |ProbesOf(rules, script[1..])|;
    }
  }

  lemma {:induction false} DispatchFirst(services: seq<Request -> bool>, req: Request, from: nat, k: nat)
    requires from <= |services|
    ensures Dispatch(services, req, from) == Served(k) <==>
              from <= k < |services| && services[k](req) && forall m :: from <= m < k ==> !services[m](req)
    decreases |services| - from
  {
    if from < |services| {
      DispatchFirst(services, req, from + 1, k);
    }
  }
}
