/** What a request is answered, read off the rules: which action stops it, and with what. */
module HandlerLaw {
  import opened SlidingWindow
  import opened Wrappers
  import opened HttpListener

  /** The gate answers before any rule is looked at, in this order. */
  lemma GateExactlyWhen(req: Request)
    ensures var agent := 0 < req.userAgentLength < 256;
      && (GateResponse(req) == Some(Blocked) <==> !agent)
      && (GateResponse(req) == Some(CaptchaApi) <==> agent && req.captchaPath)
      && (GateResponse(req) == Some(CaptchaPage) <==> agent && !req.captchaPath && req.verifiedCookie == Some(false))
      && (GateResponse(req) == None <==> agent && !req.captchaPath && req.verifiedCookie != Some(false))
  {
  }

  /** How many probes the first `j` actions of rule `r` send. */
  function ProbesIn(rules: seq<Rule>, req: Request, r: nat, j: nat): nat
    requires r < |rules| && j <= |rules[r].actions|
  {
    if rules[r].matches(req) && rules[r].limiter.Some? then multiset(rules[r].actions[..j])[Limit] else 0
  }

  /** How many probes the rules before `r` send. */
  function ProbesTo(rules: seq<Rule>, req: Request, r: nat): nat
    requires r <= |rules|
  {
    if r == 0 then 0 else ProbesTo(rules, req, r - 1) + ProbesIn(rules, req, r - 1, |rules[r - 1].actions|)
  }

  /** What the limiter replies to action `j` of rule `r`, should it ask. */
  function ReplyAt(rules: seq<Rule>, req: Request, replies: nat -> Reply, r: nat, j: nat): Reply
    requires r < |rules| && j < |rules[r].actions|
  {
    replies(ProbesTo(rules, req, r) + ProbesIn(rules, req, r, j))
  }

  /** The action lets the request pass. */
  predicate Passes(rules: seq<Rule>, req: Request, replies: nat -> Reply, r: nat, j: nat)
    requires r < |rules| && j < |rules[r].actions|
  {
    match rules[r].actions[j]
    case Block => false
    case Captcha => req.verifiedCookie == Some(true)
    case Limit => rules[r].limiter.None? || ReplyAt(rules, req, replies, r, j) == Answered(Verdict(true))
  }

  predicate RulePasses(rules: seq<Rule>, req: Request, replies: nat -> Reply, r: nat)
    requires r < |rules|
  {
    rules[r].matches(req) ==> forall j :: 0 <= j < |rules[r].actions| ==> Passes(rules, req, replies, r, j)
  }

  /** The first action that does not let the request pass is action `j` of rule `r`. */
  predicate StopsAt(rules: seq<Rule>, req: Request, replies: nat -> Reply, r: nat, j: nat) {
    && r < |rules| && rules[r].matches(req) && j < |rules[r].actions| && !Passes(rules, req, replies, r, j)
    && (forall i :: 0 <= i < j ==> Passes(rules, req, replies, r, i))
    && (forall q :: 0 <= q < r ==> RulePasses(rules, req, replies, q))
  }

  /** The response an action that does not let the request pass ends it with. */
  function Response(rules: seq<Rule>, req: Request, replies: nat -> Reply, r: nat, j: nat): HttpListener.Response
    requires r < |rules| && j < |rules[r].actions|
  {
    match rules[r].actions[j]
    case Block => Blocked
    case Captcha => CaptchaPage
    case Limit =>
      match ReplyAt(rules, req, replies, r, j)
      case Unreachable => InternalError
      case Answered(Full) => ServiceUnavailable
      case Answered(Verdict(_)) => TooManyRequests
  }

  lemma ActionEffect(rules: seq<Rule>, req: Request, replies: nat -> Reply, r: nat, j: nat)
    requires r < |rules| && rules[r].matches(req) && j < |rules[r].actions|
    ensures Effect(rules, req, Instr(r, rules[r].actions[j]), ReplyAt(rules, req, replies, r, j))
         == if Passes(rules, req, replies, r, j) then None else Some(Response(rules, req, replies, r, j))
  {
  }

  lemma OneMoreProbe(rules: seq<Rule>, req: Request, r: nat, j: nat)
    requires r < |rules| && rules[r].matches(req) && j < |rules[r].actions|
    ensures ProbesIn(rules, req, r, j + 1)
         == ProbesIn(rules, req, r, j) + if Probes(rules, Instr(r, rules[r].actions[j])) then 1 else 0
  {
    var actions := rules[r].actions;
    assert actions[..j + 1] == actions[..j] + [actions[j]];
  }

  /** Action `j` of a rule, with the rest of the walk behind it. */
  lemma WalkAction(rules: seq<Rule>, services: seq<Request -> bool>, req: Request, replies: nat -> Reply,
                   r: nat, j: nat, after: seq<Instr>)
    requires r < |rules| && rules[r].matches(req) && j < |rules[r].actions|
    ensures var (all, rest) := (Instrs(r, rules[r].actions)[j..] + after, Instrs(r, rules[r].actions)[j + 1..] + after);
            var sent := ProbesTo(rules, req, r) + ProbesIn(rules, req, r, j);
            var sent' := ProbesTo(rules, req, r) + ProbesIn(rules, req, r, j + 1);
            Walk(rules, services, req, all, replies, sent)
              == if Passes(rules, req, replies, r, j) then Walk(rules, services, req, rest, replies, sent')
                 else Response(rules, req, replies, r, j)
  {
    hide Passes, Effect, ProbesTo, ProbesIn, Response;
    var all := Instrs(r, rules[r].actions)[j..] + after;
    assert all[0] == Instr(r, rules[r].actions[j]) && all[1..] == Instrs(r, rules[r].actions)[j + 1..] + after;
    ActionEffect(rules, req, replies, r, j);
    OneMoreProbe(rules, req, r, j);
  }

  /** A request past the gate is answered by the first action that does not let it pass. */
  lemma StoppedExactlyAs(rules: seq<Rule>, services: seq<Request -> bool>, req: Request, replies: nat -> Reply,
                         r: nat, j: nat)
    requires StopsAt(rules, req, replies, r, j)
    ensures var response := Walk(rules, services, req, Script(rules, req, 0), replies, 0);
            match rules[r].actions[j]
            case Block => response == Blocked
            case Captcha => response == CaptchaPage
            case Limit => (match ReplyAt(rules, req, replies, r, j)
                           case Unreachable => response == InternalError
                           case Answered(Full) => response == ServiceUnavailable
                           case Answered(Verdict(resume)) => !resume && response == TooManyRequests)
  {
    hide Walk, Script, ProbesTo, ProbesIn;
    PassedRules(rules, services, req, replies, r);
    var after := Script(rules, req, r + 1);
    OpenRule(rules, req, r);
    PassedActions(rules, services, req, replies, r, j, after);
    WalkAction(rules, services, req, replies, r, j, after);
  }

  /** A request that every action lets pass goes to the first service that wants it, or is not
      found. */
  lemma PassedExactlyAs(rules: seq<Rule>, services: seq<Request -> bool>, req: Request, replies: nat -> Reply)
    requires forall r :: 0 <= r < |rules| ==> RulePasses(rules, req, replies, r)
    ensures var response := Walk(rules, services, req, Script(rules, req, 0), replies, 0);
      && (response == NotFound <==> forall k :: 0 <= k < |services| ==> !services[k](req))
      && (forall k: nat :: response == Served(k) <==>
            k < |services| && services[k](req) && forall m :: 0 <= m < k ==> !services[m](req))
      && (response == NotFound || response.Served?)
  {
    PassedRules(rules, services, req, replies, |rules|);
    forall k: nat {
      DispatchFirst(services, req, 0, k);
    }
    DispatchTotal(services, req, 0);
  }

  lemma {:induction false} DispatchTotal(services: seq<Request -> bool>, req: Request, from: nat)
    requires from <= |services|
    ensures Dispatch(services, req, from) == NotFound <==> forall k :: from <= k < |services| ==> !services[k](req)
    ensures Dispatch(services, req, from) == NotFound || Dispatch(services, req, from).Served?
    decreases |services| - from
  {
    if from < |services| {
      DispatchTotal(services, req, from + 1);
    }
  }

  /** While rules pass, what is left to walk is the script of the others. */
  lemma {:induction false} PassedRules(rules: seq<Rule>, services: seq<Request -> bool>, req: Request,
                                       replies: nat -> Reply, r: nat)
    requires r <= |rules| && forall q :: 0 <= q < r ==> RulePasses(rules, req, replies, q)
    ensures Walk(rules, services, req, Script(rules, req, 0), replies, 0)
         == Walk(rules, services, req, Script(rules, req, r), replies, ProbesTo(rules, req, r))
  {
    hide Walk, Script, RulePasses;
    if r > 0 {
      PassedRules(rules, services, req, replies, r - 1);
      PassedRule(rules, services, req, replies, r - 1);
    }
  }

  lemma PassedRule(rules: seq<Rule>, services: seq<Request -> bool>, req: Request, replies: nat -> Reply, r: nat)
    requires r < |rules| && RulePasses(rules, req, replies, r)
    ensures Walk(rules, services, req, Script(rules, req, r), replies, ProbesTo(rules, req, r))
         == Walk(rules, services, req, Script(rules, req, r + 1), replies, ProbesTo(rules, req, r + 1))
  {
    hide Walk, Script;
    if rules[r].matches(req) {
      var after := Script(rules, req, r + 1);
      var n := |rules[r].actions|;
      OpenRule(rules, req, r);
      PassedActions(rules, services, req, replies, r, n, after);
      assert Instrs(r, rules[r].actions)[n..] + after == after;
    } else {
      SkipRule(rules, req, r);
    }
  }

  /** ... and while the actions of a rule pass, what is left is its other actions and those. */
  lemma {:induction false} PassedActions(rules: seq<Rule>, services: seq<Request -> bool>, req: Request,
                                         replies: nat -> Reply, r: nat, j: nat, after: seq<Instr>)
    requires r < |rules| && rules[r].matches(req) && j <= |rules[r].actions|
    requires forall i :: 0 <= i < j ==> Passes(rules, req, replies, r, i)
    ensures var actions := rules[r].actions;
            var (all, rest) := (Instrs(r, actions)[0..] + after, Instrs(r, actions)[j..] + after);
            var (sent, more) := (ProbesTo(rules, req, r), ProbesIn(rules, req, r, j));
            Walk(rules, services, req, all, replies, sent) == Walk(rules, services, req, rest, replies, sent + more)
  {
    hide Walk, Passes, ProbesTo, ProbesIn, Probes;
    if j > 0 {
      PassedActions(rules, services, req, replies, r, j - 1, after);
      WalkAction(rules, services, req, replies, r, j - 1, after);
    } else {
      NoProbe(rules, req, r);
    }
  }

  lemma NoProbe(rules: seq<Rule>, req: Request, r: nat)
    requires r < |rules|
    ensures ProbesIn(rules, req, r, 0) == 0
  {
  }
}
