/** The request handlers of `Gateway` with the captcha cookies of `CaptchaRuns`: what the
    handler of pingoo/listeners/http_listener.rs reads from a cookie is what the captcha
    manager says of it. */
module CaptchaGate {
  import opened Wrappers
  import opened HttpListener
  import opened Gateway
  import Jwt
  import P = Captcha
  import R = CaptchaRuns
  import I = ClientId
  import E = ETag
  import Hex

  /** What a request brings: its verified cookie, if any, who its client is and the clock at
      which the cookie is read. */
  datatype Visit = Visit(cookie: Option<string>, visitor: I.Visitor, clock: Jwt.Clock)

  type Digest = seq<Hex.Byte> -> seq<Hex.Byte>

  function VerifiedCookie(w: R.World, digest: Digest, v: Visit): Option<bool> {
    match v.cookie
    case None => None
    case Some(cookie) =>
      Some(P.Validates(w.codec, w.mgr, cookie, I.GenerateCaptchaClientId(digest, v.visitor), v.clock))
  }

  /** Every request carries what its visit says, and no cookie is forged. */
  ghost predicate Visited(w: R.World, digest: Digest, log: seq<R.Issue>, s: System, visits: map<nat, Visit>) {
    forall id :: id in s.procs ==>
      && id in visits && s.procs[id].req.verifiedCookie == VerifiedCookie(w, digest, visits[id])
      && s.procs[id].req.userAgentLength == |visits[id].visitor.userAgent|
      && (visits[id].cookie.Some? ==> R.Unforged(w, log, visits[id].cookie.value))
  }

  predicate Protects(setup: Setup, r: nat, req: Request) {
    r < |setup.rules| && setup.rules[r].matches(req) && Action.Captcha in setup.rules[r].actions
  }

  /** Every token was issued to the identity of some visitor. */
  ghost predicate Issued(digest: Digest, log: seq<R.Issue>, visitors: seq<I.Visitor>) {
    && |visitors| == |log|
    && forall k :: 0 <= k < |log| ==> log[k].client == I.GenerateCaptchaClientId(digest, visitors[k])
  }

  /** The digest tells this visitor apart from all who were issued a token. */
  ghost predicate TellsApart(digest: Digest, visitors: seq<I.Visitor>, v: I.Visitor) {
    forall k :: 0 <= k < |visitors| ==> E.TellsApart(digest, I.Material(visitors[k]), I.Material(v))
  }

  /** Pass `k` was issued at most a day before this visit, and challenge `i` at most ten
      minutes before it was solved for the pass; both up to drift and second. */
  predicate InTime(log: seq<R.Issue>, i: nat, k: nat, v: Visit)
    requires i < k < |log| && log[k].Passed?
  {
    && v.clock.atExp <= log[k].at + P.PASS_LIFETIME + Jwt.NANOS + P.DRIFT
    && v.clock.atNbf > log[k].at - Jwt.NANOS - P.DRIFT
    && log[k].clock.atExp <= log[i].at + P.CHALLENGE_LIFETIME + Jwt.NANOS + P.DRIFT
    && log[k].clock.atNbf > log[i].at - Jwt.NANOS - P.DRIFT
  }

  /** A request past a captcha brought a cookie that the manager validated. */
  lemma ServedWasValidated(setup: Setup, s: System, w: R.World, digest: Digest, log: seq<R.Issue>,
                           visits: map<nat, Visit>, id: nat, r: nat) returns (cookie: string)
    requires Reachable(setup, s) && Visited(w, digest, log, s, visits)
    requires ServedAt(s, id) && Protects(setup, r, s.procs[id].req)
    ensures id in visits && visits[id].cookie == Some(cookie) && R.Unforged(w, log, cookie)
    ensures var client := I.GenerateCaptchaClientId(digest, visits[id].visitor);
            P.Validates(w.codec, w.mgr, cookie, client, visits[id].clock)
  {
    hide Reachable, P.Validates, R.Unforged, I.GenerateCaptchaClientId;
    var req := s.procs[id].req;
    ServedPassedEverything(setup, s, id);
    var pc := InScript(setup, r, Action.Captcha, req, 0);
    assert ScriptOf(setup, req)[pc] in ScriptOf(setup, req);
    cookie := visits[id].cookie.value;
  }

  /** Nobody reaches a service past a captcha without a captcha solved: behind every served
      request that a captcha rule matches there is a pass, less than a day old, of its client's
      identity, earned by a challenge solved while it lived. */
  lemma ServedHasSolved(setup: Setup, s: System, w: R.World, digest: Digest, log: seq<R.Issue>,
                        visits: map<nat, Visit>, id: nat, r: nat)
    requires Reachable(setup, s) && R.IsRun(w, log) && Visited(w, digest, log, s, visits)
    requires ServedAt(s, id) && Protects(setup, r, s.procs[id].req)
    ensures exists i: nat, k: nat ::
              && i < k < |log| && R.Earned(w, log[i], log[k]) && InTime(log, i, k, visits[id])
              && log[k].client == I.GenerateCaptchaClientId(digest, visits[id].visitor)
  {
    hide Reachable, Visited, P.Validates;
    var cookie := ServedWasValidated(setup, s, w, digest, log, visits, id, r);
    var v := visits[id];
    R.AccessTracesBackToWork(w, log, cookie, I.GenerateCaptchaClientId(digest, v.visitor), v.clock);
  }

  /** Who solved it: a visitor with the same bytes of address, user agent and host, so that
      within one address family the address agrees and the other two run together agree. */
  lemma ServedIsSolver(setup: Setup, s: System, w: R.World, digest: Digest, log: seq<R.Issue>,
                       visitors: seq<I.Visitor>, visits: map<nat, Visit>, id: nat, r: nat)
    requires Reachable(setup, s) && R.IsRun(w, log) && Visited(w, digest, log, s, visits)
    requires ServedAt(s, id) && Protects(setup, r, s.procs[id].req)
    requires Issued(digest, log, visitors) && TellsApart(digest, visitors, visits[id].visitor)
    ensures exists i: nat, k: nat ::
              && i < k < |log| && R.Earned(w, log[i], log[k]) && InTime(log, i, k, visits[id])
              && SameVisitor(visitors[i], visits[id].visitor) && SameVisitor(visitors[k], visits[id].visitor)
  {
    ServedHasSolved(setup, s, w, digest, log, visits, id, r);
    var v := visits[id].visitor;
    var i: nat, k: nat :|
      && i < k < |log| && R.Earned(w, log[i], log[k]) && InTime(log, i, k, visits[id])
      && log[k].client == I.GenerateCaptchaClientId(digest, v);
    OneVisitor(digest, visitors[i], v);
    OneVisitor(digest, visitors[k], v);
  }

  predicate SameVisitor(a: I.Visitor, b: I.Visitor) {
    I.Material(a) == I.Material(b) && ((a.address.V4? <==> b.address.V4?) ==> I.Alike(a, b))
  }

  lemma OneVisitor(digest: Digest, a: I.Visitor, b: I.Visitor)
    requires E.TellsApart(digest, I.Material(a), I.Material(b))
    requires I.GenerateCaptchaClientId(digest, a) == I.GenerateCaptchaClientId(digest, b)
    ensures SameVisitor(a, b)
  {
    I.SameIdExactlyWhen(digest, a, b);
    if a.address.V4? <==> b.address.V4? {
      I.AlikeExactlyWhen(a, b);
    }
  }
}
