/** The captcha from the client's side: challenged, solving, verified, let in. */
module CaptchaVisit {
  import opened Wrappers
  import opened Hex
  import opened Jwt
  import opened ProofOfWork
  import opened Captcha
  import opened CaptchaRuns

  /** When the server does what, and the token ids it draws. */
  datatype Schedule = Schedule(challengedAt: int, challengeId: string, verifyClock: Clock,
                               passedAt: int, passId: string, accessClock: Clock)

  /** The server's key signs whatever the server asks it to sign. */
  ghost predicate Signs(w: World) { forall m :: w.mgr.signing.sign(m).Some? }

  /** A client takes its challenge, searches for so many rounds, sends what it found and comes
      back with its pass.  It is let in exactly when the search has come to an end, and the
      challenge and then the pass are still alive when they are shown. */
  method Visit(w: World, client: string, challenge: string, rounds: nat, t: Schedule) returns (admitted: bool)
    requires Ready(w) && Signs(w) && InClock(t.challengedAt) && InClock(t.passedAt)
    ensures admitted <==>
      && (exists n :: 0 < n <= rounds && Solves(w.sha, challenge, PROOF_OF_WORK_DIFFICULTY, n))
      && Alive(t.challengedAt, CHALLENGE_LIFETIME, t.verifyClock) && Alive(t.passedAt, PASS_LIFETIME, t.accessClock)
  {
    hide Solves, Accepts, Alive, Validates, Verifies, IsToken, Ready, PassJson, ChallengeJson, Message, TokenHeader;
    var cookie := GenerateCaptchaCookie(w.codec, w.mgr.signing, client, challenge, t.challengedAt, t.challengeId);
    var found := Search(w.sha, challenge, PROOF_OF_WORK_DIFFICULTY, rounds);
    if cookie.Err? || found.None? {
      return false;
    }
    var body := VerifyBody(Decode(found.value.hash).value, found.value.nonce);
    var token := cookie.value.value;
    var pass := ApiVerify(w.codec, w.mgr, w.sha, Some(token), Some(body), client, t.verifyClock, t.passedAt, t.passId);
    ghost var challenged := Challenged(client, challenge, t.challengedAt, t.challengeId);
    AcceptsOneZero(w.sha, challenge, body.hash, body.nonce);
    VerifiesExactlyWhen(w, challenged, token, body, client, t.verifyClock);
    if pass.Err? {
      return false;
    }
    admitted := Validates(w.codec, w.mgr, pass.value[0].value, client, t.accessClock);
    ghost var passed := Passed(client, t.passedAt, t.passId, token, body, t.verifyClock);
    ValidatesExactlyWhen(w, passed, pass.value[0].value, client, t.accessClock);
  }
}
