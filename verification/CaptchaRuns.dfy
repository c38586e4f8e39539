/** The captcha protocol over whole runs: who passes must have been challenged, in time,
    and must have done the work. */
module CaptchaRuns {
  import opened Wrappers
  import opened Hex
  import opened Json
  import opened Jwt
  import opened Base64Url
  import opened ProofOfWork
  import opened Captcha

  /** `sha` is SHA-256.  Neither it nor the keys' cryptography is part of this model. */
  datatype World = World(codec: Codec, mgr: Manager, sha: string -> seq<Byte>)

  /** What the server has signed: at `init` a challenge, at `verify` a pass.  A pass records
      the request that earned it. */
  datatype Issue =
    | Challenged(client: string, challenge: string, at: int, jti: string)
    | Passed(client: string, at: int, jti: string, cookie: string, body: VerifyBody, clock: Clock)

  /** Seconds that leave room for a lifetime inside 64 bits. */
  predicate InClock(at: int) { -0x4000_0000_0000_0000 <= Seconds(at) < 0x4000_0000_0000_0000 }

  function Lifetime(issue: Issue): nat { if issue.Challenged? then CHALLENGE_LIFETIME else PASS_LIFETIME }

  function ClaimsOf(issue: Issue): Json {
    match issue
    case Challenged(client, challenge, at, jti) => ChallengeJson(client, challenge, at, jti)
    case Passed(client, at, jti, _, _, _) => PassJson(client, at, jti)
  }

  function MessageOf(w: World, issue: Issue): string {
    Message(w.codec, TokenHeader(w.mgr.signing), ClaimsOf(issue))
  }

  /** No signature without a signer: a key of the manager accepts this token's signature
      only if the server signed this very message before. */
  ghost predicate Unforged(w: World, log: seq<Issue>, token: string) {
    var p := Split(token);
    forall id ::
      && id in w.mgr.keys && |p| == 3 && DecodeUrl(p[2]).Some?
      && w.mgr.keys[id].verify(p[0] + "." + p[1], DecodeUrl(p[2]).value) ==>
        exists k :: 0 <= k < |log| && p[0] + "." + p[1] == MessageOf(w, log[k])
  }

  /** A challenge is given to anyone who asks; a pass to whoever `verify` accepts. */
  ghost predicate Follows(w: World, log: seq<Issue>, k: nat)
    requires k < |log|
  {
    && InClock(log[k].at)
    && (log[k].Passed? ==>
          && Unforged(w, log[..k], log[k].cookie)
          && Verifies(w.codec, w.mgr, w.sha, log[k].cookie, log[k].body, log[k].client, log[k].clock))
  }

  ghost predicate IsRun(w: World, log: seq<Issue>) {
    Lawful(w.codec) && forall k :: 0 <= k < |log| ==> Follows(w, log, k)
  }

  /** The lifetime of a token issued at `at`, to the nanosecond. */
  predicate Alive(at: int, lifetime: nat, clock: Clock) {
    && clock.atExp < (Seconds(at + lifetime) + 1) * NANOS + DRIFT
    && clock.atNbf >= Seconds(at) * NANOS - DRIFT
  }

  lemma AliveBounds(at: int, lifetime: nat, clock: Clock)
    requires Alive(at, lifetime, clock)
    ensures clock.atExp <= at + lifetime + NANOS + DRIFT
    ensures clock.atNbf > at - NANOS - DRIFT
  {
  }

  /** Issued claims meet the options exactly while they are alive. */
  lemma IssuedClaimsCheck(issue: Issue, clock: Clock)
    requires InClock(issue.at)
    ensures CheckClaims(ClaimsOf(issue), OPTIONS, clock) <==> Alive(issue.at, Lifetime(issue), clock)
  {
    var fields := ClaimsOf(issue).fields;
    var r := ClaimsFor(issue.client, issue.at, Lifetime(issue), issue.jti);
    IssuedMembers(issue);
    TimeWindow(fields, OPTIONS, clock, r.exp.value, r.nbf.value);
    assert ISSUER in OPTIONS.aud && ISSUER in OPTIONS.iss;
  }

  lemma IssuedMembers(issue: Issue)
    ensures var fields := ClaimsOf(issue).fields;
            var r := ClaimsFor(issue.client, issue.at, Lifetime(issue), issue.jti);
      && Get(fields, Exp) == Some(Num(r.exp.value)) && Get(fields, Nbf) == Some(Num(r.nbf.value))
      && Get(fields, Aud) == Some(Str(ISSUER)) && Get(fields, Iss) == Some(Str(ISSUER))
  {
    hide Record;
    var r := ClaimsFor(issue.client, issue.at, Lifetime(issue), issue.jti);
    match issue
    case Challenged(client, challenge, at, jti) =>
      var c := ChallengeClaims(challenge, PROOF_OF_WORK_DIFFICULTY, r);
      ChallengeMember(c, Exp);
      ChallengeMember(c, Nbf);
      ChallengeMember(c, Aud);
      ChallengeMember(c, Iss);
    case Passed(client, at, jti, _, _, _) =>
      var c := PassClaims(true, r);
      PassMember(c, Exp);
      PassMember(c, Nbf);
      PassMember(c, Aud);
      PassMember(c, Iss);
  }

  /** Every claim of an issued token, lifetimes of ten minutes and of a day included. */
  lemma IssuedClaims(issue: Issue)
    ensures var fields := ClaimsOf(issue).fields;
            var seconds := if issue.Challenged? then 600 else 86_400;
      && Get(fields, Iss) == Get(fields, Aud) == Some(Str("pingoo"))
      && Get(fields, Sub) == Some(Str(issue.client)) && Get(fields, Jti) == Some(Str(issue.jti))
      && Get(fields, Nbf) == Get(fields, Iat) == Some(Num(issue.at / 1_000_000_000))
      && Get(fields, Exp) == Some(Num(issue.at / 1_000_000_000 + seconds))
      && (issue.Challenged? ==>
            Get(fields, Challenge) == Some(Str(issue.challenge)) && Get(fields, Difficulty) == Some(Num(1)))
      && (issue.Passed? ==> Get(fields, ChallengePassed) == Some(Bool(true)))
  {
    hide ClaimsOf;
    IssuedMembers(issue);
    match issue
    case Challenged(client, challenge, at, jti) => ChallengeIssued(client, challenge, at, jti);
    case Passed(client, at, jti, cookie, body, clock) => PassIssued(client, at, jti, cookie, body, clock);
  }

  lemma ChallengeIssued(client: string, challenge: string, at: int, jti: string)
    ensures var fields := ClaimsOf(Challenged(client, challenge, at, jti)).fields;
      && Get(fields, Sub) == Some(Str(client)) && Get(fields, Jti) == Some(Str(jti))
      && Get(fields, Iat) == Some(Num(at / 1_000_000_000))
      && Get(fields, Challenge) == Some(Str(challenge)) && Get(fields, Difficulty) == Some(Num(1))
  {
    hide Record;
    var c := ChallengeClaims(challenge, PROOF_OF_WORK_DIFFICULTY, ClaimsFor(client, at, CHALLENGE_LIFETIME, jti));
    ChallengeMember(c, Sub);
    ChallengeMember(c, Jti);
    ChallengeMember(c, Iat);
    ChallengeMember(c, Challenge);
    ChallengeMember(c, Difficulty);
  }

  lemma PassIssued(client: string, at: int, jti: string, cookie: string, body: VerifyBody, clock: Clock)
    ensures var fields := ClaimsOf(Passed(client, at, jti, cookie, body, clock)).fields;
      && Get(fields, Sub) == Some(Str(client)) && Get(fields, Jti) == Some(Str(jti))
      && Get(fields, Iat) == Some(Num(at / 1_000_000_000)) && Get(fields, ChallengePassed) == Some(Bool(true))
  {
    hide Record;
    var c := PassClaims(true, ClaimsFor(client, at, PASS_LIFETIME, jti));
    PassMember(c, Sub);
    PassMember(c, Jti);
    PassMember(c, Iat);
    PassMember(c, ChallengePassed);
  }

  lemma IssuedReadBack(issue: Issue)
    requires InClock(issue.at)
    ensures var r := ClaimsFor(issue.client, issue.at, Lifetime(issue), issue.jti);
            match issue
            case Challenged(_, challenge, _, _) =>
              && ChallengeFromJson(ClaimsOf(issue)) == Some(ChallengeClaims(challenge, PROOF_OF_WORK_DIFFICULTY, r))
              && PassFromJson(ClaimsOf(issue)) == None
            case Passed(_, _, _, _, _, _) =>
              && PassFromJson(ClaimsOf(issue)) == Some(PassClaims(true, r))
              && ChallengeFromJson(ClaimsOf(issue)) == None
  {
    hide Record, ChallengeFromJson, PassFromJson;
    var r := ClaimsFor(issue.client, issue.at, Lifetime(issue), issue.jti);
    var c := ChallengeClaims(if issue.Challenged? then issue.challenge else "", PROOF_OF_WORK_DIFFICULTY, r);
    var p := PassClaims(true, r);
    ChallengeRoundTrip(c);
    PassRoundTrip(p);
    KindsAreDistinct(c, p);
  }

  lemma IssuedIsPlain(codec: Codec, issue: Issue)
    requires Lawful(codec) && InClock(issue.at)
    ensures ReadsBack(codec, ClaimsOf(issue))
  {
    assert Plain(ClaimsOf(issue));
  }

  /** Whatever the manager reads from an unforged token, it once wrote itself. */
  lemma AcceptedWasIssued<C>(w: World, log: seq<Issue>, token: string, clock: Clock, from: Json -> Option<C>)
    returns (k: nat)
    requires Lawful(w.codec) && Unforged(w, log, token) && forall i :: 0 <= i < |log| ==> InClock(log[i].at)
    requires ParseCookie(w.codec, w.mgr, token, clock, from).Some?
    ensures k < |log| && CheckClaims(ClaimsOf(log[k]), OPTIONS, clock)
    ensures from(ClaimsOf(log[k])) == ParseCookie(w.codec, w.mgr, token, clock, from)
  {
    var key := KeyOf(w.codec, w.mgr, token).value;
    VerifiedMessage(w.codec, key, token, OPTIONS, clock, from);
    var p := Split(token);
    k :| 0 <= k < |log| && p[0] + "." + p[1] == MessageOf(w, log[k]);
    SignatureFits(w.codec, key, token, clock, from);
    IssuedIsPlain(w.codec, log[k]);
    KnownMessage(w.codec, key, token, TokenHeader(w.mgr.signing), ClaimsOf(log[k]), OPTIONS, clock, from);
  }

  lemma SignatureFits<C>(codec: Codec, key: Key, token: string, clock: Clock, from: Json -> Option<C>)
    requires ParseAndVerify(codec, key, token, OPTIONS, clock, from).Ok?
    ensures var p := Split(token); |p| == 3 && DecodeUrl(p[2]).Some? && |DecodeUrl(p[2]).value| <= SIGNATURE_MAX_SIZE
  {
  }

  lemma RunInClock(w: World, log: seq<Issue>)
    requires IsRun(w, log)
    ensures forall i :: 0 <= i < |log| ==> InClock(log[i].at)
  {
    forall i | 0 <= i < |log| ensures InClock(log[i].at) {
      assert Follows(w, log, i);
    }
  }

  /** A pass is only given for a live challenge of the same client, with its work done. */
  lemma PassNeedsWork(w: World, log: seq<Issue>, k: nat)
    requires IsRun(w, log) && k < |log| && log[k].Passed?
    ensures exists i ::
              && 0 <= i < k && Earned(w, log[i], log[k]) && log[i].Challenged? && log[i].client == log[k].client
              && w.sha(log[i].challenge + log[k].body.nonce) == log[k].body.hash
              && |log[k].body.hash| > 0 && log[k].body.hash[0] < 16
  {
    RunInClock(w, log);
    assert Follows(w, log, k);
    var i := AcceptedWasIssued(w, log[..k], log[k].cookie, log[k].clock, ChallengeFromJson);
    IssuedReadBack(log[i]);
    IssuedClaimsCheck(log[i], log[k].clock);
    AcceptsOneZero(w.sha, log[i].challenge, log[k].body.hash, log[k].body.nonce);
    assert Earned(w, log[i], log[k]);
  }

  /** `pass` was earned by solving `challenge` while it lived. */
  predicate Earned(w: World, challenge: Issue, pass: Issue) {
    && challenge.Challenged? && pass.Passed? && challenge.client == pass.client
    && Alive(challenge.at, CHALLENGE_LIFETIME, pass.clock)
    && w.sha(challenge.challenge + pass.body.nonce) == pass.body.hash
    && pass.body.hash != [] && pass.body.hash[0] < 16
  }

  /** Access is only given on a live pass of the same client. */
  lemma AccessNeedsPass(w: World, log: seq<Issue>, cookie: string, client: string, clock: Clock) returns (k: nat)
    requires IsRun(w, log) && Unforged(w, log, cookie) && Validates(w.codec, w.mgr, cookie, client, clock)
    ensures k < |log| && log[k].Passed? && log[k].client == client && Alive(log[k].at, PASS_LIFETIME, clock)
  {
    RunInClock(w, log);
    k := AcceptedWasIssued(w, log, cookie, clock, PassFromJson);
    IssuedReadBack(log[k]);
    IssuedClaimsCheck(log[k], clock);
  }

  /** The whole chain: a client that is let through was challenged, solved the challenge
      before it was ten minutes old and was given a pass less than a day ago, each up to the
      drift and the second a timestamp is rounded to. */
  lemma AccessTracesBackToWork(w: World, log: seq<Issue>, cookie: string, client: string, clock: Clock)
    requires IsRun(w, log) && Unforged(w, log, cookie) && Validates(w.codec, w.mgr, cookie, client, clock)
    ensures exists i, k :: 0 <= i < k < |log| && Earned(w, log[i], log[k]) && log[k].client == client
              && clock.atExp <= log[k].at + PASS_LIFETIME + NANOS + DRIFT
              && clock.atNbf > log[k].at - NANOS - DRIFT
              && log[k].clock.atExp <= log[i].at + CHALLENGE_LIFETIME + NANOS + DRIFT
              && log[k].clock.atNbf > log[i].at - NANOS - DRIFT
  {
    var k := AccessNeedsPass(w, log, cookie, client, clock);
    AliveBounds(log[k].at, PASS_LIFETIME, clock);
    PassNeedsWork(w, log, k);
    var i :| 0 <= i < k && Earned(w, log[i], log[k]);
    AliveBounds(log[i].at, CHALLENGE_LIFETIME, log[k].clock);
  }

  /** In every call the clock is read in order, and no `verify` takes longer than `delay`
      from its first reading to the pass it issues. */
  ghost predicate Ticking(log: seq<Issue>, delay: nat) {
    forall k :: 0 <= k < |log| && log[k].Passed? ==>
      log[k].clock.atExp <= log[k].clock.atNbf <= log[k].at <= log[k].clock.atExp + delay
  }

  /** From end to end, in nanoseconds: a client that is let through was challenged at most a
      day and ten minutes ago, up to twice the drift of 5 s and the rounded second and the time
      `verify` took, and not before that challenge. */
  lemma AccessIsRecent(w: World, log: seq<Issue>, cookie: string, client: string, clock: Clock, delay: nat)
    requires IsRun(w, log) && Ticking(log, delay)
    requires Unforged(w, log, cookie) && Validates(w.codec, w.mgr, cookie, client, clock)
    ensures exists i, k :: 0 <= i < k < |log| && Earned(w, log[i], log[k]) && log[k].client == client
              && clock.atExp - log[i].at <= 87_012_000_000_000 + delay
              && clock.atNbf - log[i].at > -12_000_000_000
  {
    var k := AccessNeedsPass(w, log, cookie, client, clock);
    AliveBounds(log[k].at, PASS_LIFETIME, clock);
    PassNeedsWork(w, log, k);
    var i :| 0 <= i < k && Earned(w, log[i], log[k]);
    AliveBounds(log[i].at, CHALLENGE_LIFETIME, log[k].clock);
  }

  // Tokens the server issued

  /** The server can read what it signs. */
  ghost predicate Ready(w: World) {
    Lawful(w.codec) && KnowsItself(w.mgr) && Sound(w.mgr.signing) && w.mgr.signing.algorithm == EdDSA
  }

  lemma IssuedTokenIsRead<C>(w: World, issue: Issue, token: string, clock: Clock, from: Json -> Option<C>)
    requires Ready(w) && InClock(issue.at) && IsToken(w.codec, w.mgr.signing, ClaimsOf(issue), token)
    ensures ParseCookie(w.codec, w.mgr, token, clock, from)
         == if Alive(issue.at, Lifetime(issue), clock) then from(ClaimsOf(issue)) else None
  {
    var key := w.mgr.signing;
    var header := TokenHeader(key);
    IssuedIsPlain(w.codec, issue);
    SplitSigned(w.codec, header, ClaimsOf(issue), key.sign(Message(w.codec, header, ClaimsOf(issue))).value);
    MessageIsRead(w.codec, token, header, ClaimsOf(issue));
    assert KeyOf(w.codec, w.mgr, token) == Some(key);
    SignedTokenVerifiesExactlyWhen(w.codec, key, header, ClaimsOf(issue), OPTIONS, clock, from);
    IssuedClaimsCheck(issue, clock);
  }

  /** A pass lets in its own client exactly as long as it lives, and nobody else ever; a
      challenge lets in nobody. */
  lemma ValidatesExactlyWhen(w: World, issue: Issue, token: string, client: string, clock: Clock)
    requires Ready(w) && InClock(issue.at) && IsToken(w.codec, w.mgr.signing, ClaimsOf(issue), token)
    ensures Validates(w.codec, w.mgr, token, client, clock)
       <==> issue.Passed? && client == issue.client && Alive(issue.at, PASS_LIFETIME, clock)
  {
    IssuedTokenIsRead(w, issue, token, clock, PassFromJson);
    IssuedReadBack(issue);
  }

  /** A challenge is accepted exactly from its own client, while it lives, with a solution;
      a pass is never accepted in its place. */
  lemma VerifiesExactlyWhen(w: World, issue: Issue, token: string, body: VerifyBody, client: string, clock: Clock)
    requires Ready(w) && InClock(issue.at) && IsToken(w.codec, w.mgr.signing, ClaimsOf(issue), token)
    ensures Verifies(w.codec, w.mgr, w.sha, token, body, client, clock)
       <==> && issue.Challenged? && client == issue.client && Alive(issue.at, CHALLENGE_LIFETIME, clock)
            && w.sha(issue.challenge + body.nonce) == body.hash && |body.hash| > 0 && body.hash[0] < 16
  {
    AcceptsOneZero(w.sha, if issue.Challenged? then issue.challenge else "", body.hash, body.nonce);
    IssuedTokenIsRead(w, issue, token, clock, ChallengeFromJson);
    IssuedReadBack(issue);
  }

  // Key files

  /** No key of the file accepts what another one signs. */
  ghost predicate OwnOnly(keys: seq<Key>) {
    forall a, b, m :: a in keys && b in keys && a != b && b.sign(m).Some? ==> !a.verify(m, b.sign(m).value)
  }

  /** A token whose signing key lost its id to a later key is refused, alive or not. */
  lemma ShadowedKeyIsRefused<C>(codec: Codec, keys: seq<Key>, last: nat, claims: Json, token: string, clock: Clock,
                                from: Json -> Option<C>)
    requires Lawful(codec) && ReadsBack(codec, claims) && LastOfId(keys, last) && OwnOnly(keys) && keys[last] != keys[0]
    requires IsToken(codec, keys[0], claims, token)
    ensures ParseCookie(codec, NewManager(keys), token, clock, from) == None
  {
    var mgr, header := NewManager(keys), TokenHeader(keys[0]);
    var m := Message(codec, header, claims);
    var signature := keys[0].sign(m).value;
    SplitSigned(codec, header, claims, signature);
    MessageIsRead(codec, token, header, claims);
    KeysByIdLast(keys, last);
    DecodesExactlyWhatItEncodes(EncodeUrl(signature), signature);
    assert keys[last] in keys && keys[0] in keys;
    assert KeyOf(codec, mgr, token) == Some(keys[last]);
    RefusedSignature(codec, keys[last], token, clock, from);
  }

  lemma RefusedSignature<C>(codec: Codec, key: Key, token: string, clock: Clock, from: Json -> Option<C>)
    requires var p := Split(token);
      && |p| == 3 && DecodeUrl(p[2]).Some?
      && !key.verify(p[0] + "." + p[1], DecodeUrl(p[2]).value)
    ensures ParseAndVerify(codec, key, token, OPTIONS, clock, from).Err?
  {
    SplitLengths(token);
  }

  /** The operation a token is issued for can read it. */
  predicate IsReadBack(codec: Codec, mgr: Manager, issue: Issue, token: string, clock: Clock) {
    match issue
    case Challenged(_, _, _, _) => ParseCookie(codec, mgr, token, clock, ChallengeFromJson).Some?
    case Passed(_, _, _, _, _, _) => ParseCookie(codec, mgr, token, clock, PassFromJson).Some?
  }

  /** A live token the server issues is read back if and only if the last key of the file
      with the first key's id is the first key. */
  lemma ReadBackExactlyWhen(codec: Codec, keys: seq<Key>, last: nat, issue: Issue, token: string, clock: Clock)
    requires Lawful(codec) && LastOfId(keys, last) && OwnOnly(keys) && Sound(keys[0]) && keys[0].algorithm == EdDSA
    requires InClock(issue.at) && IsToken(codec, keys[0], ClaimsOf(issue), token)
             && Alive(issue.at, Lifetime(issue), clock)
    ensures IsReadBack(codec, NewManager(keys), issue, token, clock) <==> keys[last] == keys[0]
  {
    IssuedIsPlain(codec, issue);
    KnowsItselfExactlyWhen(keys, last);
    if keys[last] == keys[0] {
      var w := World(codec, NewManager(keys), _ => []);
      IssuedTokenIsRead(w, issue, token, clock, ChallengeFromJson);
      IssuedTokenIsRead(w, issue, token, clock, PassFromJson);
      IssuedReadBack(issue);
    } else {
      ShadowedKeyIsRefused(codec, keys, last, ClaimsOf(issue), token, clock, ChallengeFromJson);
      ShadowedKeyIsRefused(codec, keys, last, ClaimsOf(issue), token, clock, PassFromJson);
    }
  }

  /** Every live token the server may issue with this key file is read back. */
  ghost predicate ReadsItsTokens(codec: Codec, keys: seq<Key>)
    requires keys != []
  {
    forall issue: Issue, token, clock ::
      && InClock(issue.at) && IsToken(codec, keys[0], ClaimsOf(issue), token)
      && Alive(issue.at, Lifetime(issue), clock) ==>
        IsReadBack(codec, NewManager(keys), issue, token, clock)
  }

  /** ... so a key file that can sign at all works exactly under that condition. */
  lemma KeyFileWorksExactlyWhen(codec: Codec, keys: seq<Key>, last: nat, issue: Issue)
    requires Lawful(codec) && LastOfId(keys, last) && OwnOnly(keys) && Sound(keys[0]) && keys[0].algorithm == EdDSA
    requires InClock(issue.at) && keys[0].sign(Message(codec, TokenHeader(keys[0]), ClaimsOf(issue))).Some?
    ensures ReadsItsTokens(codec, keys) <==> keys[last] == keys[0]
  {
    hide IsReadBack, NewManager, Message;
    if keys[last] == keys[0] {
      forall x: Issue, token, clock
        | InClock(x.at) && IsToken(codec, keys[0], ClaimsOf(x), token) && Alive(x.at, Lifetime(x), clock)
        ensures IsReadBack(codec, NewManager(keys), x, token, clock)
      {
        ReadBackExactlyWhen(codec, keys, last, x, token, clock);
      }
    } else {
      var m := Message(codec, TokenHeader(keys[0]), ClaimsOf(issue));
      var token := m + "." + EncodeUrl(keys[0].sign(m).value);
      var clock := Clock(issue.at, issue.at);
      assert Alive(issue.at, Lifetime(issue), clock);
      ReadBackExactlyWhen(codec, keys, last, issue, token, clock);
    }
  }
}
