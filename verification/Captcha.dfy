/** pingoo/captcha.rs: the captcha protocol.  A client is challenged (`init`), proves work
    (`verify`) and then passes (`validate`); it carries the state itself, in two kinds of
    token signed with the same key, for the same issuer and audience. */
module Captcha {
  import opened Wrappers
  import opened Hex
  import opened Base64Url
  import opened Json
  import opened Jwt
  import opened ProofOfWork

  const ISSUER: string := "pingoo"
  const CHALLENGE_LIFETIME: nat := 600 * NANOS
  const PASS_LIFETIME: nat := 86400 * NANOS
  const DRIFT: nat := 5 * NANOS
  const PROOF_OF_WORK_DIFFICULTY: Byte := 1
  const OPTIONS: ValidateOptions := ValidateOptions(DRIFT, true, true, [ISSUER], [ISSUER])

  datatype Registered = Registered(iss: Option<string>, sub: Option<string>, aud: Option<string>,
                                   exp: Option<int>, nbf: Option<int>, iat: Option<int>, jti: Option<string>)

  /** What a client carries while it works. */
  datatype ChallengeClaims = ChallengeClaims(challenge: string, difficulty: Byte, registered: Registered)

  /** What a client carries once it has passed. */
  datatype PassClaims = PassClaims(challengePassed: bool, registered: Registered)

  const CHALLENGE_FIELDS: set<Field> := {Challenge, Difficulty, Iss, Sub, Aud, Exp, Nbf, Iat, Jti}
  const PASS_FIELDS: set<Field> := {ChallengePassed, Iss, Sub, Aud, Exp, Nbf, Iat, Jti}

  function RegisteredField(r: Registered, f: Field): Option<Json> {
    match f
    case Iss => OptStr(r.iss)
    case Sub => OptStr(r.sub)
    case Aud => OptStr(r.aud)
    case Exp => OptNum(r.exp)
    case Nbf => OptNum(r.nbf)
    case Iat => OptNum(r.iat)
    case Jti => OptStr(r.jti)
    case _ => None
  }

  function RegisteredFrom(fields: map<Field, Json>): Option<Registered> {
    var (iss, sub) := (ReadStr(fields, Iss), ReadStr(fields, Sub));
    var (aud, jti) := (ReadStr(fields, Aud), ReadStr(fields, Jti));
    var (exp, nbf, iat) := (ReadI64(fields, Exp), ReadI64(fields, Nbf), ReadI64(fields, Iat));
    if iss.Some? && sub.Some? && aud.Some? && jti.Some? && exp.Some? && nbf.Some? && iat.Some?
    then Some(Registered(iss.value, sub.value, aud.value, exp.value, nbf.value, iat.value, jti.value))
    else None
  }

  function ChallengeField(c: ChallengeClaims, f: Field): Option<Json> {
    match f
    case Challenge => Some(Str(c.challenge))
    case Difficulty => Some(Num(c.difficulty))
    case _ => RegisteredField(c.registered, f)
  }

  function ChallengeToJson(c: ChallengeClaims): Json { Obj(Record(CHALLENGE_FIELDS, f => ChallengeField(c, f))) }

  function ChallengeFromJson(j: Json): Option<ChallengeClaims> {
    if !j.Obj? then None
    else match (Get(j.fields, Challenge), Get(j.fields, Difficulty), RegisteredFrom(j.fields))
      case (Some(Str(challenge)), Some(Num(d)), Some(r)) =>
        if 0 <= d < 256 then Some(ChallengeClaims(challenge, d, r)) else None
      case _ => None
  }

  function PassField(c: PassClaims, f: Field): Option<Json> {
    match f
    case ChallengePassed => Some(Bool(c.challengePassed))
    case _ => RegisteredField(c.registered, f)
  }

  function PassToJson(c: PassClaims): Json { Obj(Record(PASS_FIELDS, f => PassField(c, f))) }

  function PassFromJson(j: Json): Option<PassClaims> {
    if !j.Obj? then None
    else match (Get(j.fields, ChallengePassed), RegisteredFrom(j.fields))
      case (Some(Bool(passed)), Some(r)) => Some(PassClaims(passed, r))
      case _ => None
  }

  predicate InI64(n: Option<int>) { n.Some? ==> I64_MIN <= n.value <= I64_MAX }

  predicate Representable(r: Registered) { InI64(r.exp) && InI64(r.nbf) && InI64(r.iat) }

  lemma ChallengeMember(c: ChallengeClaims, f: Field)
    ensures Get(ChallengeToJson(c).fields, f) == if f in CHALLENGE_FIELDS then ChallengeField(c, f) else None
  {
    RecordGet(CHALLENGE_FIELDS, x => ChallengeField(c, x), f);
  }

  lemma PassMember(c: PassClaims, f: Field)
    ensures Get(PassToJson(c).fields, f) == if f in PASS_FIELDS then PassField(c, f) else None
  {
    RecordGet(PASS_FIELDS, x => PassField(c, x), f);
  }

  lemma RegisteredRoundTrip(fields: map<Field, Json>, r: Registered)
    requires Representable(r)
    requires Get(fields, Iss) == OptStr(r.iss) && Get(fields, Sub) == OptStr(r.sub) && Get(fields, Aud) == OptStr(r.aud)
    requires Get(fields, Exp) == OptNum(r.exp) && Get(fields, Nbf) == OptNum(r.nbf) && Get(fields, Iat) == OptNum(r.iat)
    requires Get(fields, Jti) == OptStr(r.jti)
    ensures RegisteredFrom(fields) == Some(r)
  {
  }

  lemma ChallengeRoundTrip(c: ChallengeClaims)
    requires Representable(c.registered)
    ensures ChallengeFromJson(ChallengeToJson(c)) == Some(c)
  {
    hide Record, RegisteredFrom, Representable, ChallengeFromJson;
    ChallengeMember(c, Iss);
    ChallengeMember(c, Sub);
    ChallengeMember(c, Aud);
    ChallengeMember(c, Exp);
    ChallengeMember(c, Nbf);
    ChallengeMember(c, Iat);
    ChallengeMember(c, Jti);
    RegisteredRoundTrip(ChallengeToJson(c).fields, c.registered);
    ChallengeIsRead(c);
  }

  /** Whatever its registered claims, a challenge is read with those that are read from it. */
  lemma ChallengeIsRead(c: ChallengeClaims)
    ensures var r := RegisteredFrom(ChallengeToJson(c).fields);
            r.Some? ==> ChallengeFromJson(ChallengeToJson(c)) == Some(c.(registered := r.value))
  {
    hide Record, RegisteredFrom;
    ChallengeMember(c, Challenge);
    ChallengeMember(c, Difficulty);
  }

  lemma PassRoundTrip(c: PassClaims)
    requires Representable(c.registered)
    ensures PassFromJson(PassToJson(c)) == Some(c)
  {
    hide Record, RegisteredFrom;
    PassMember(c, Iss);
    PassMember(c, Sub);
    PassMember(c, Aud);
    PassMember(c, Exp);
    PassMember(c, Nbf);
    PassMember(c, Iat);
    PassMember(c, Jti);
    RegisteredRoundTrip(PassToJson(c).fields, c.registered);
    PassMember(c, ChallengePassed);
  }

  /** Neither record can be read from the other's claims. */
  lemma KindsAreDistinct(c: ChallengeClaims, p: PassClaims)
    ensures PassFromJson(ChallengeToJson(c)) == None && ChallengeFromJson(PassToJson(p)) == None
  {
    hide Record, RegisteredFrom;
    ChallengeMember(c, ChallengePassed);
    PassMember(p, Challenge);
  }

  // The manager

  datatype Manager = Manager(signing: Key, keys: map<string, Key>)

  /** All keys by their id; of two keys with one id the later one stays. */
  function KeysById(keys: seq<Key>): map<string, Key> {
    if keys == [] then map[] else KeysById(keys[..|keys| - 1])[keys[|keys| - 1].id := keys[|keys| - 1]]
  }

  function NewManager(keys: seq<Key>): Manager
    requires keys != []
  {
    Manager(keys[0], KeysById(keys))
  }

  /** The manager finds its own signing key under that key's id. */
  ghost predicate KnowsItself(mgr: Manager) {
    mgr.signing.id in mgr.keys && mgr.keys[mgr.signing.id] == mgr.signing
  }

  lemma {:induction false} KeysByIdLast(keys: seq<Key>, i: nat)
    requires i < |keys| && forall j :: i < j < |keys| ==> keys[j].id != keys[i].id
    ensures keys[i].id in KeysById(keys) && KeysById(keys)[keys[i].id] == keys[i]
  {
    if i < |keys| - 1 {
      KeysByIdLast(keys[..|keys| - 1], i);
    }
  }

  /** Of the keys with the first one's id, `last` is the last. */
  predicate LastOfId(keys: seq<Key>, last: nat) {
    last < |keys| && keys[last].id == keys[0].id && forall j :: last < j < |keys| ==> keys[j].id != keys[0].id
  }

  /** The manager finds its signing key exactly when the last key with its id is that key. */
  lemma KnowsItselfExactlyWhen(keys: seq<Key>, last: nat)
    requires LastOfId(keys, last)
    ensures KnowsItself(NewManager(keys)) <==> keys[last] == keys[0]
  {
    KeysByIdLast(keys, last);
  }

  function TokenHeader(key: Key): Header { Header(EdDSA, None, None, Some(key.id), None, None, None) }

  function ClaimsFor(client: string, now: int, lifetime: nat, jti: string): Registered {
    Registered(Some(ISSUER), Some(client), Some(ISSUER),
               Some(Seconds(now + lifetime)), Some(Seconds(now)), Some(Seconds(now)), Some(jti))
  }

  function ChallengeJson(client: string, challenge: string, now: int, jti: string): Json {
    var registered := ClaimsFor(client, now, CHALLENGE_LIFETIME, jti);
    ChallengeToJson(ChallengeClaims(challenge, PROOF_OF_WORK_DIFFICULTY, registered))
  }

  function PassJson(client: string, now: int, jti: string): Json {
    PassToJson(PassClaims(true, ClaimsFor(client, now, PASS_LIFETIME, jti)))
  }

  datatype Cookie = Cookie(name: string, value: string, expires: int, secure: bool, httpOnly: bool, path: string)

  /** A new cookie and its setters. */
  method SecureCookie(name: string, value: string, expires: int) returns (c: Cookie)
    ensures c == Cookie(name, value, expires, true, true, "/")
  {
    c := Cookie(name, value, 0, false, false, "");
    c := c.(secure := true);
    c := c.(httpOnly := true);
    c := c.(path := "/");
    c := c.(expires := expires);
  }

  method GenerateCaptchaCookie(codec: Codec, key: Key, client: string, challenge: string, now: int, jti: string)
    returns (r: Result<Cookie, Error>)
    ensures r.Ok? <==> key.sign(Message(codec, TokenHeader(key), ChallengeJson(client, challenge, now, jti))).Some?
    ensures r.Ok? ==> IsToken(codec, key, ChallengeJson(client, challenge, now, jti), r.value.value)
                      && r.value.name == "__pingoo_captcha" && r.value.expires == now / 1_000_000_000 + 540
                      && r.value.secure && r.value.httpOnly && r.value.path == "/"
  {
    var token := Sign(codec, key, TokenHeader(key), ChallengeJson(client, challenge, now, jti));
    if token.Err? {
      return Err(token.error);
    }
    var cookie := SecureCookie("__pingoo_captcha", token.value, Seconds(now + CHALLENGE_LIFETIME) - 60);
    return Ok(cookie);
  }

  /** The cookies of a client that has passed: the pass, and one that removes its challenge. */
  ghost predicate IsPass(codec: Codec, key: Key, client: string, now: int, jti: string, cookies: seq<Cookie>) {
    && |cookies| == 2 && IsToken(codec, key, PassJson(client, now, jti), cookies[0].value)
    && cookies[0].name == "__pingoo_captcha_verified" && cookies[0].expires == now / 1_000_000_000 + 86_340
    && cookies[0].secure && cookies[0].httpOnly && cookies[0].path == "/"
    && cookies[1] == Cookie("__pingoo_captcha", "", 0, true, true, "/")
  }

  method GenerateCaptchaVerifiedCookies(codec: Codec, key: Key, client: string, now: int, jti: string)
    returns (r: Result<seq<Cookie>, Error>)
    ensures r.Ok? <==> key.sign(Message(codec, TokenHeader(key), PassJson(client, now, jti))).Some?
    ensures r.Ok? ==> IsPass(codec, key, client, now, jti, r.value)
    ensures r.Ok? ==> |r.value| == 2
                      && r.value[0] == Cookie("__pingoo_captcha_verified", r.value[0].value,
                                              now / 1_000_000_000 + 86_340, true, true, "/")
                      && r.value[1] == Cookie("__pingoo_captcha", "", 0, true, true, "/")
  {
    var token := Sign(codec, key, TokenHeader(key), PassJson(client, now, jti));
    if token.Err? {
      return Err(token.error);
    }
    var pass := SecureCookie("__pingoo_captcha_verified", token.value, Seconds(now + PASS_LIFETIME) - 60);
    var removed := SecureCookie("__pingoo_captcha", "", 0);
    return Ok([pass, removed]);
  }

  /** The token `key` signs for these claims. */
  ghost predicate IsToken(codec: Codec, key: Key, claims: Json, token: string) {
    var m := Message(codec, TokenHeader(key), claims);
    key.sign(m).Some? && token == m + "." + EncodeUrl(key.sign(m).value)
  }

  /** The key a token names, if the manager has it. */
  function KeyOf(codec: Codec, mgr: Manager, token: string): Option<Key> {
    match ParseHeader(codec, token)
    case Err(_) => None
    case Ok(header) =>
      var kid := if header.kid.Some? then header.kid.value else "";
      if kid in mgr.keys then Some(mgr.keys[kid]) else None
  }

  function ParseCookie<C>(codec: Codec, mgr: Manager, token: string, clock: Clock, from: Json -> Option<C>): Option<C> {
    var key := KeyOf(codec, mgr, token);
    if key.None? then None
    else match ParseAndVerify(codec, key.value, token, OPTIONS, clock, from)
      case Ok(parsed) => Some(parsed.claims)
      case Err(_) => None
  }

  predicate SubjectIs(r: Registered, client: string) { client == if r.sub.Some? then r.sub.value else "" }

  /** `validate_captcha_verified_cookie`. */
  predicate Validates(codec: Codec, mgr: Manager, cookie: string, client: string, clock: Clock) {
    var claims := ParseCookie(codec, mgr, cookie, clock, PassFromJson);
    claims.Some? && SubjectIs(claims.value.registered, client) && claims.value.challengePassed == true
  }

  datatype VerifyBody = VerifyBody(hash: seq<Byte>, nonce: string)

  /** `api_verify`, up to the point where it issues the pass. */
  predicate Verifies(codec: Codec, mgr: Manager, sha: string -> seq<Byte>, cookie: string, body: VerifyBody,
                     client: string, clock: Clock) {
    var claims := ParseCookie(codec, mgr, cookie, clock, ChallengeFromJson);
    && claims.Some? && SubjectIs(claims.value.registered, client)
    && Accepts(sha, claims.value.challenge, claims.value.difficulty, body.hash, body.nonce)
  }

  /** `api_verify`.  Every failure is answered with the same error. */
  method ApiVerify(codec: Codec, mgr: Manager, sha: string -> seq<Byte>, cookie: Option<string>,
                   body: Option<VerifyBody>, client: string, clock: Clock, now: int, jti: string)
    returns (r: Result<seq<Cookie>, ()>)
    ensures r.Ok? <==>
      && cookie.Some? && body.Some? && Verifies(codec, mgr, sha, cookie.value, body.value, client, clock)
      && mgr.signing.sign(Message(codec, TokenHeader(mgr.signing), PassJson(client, now, jti))).Some?
    ensures r.Ok? ==> IsPass(codec, mgr.signing, client, now, jti, r.value)
  {
    hide IsPass, ParseCookie, Message, PassJson, TokenHeader, Encode, LeadingZeros;
    if cookie.None? {
      return Err(());
    }
    var claims := ParseCookie(codec, mgr, cookie.value, clock, ChallengeFromJson);
    if claims.None? || body.None? {
      return Err(());
    }
    if !SubjectIs(claims.value.registered, client) {
      return Err(());
    }
    var leadingZeroes := CountLeadingZeroes(Encode(body.value.hash));
    if leadingZeroes < claims.value.difficulty {
      return Err(());
    }
    var buffer := "";
    buffer := buffer + claims.value.challenge;
    buffer := buffer + body.value.nonce;
    assert buffer == claims.value.challenge + body.value.nonce;
    if sha(buffer) != body.value.hash {
      return Err(());
    }
    var cookies := GenerateCaptchaVerifiedCookies(codec, mgr.signing, client, now, jti);
    if cookies.Err? {
      return Err(());
    }
    return Ok(cookies.value);
  }

  method CountLeadingZeroes(s: string) returns (n: nat)
    ensures n == LeadingZeros(s)
  {
    n := 0;
    while n < |s| && s[n] == '0'
      invariant n <= |s| && LeadingZeros(s) == n + LeadingZeros(s[n..])
    {
      n := n + 1;
    }
  }
}
