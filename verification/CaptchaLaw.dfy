/** What the two captcha checks make of any signed claims, claim by claim, whether or not this
    server would issue them. */
module CaptchaLaw {
  import opened Wrappers
  import opened Hex
  import opened Base64Url
  import opened Json
  import opened Jwt
  import opened ProofOfWork
  import opened Captcha

  /** `token` carries these claims, signed by the key that the manager has under the key id of
      its header, or under the empty one. */
  ghost predicate Carries(codec: Codec, mgr: Manager, token: string, header: Header, key: Key, claims: Json) {
    var kid := if header.kid.Some? then header.kid.value else "";
    && kid in mgr.keys && mgr.keys[kid] == key && Sound(key) && header.alg == key.algorithm
    && ReadsBack(codec, claims)
    && key.sign(Message(codec, header, claims)).Some?
    && token == Message(codec, header, claims) + "." + EncodeUrl(key.sign(Message(codec, header, claims)).value)
  }

  /** From this server, to this server, and at its time, five seconds of drift allowed. */
  predicate Acceptable(r: Registered, clock: Clock) {
    && r.iss == Some("pingoo") && r.aud == Some("pingoo") && r.exp.Some? && r.nbf.Some?
    && clock.atExp < (r.exp.value + 1) * 1_000_000_000 + 5_000_000_000
    && clock.atNbf >= r.nbf.value * 1_000_000_000 - 5_000_000_000
  }

  /** The cookie of a client is validated exactly when its claims are acceptable, say that the
      challenge was passed, and are this client's. */
  lemma PassExactlyWhen(codec: Codec, mgr: Manager, token: string, header: Header, key: Key, c: PassClaims,
                        client: string, clock: Clock)
    requires Lawful(codec) && Representable(c.registered) && Carries(codec, mgr, token, header, key, PassToJson(c))
    ensures Validates(codec, mgr, token, client, clock) <==>
      && Acceptable(c.registered, clock) && c.challengePassed
      && (c.registered.sub == Some(client) || (c.registered.sub == None && client == ""))
  {
    hide PassFromJson, PassToJson, CheckClaims;
    CarriedIsRead(codec, mgr, token, header, key, PassToJson(c), clock, PassFromJson);
    PassRoundTrip(c);
    PassAcceptable(c, clock);
  }

  /** Work is verified exactly when the claims are acceptable and this client's, and the hash
      is that of their challenge and the nonce and as small as their difficulty asks. */
  lemma WorkExactlyWhen(codec: Codec, mgr: Manager, sha: string -> seq<Byte>, token: string, header: Header, key: Key,
                        c: ChallengeClaims, body: VerifyBody, client: string, clock: Clock)
    requires Lawful(codec) && Representable(c.registered) && Carries(codec, mgr, token, header, key, ChallengeToJson(c))
    ensures Verifies(codec, mgr, sha, token, body, client, clock) <==>
      && Acceptable(c.registered, clock)
      && (c.registered.sub == Some(client) || (c.registered.sub == None && client == ""))
      && sha(c.challenge + body.nonce) == body.hash
      && c.difficulty <= 2 * |body.hash| && BigEndian(body.hash) < Power16(2 * |body.hash| - c.difficulty)
  {
    hide ChallengeFromJson, ChallengeToJson, CheckClaims, Accepts, Acceptable, Carries, Representable, Power16,
      BigEndian;
    CarriedIsRead(codec, mgr, token, header, key, ChallengeToJson(c), clock, ChallengeFromJson);
    ChallengeRoundTrip(c);
    ChallengeAcceptable(c, clock);
    AcceptsExactlyWhen(sha, c.challenge, c.difficulty, body.hash, body.nonce);
  }

  lemma CarriedIsRead<C>(codec: Codec, mgr: Manager, token: string, header: Header, key: Key, claims: Json,
                         clock: Clock, from: Json -> Option<C>)
    requires Lawful(codec) && Carries(codec, mgr, token, header, key, claims)
    ensures ParseCookie(codec, mgr, token, clock, from)
         == if CheckClaims(claims, OPTIONS, clock) then from(claims) else None
  {
    hide CheckClaims, Message;
    SplitSigned(codec, header, claims, key.sign(Message(codec, header, claims)).value);
    CarriedSplits(codec, token, header, claims, key.sign(Message(codec, header, claims)).value);
    MessageIsRead(codec, token, header, claims);
    assert KeyOf(codec, mgr, token) == Some(key);
    SignedTokenVerifiesExactlyWhen(codec, key, header, claims, OPTIONS, clock, from);
  }

  lemma CarriedSplits(codec: Codec, token: string, header: Header, claims: Json, signature: seq<Byte>)
    requires token == Message(codec, header, claims) + "." + EncodeUrl(signature)
    ensures |Split(token)| == 3 && Split(token)[0] + "." + Split(token)[1] == Message(codec, header, claims)
  {
    SplitSigned(codec, header, claims, signature);
  }

  lemma PassAcceptable(c: PassClaims, clock: Clock)
    requires Representable(c.registered)
    ensures CheckClaims(PassToJson(c), OPTIONS, clock) <==> Acceptable(c.registered, clock)
  {
    hide Record;
    PassMember(c, Iss);
    PassMember(c, Aud);
    PassMember(c, Exp);
    PassMember(c, Nbf);
    RegisteredAcceptable(PassToJson(c), c.registered, clock);
  }

  lemma ChallengeAcceptable(c: ChallengeClaims, clock: Clock)
    requires Representable(c.registered)
    ensures CheckClaims(ChallengeToJson(c), OPTIONS, clock) <==> Acceptable(c.registered, clock)
  {
    hide Record;
    ChallengeMember(c, Iss);
    ChallengeMember(c, Aud);
    ChallengeMember(c, Exp);
    ChallengeMember(c, Nbf);
    RegisteredAcceptable(ChallengeToJson(c), c.registered, clock);
  }

  lemma RegisteredAcceptable(claims: Json, r: Registered, clock: Clock)
    requires claims.Obj? && Representable(r)
    requires Get(claims.fields, Iss) == OptStr(r.iss) && Get(claims.fields, Aud) == OptStr(r.aud)
    requires Get(claims.fields, Exp) == OptNum(r.exp) && Get(claims.fields, Nbf) == OptNum(r.nbf)
    ensures CheckClaims(claims, OPTIONS, clock) <==> Acceptable(r, clock)
  {
    if r.exp.Some? && r.nbf.Some? {
      TimeWindow(claims.fields, OPTIONS, clock, r.exp.value, r.nbf.value);
    }
  }

  /** An optional whole number of 64 bits: absent or null, or this number. */
  predicate HasNumber(fields: map<Field, Json>, f: Field, n: Option<int>) {
    if n.None? then f !in fields || fields[f] == Null
    else f in fields && fields[f] == Num(n.value) && -0x8000_0000_0000_0000 <= n.value <= 0x7FFF_FFFF_FFFF_FFFF
  }

  /** The registered claims of a record, member by member. */
  predicate HasRegistered(fields: map<Field, Json>, r: Registered) {
    && HasText(fields, Iss, r.iss) && HasText(fields, Sub, r.sub) && HasText(fields, Aud, r.aud)
    && HasNumber(fields, Exp, r.exp) && HasNumber(fields, Nbf, r.nbf) && HasNumber(fields, Iat, r.iat)
    && HasText(fields, Jti, r.jti)
  }

  lemma RegisteredReadExactlyWhen(fields: map<Field, Json>, r: Registered)
    ensures RegisteredFrom(fields) == Some(r) <==> HasRegistered(fields, r)
  {
    TextRead(fields, Iss, r.iss);
    TextRead(fields, Sub, r.sub);
    TextRead(fields, Aud, r.aud);
    TextRead(fields, Jti, r.jti);
    NumberRead(fields, Exp, r.exp);
    NumberRead(fields, Nbf, r.nbf);
    NumberRead(fields, Iat, r.iat);
    hide ReadStr, ReadI64, HasText, HasNumber;
  }

  lemma NumberRead(fields: map<Field, Json>, f: Field, n: Option<int>)
    ensures ReadI64(fields, f) == Some(n) <==> HasNumber(fields, f, n)
  {
  }

  /** A record is read as the claims of a pass, or of a challenge, exactly when it says so. */
  lemma ClaimsReadExactlyWhen(j: Json, p: PassClaims, c: ChallengeClaims)
    ensures PassFromJson(j) == Some(p) <==>
      && j.Obj? && ChallengePassed in j.fields && j.fields[ChallengePassed] == Bool(p.challengePassed)
      && HasRegistered(j.fields, p.registered)
    ensures ChallengeFromJson(j) == Some(c) <==>
      && j.Obj? && Challenge in j.fields && j.fields[Challenge] == Str(c.challenge)
      && Difficulty in j.fields && j.fields[Difficulty] == Num(c.difficulty)
      && HasRegistered(j.fields, c.registered)
  {
    hide RegisteredFrom, HasRegistered;
    if j.Obj? {
      RegisteredReadExactlyWhen(j.fields, p.registered);
      RegisteredReadExactlyWhen(j.fields, c.registered);
    }
  }

  /** The header of an issued token has three members and no others. */
  lemma IssuedHeader(key: Key)
    ensures HeaderToJson(TokenHeader(key)) == Obj(map[Typ := Str("JWT"), Alg := Str("EdDSA"), Kid := Str(key.id)])
  {
    var h := TokenHeader(key);
    var fields := HeaderToJson(h).fields;
    assert fields.Keys == {Typ, Alg, Kid};
  }
}
