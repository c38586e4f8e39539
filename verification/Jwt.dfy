/** jwt/jwt.rs: JSON Web Tokens in the compact serialization of section 7.1 of RFC 7515. */
module Jwt {
  import opened Wrappers
  import opened Hex
  import opened Base64Url
  import opened Json

  const SIGNATURE_MAX_SIZE: nat := 132
  const NANOS: nat := 1_000_000_000

  datatype Algorithm = HS512 | EdDSA | ES256 | ES512

  datatype Header = Header(alg: Algorithm, cty: Option<string>, jku: Option<string>, kid: Option<string>,
                           x5u: Option<string>, x5t: Option<string>, x5tS256: Option<string>)

  datatype Error = InvalidToken | InvalidSignature | SigningFailed

  /** The cryptography is not part of this model: signing may fail, and a key decides which
      signatures of a message it accepts. */
  datatype Key = Key(id: string, algorithm: Algorithm, sign: string -> Option<seq<Byte>>,
                     verify: (string, seq<Byte>) -> bool)

  /** A key accepts what it signs, and its signatures have the size of its algorithm. */
  ghost predicate Sound(key: Key) {
    forall m :: key.sign(m).Some? ==>
      |key.sign(m).value| == SignatureSize(key.algorithm) && key.verify(m, key.sign(m).value)
  }

  function SignatureSize(alg: Algorithm): nat {
    match alg
    case HS512 => 64 case EdDSA => 64 case ES256 => 64
    case ES512 => 132
  }

  /** Times are nanoseconds since the Unix epoch. */
  datatype ValidateOptions = ValidateOptions(drift: nat, nbf: bool, exp: bool, aud: seq<string>, iss: seq<string>)

  /** The clock is read once for each of the two time claims. */
  datatype Clock = Clock(atExp: int, atNbf: int)

  datatype ParsedJwt<C> = ParsedJwt(header: Header, claims: C)

  // Headers

  function AlgorithmName(alg: Algorithm): string {
    match alg
    case HS512 => "HS512" case EdDSA => "EdDSA" case ES256 => "ES256" case ES512 => "ES512"
  }

  function AlgorithmNamed(name: string): Option<Algorithm> {
    if name == "HS512" then Some(HS512)
    else if name == "EdDSA" then Some(EdDSA)
    else if name == "ES256" then Some(ES256)
    else if name == "ES512" then Some(ES512)
    else None
  }

  const HEADER_FIELDS: set<Field> := {Typ, Alg, Cty, Jku, Kid, X5u, X5t, X5tS256}

  function HeaderField(h: Header, f: Field): Option<Json> {
    match f
    case Typ => Some(Str("JWT"))
    case Alg => Some(Str(AlgorithmName(h.alg)))
    case Cty => OptStr(h.cty)
    case Jku => OptStr(h.jku)
    case Kid => OptStr(h.kid)
    case X5u => OptStr(h.x5u)
    case X5t => OptStr(h.x5t)
    case X5tS256 => OptStr(h.x5tS256)
    case _ => None
  }

  function HeaderToJson(h: Header): Json { Obj(Record(HEADER_FIELDS, f => HeaderField(h, f))) }

  function HeaderFromJson(j: Json): Option<Header> {
    if !j.Obj? || Get(j.fields, Typ) != Some(Str("JWT")) then None
    else match Get(j.fields, Alg)
      case Some(Str(name)) =>
        var alg := AlgorithmNamed(name);
        var (cty, jku, kid) := (ReadStr(j.fields, Cty), ReadStr(j.fields, Jku), ReadStr(j.fields, Kid));
        var (x5u, x5t, x5s) := (ReadStr(j.fields, X5u), ReadStr(j.fields, X5t), ReadStr(j.fields, X5tS256));
        if alg.Some? && cty.Some? && jku.Some? && kid.Some? && x5u.Some? && x5t.Some? && x5s.Some?
        then Some(Header(alg.value, cty.value, jku.value, kid.value, x5u.value, x5t.value, x5s.value))
        else None
      case _ => None
  }

  lemma HeaderMember(h: Header, f: Field)
    requires f in HEADER_FIELDS
    ensures Get(HeaderToJson(h).fields, f) == HeaderField(h, f)
  {
    RecordGet(HEADER_FIELDS, x => HeaderField(h, x), f);
  }

  lemma HeaderRoundTrip(h: Header)
    ensures HeaderFromJson(HeaderToJson(h)) == Some(h)
  {
    HeaderMember(h, Typ);
    HeaderMember(h, Alg);
    HeaderMember(h, Cty);
    HeaderMember(h, Jku);
    HeaderMember(h, Kid);
    HeaderMember(h, X5u);
    HeaderMember(h, X5t);
    HeaderMember(h, X5tS256);
  }

  // Compact serialization

  /** The pieces between the dots. */
  function Split(token: string): (parts: seq<string>)
    ensures |parts| >= 1
  {
    if token == "" then [""]
    else
      var rest := Split(token[1..]);
      if token[0] == '.' then [""] + rest else [[token[0]] + rest[0]] + rest[1..]
  }

  function Part(codec: Codec, j: Json): string { EncodeUrl(codec.write(j)) }

  /** What is signed. */
  function Message(codec: Codec, header: Header, claims: Json): string {
    Part(codec, HeaderToJson(header)) + "." + Part(codec, claims)
  }

  function ReadPart(codec: Codec, part: string): Option<Json> {
    match DecodeUrl(part) case Some(bytes) => codec.read(bytes) case None => None
  }

  function ReadHeader(codec: Codec, part: string): Option<Header> {
    match ReadPart(codec, part) case Some(j) => HeaderFromJson(j) case None => None
  }

  /** The token is built piece by piece, the signature taken half-way. */
  method Sign(codec: Codec, key: Key, header: Header, claims: Json) returns (r: Result<string, Error>)
    ensures var m := Message(codec, header, claims);
            r == if key.sign(m).None? then Err(SigningFailed) else Ok(m + "." + EncodeUrl(key.sign(m).value))
  {
    var jwt := "";
    jwt := jwt + Part(codec, HeaderToJson(header));
    jwt := jwt + ".";
    jwt := jwt + Part(codec, claims);
    assert jwt == Message(codec, header, claims);
    var signature := key.sign(jwt);
    if signature.None? {
      return Err(SigningFailed);
    }
    jwt := jwt + ".";
    jwt := jwt + EncodeUrl(signature.value);
    return Ok(jwt);
  }

  function ParseHeader(codec: Codec, token: string): Result<Header, Error> {
    var parts := Split(token);
    if |parts| - 1 != 2 then Err(InvalidToken)
    else match ReadHeader(codec, parts[0])
      case Some(h) => Ok(h)
      case None => Err(InvalidToken)
  }

  /** `timestamp()`: whole seconds, rounded down. */
  function Seconds(t: int): int { t / NANOS }

  function CheckExp(fields: map<Field, Json>, options: ValidateOptions, now: int): bool {
    match Get(fields, Exp)
    case Some(j) => AsI64(j).Some? && !(AsI64(j).value < Seconds(now - options.drift))
    case None => false
  }

  function CheckNbf(fields: map<Field, Json>, options: ValidateOptions, now: int): bool {
    match Get(fields, Nbf)
    case Some(j) => AsI64(j).Some? && !(AsI64(j).value > Seconds(now + options.drift))
    case None => false
  }

  function CheckOneOf(fields: map<Field, Json>, name: Field, allowed: seq<string>): bool {
    match Get(fields, name)
    case Some(Str(s)) => s in allowed
    case _ => false
  }

  function CheckClaims(claims: Json, options: ValidateOptions, clock: Clock): bool {
    if options.exp || options.nbf || |options.aud| != 0 || |options.iss| != 0 then
      && claims.Obj?
      && (options.exp ==> CheckExp(claims.fields, options, clock.atExp))
      && (options.nbf ==> CheckNbf(claims.fields, options, clock.atNbf))
      && (options.aud != [] ==> CheckOneOf(claims.fields, Aud, options.aud))
      && (options.iss != [] ==> CheckOneOf(claims.fields, Iss, options.iss))
    else true
  }

  /** `from` reads the claims record the caller asks for. */
  function ParseAndVerify<C>(codec: Codec, key: Key, token: string, options: ValidateOptions, clock: Clock,
                             from: Json -> Option<C>): Result<ParsedJwt<C>, Error>
  {
    var parts := Split(token);
    if |parts| != 3 then Err(InvalidToken)
    else
      SplitLengths(token);
      var signature := DecodeUrl(parts[2]);
      if signature.None? || |signature.value| > SIGNATURE_MAX_SIZE then Err(InvalidSignature)
      else if !key.verify(token[..|parts[0]| + 1 + |parts[1]|], signature.value) then Err(InvalidSignature)
      else
        var header := ReadHeader(codec, parts[0]);
        if header.None? || header.value.alg != key.algorithm then Err(InvalidToken)
        else
          var claims := ReadPart(codec, parts[1]);
          if claims.None? || !CheckClaims(claims.value, options, clock) then Err(InvalidToken)
          else match from(claims.value)
            case Some(c) => Ok(ParsedJwt(header.value, c))
            case None => Err(InvalidToken)
  }

  // Cutting a token into its parts

  lemma {:induction false} SplitPiece(a: string, rest: string)
    requires '.' !in a
    ensures Split(a + "." + rest) == [a] + Split(rest)
    ensures Split(a) == [a]
  {
    if a == "" {
      assert a + "." + rest == ['.'] + rest;
      assert ("." + rest)[1..] == rest;
    } else {
      SplitPiece(a[1..], rest);
      assert (a + "." + rest)[1..] == a[1..] + "." + rest;
      assert [a[0]] + a[1..] == a;
    }
  }

  lemma SplitThree(a: string, b: string, c: string)
    requires '.' !in a && '.' !in b && '.' !in c
    ensures Split(a + "." + b + "." + c) == [a, b, c]
  {
    assert a + "." + b + "." + c == a + "." + (b + "." + c);
    SplitPiece(a, b + "." + c);
    SplitPiece(b, c);
    SplitPiece(c, "");
  }

  /** The pieces put together again. */
  function Joined(parts: seq<string>): string
    requires |parts| >= 1
  {
    if |parts| == 1 then parts[0] else parts[0] + "." + Joined(parts[1..])
  }

  lemma {:induction false} JoinSplit(token: string)
    ensures Joined(Split(token)) == token
    ensures forall p :: p in Split(token) ==> '.' !in p
  {
    if token != "" {
      JoinSplit(token[1..]);
      var parts, rest := Split(token), Split(token[1..]);
      if token[0] == '.' {
        assert parts[1..] == rest;
      } else {
        assert parts[1..] == rest[1..];
        assert rest[0] in rest;
        assert forall p :: p in parts ==> p == [token[0]] + rest[0] || p in rest;
      }
      assert token == [token[0]] + token[1..];
    }
  }

  lemma SplitLengths(token: string)
    requires |Split(token)| == 3
    ensures var p := Split(token);
      && token == p[0] + "." + p[1] + "." + p[2]
      && |p[0]| + 1 + |p[1]| <= |token|
      && token[..|p[0]| + 1 + |p[1]|] == p[0] + "." + p[1]
  {
    JoinSplit(token);
    var p := Split(token);
    assert p == [p[0]] + p[1..] && p[1..] == [p[1]] + [p[2]];
    assert Joined(p[1..]) == p[1] + "." + p[2];
  }

  // Properties

  /** The two parts of a message can be told apart. */
  lemma SplitMessage(codec: Codec, h: Header, c: Json)
    ensures Split(Message(codec, h, c)) == [Part(codec, HeaderToJson(h)), Part(codec, c)]
  {
    EncodingHasNoDot(codec.write(HeaderToJson(h)));
    EncodingHasNoDot(codec.write(c));
    SplitPiece(Part(codec, HeaderToJson(h)), Part(codec, c));
    SplitPiece(Part(codec, c), "");
  }

  lemma ReadPartOfPart(codec: Codec, j: Json)
    requires ReadsBack(codec, j)
    ensures ReadPart(codec, Part(codec, j)) == Some(j)
  {
    DecodesExactlyWhatItEncodes(EncodeUrl(codec.write(j)), codec.write(j));
  }

  lemma HeaderIsRead(codec: Codec, h: Header)
    requires Lawful(codec)
    ensures ReadHeader(codec, Part(codec, HeaderToJson(h))) == Some(h)
  {
    assert Plain(HeaderToJson(h));
    ReadPartOfPart(codec, HeaderToJson(h));
    HeaderRoundTrip(h);
  }

  /** A message is never two messages. */
  lemma MessageInjective(codec: Codec, h: Header, c: Json, h': Header, c': Json)
    requires Lawful(codec) && ReadsBack(codec, c) && ReadsBack(codec, c')
             && Message(codec, h, c) == Message(codec, h', c')
    ensures h == h' && c == c'
  {
    SplitMessage(codec, h, c);
    SplitMessage(codec, h', c');
    HeaderIsRead(codec, h);
    HeaderIsRead(codec, h');
    ReadPartOfPart(codec, c);
    ReadPartOfPart(codec, c');
  }

  /** A token whose first two parts are a known message carries that message's header and
      claims, whatever its signature. */
  lemma MessageIsRead(codec: Codec, token: string, h: Header, c: Json)
    requires Lawful(codec) && ReadsBack(codec, c) && |Split(token)| == 3
    requires var p := Split(token); p[0] + "." + p[1] == Message(codec, h, c)
    ensures var p := Split(token); ReadHeader(codec, p[0]) == Some(h) && ReadPart(codec, p[1]) == Some(c)
  {
    var p := Split(token);
    JoinSplit(token);
    assert p[0] in p && p[1] in p;
    SplitPiece(p[0], p[1]);
    SplitPiece(p[1], "");
    SplitMessage(codec, h, c);
    assert [p[0], p[1]] == [Part(codec, HeaderToJson(h)), Part(codec, c)];
    HeaderIsRead(codec, h);
    ReadPartOfPart(codec, c);
  }

  /** Signing then verifying gives back header and claims, exactly when the header names the
      key's algorithm, the claims pass the options and the record the caller wants can be
      read from them. */
  lemma SignedTokenVerifiesExactlyWhen<C>(codec: Codec, key: Key, header: Header, claims: Json,
                                          options: ValidateOptions, clock: Clock, from: Json -> Option<C>)
    requires Lawful(codec) && ReadsBack(codec, claims) && Sound(key) && key.sign(Message(codec, header, claims)).Some?
    ensures var m := Message(codec, header, claims);
            var r := ParseAndVerify(codec, key, m + "." + EncodeUrl(key.sign(m).value), options, clock, from);
      && (r.Ok? <==> header.alg == key.algorithm && CheckClaims(claims, options, clock) && from(claims).Some?)
      && (r.Ok? ==> r.value == ParsedJwt(header, from(claims).value))
      && (r.Err? ==> r.error == InvalidToken)
  {
    var m := Message(codec, header, claims);
    var signature := key.sign(m).value;
    SplitSigned(codec, header, claims, signature);
    DecodesExactlyWhatItEncodes(EncodeUrl(signature), signature);
    KnownMessage(codec, key, m + "." + EncodeUrl(signature), header, claims, options, clock, from);
  }

  /** What is read from a token whose signature stands and whose message is known. */
  lemma KnownMessage<C>(codec: Codec, key: Key, token: string, header: Header, claims: Json, options: ValidateOptions,
                        clock: Clock, from: Json -> Option<C>)
    requires Lawful(codec) && ReadsBack(codec, claims) && |Split(token)| == 3
    requires var p := Split(token);
      && p[0] + "." + p[1] == Message(codec, header, claims)
      && DecodeUrl(p[2]).Some? && |DecodeUrl(p[2]).value| <= SIGNATURE_MAX_SIZE
      && key.verify(Message(codec, header, claims), DecodeUrl(p[2]).value)
    ensures var r := ParseAndVerify(codec, key, token, options, clock, from);
      && (r.Ok? <==> header.alg == key.algorithm && CheckClaims(claims, options, clock) && from(claims).Some?)
      && (r.Ok? ==> r.value == ParsedJwt(header, from(claims).value))
      && (r.Err? ==> r.error == InvalidToken)
  {
    hide CheckClaims, Split, ReadHeader, ReadPart, DecodeUrl, Message;
    SplitLengths(token);
    MessageIsRead(codec, token, header, claims);
  }

  lemma SplitSigned(codec: Codec, header: Header, claims: Json, signature: seq<Byte>)
    ensures var m := Message(codec, header, claims);
            var parts := [Part(codec, HeaderToJson(header)), Part(codec, claims), EncodeUrl(signature)];
            Split(m + "." + EncodeUrl(signature)) == parts
  {
    EncodingHasNoDot(codec.write(HeaderToJson(header)));
    EncodingHasNoDot(codec.write(claims));
    EncodingHasNoDot(signature);
    SplitThree(Part(codec, HeaderToJson(header)), Part(codec, claims), EncodeUrl(signature));
  }

  /** `ParseHeader` never disagrees with a verification that succeeded. */
  lemma ParseHeaderAgrees<C>(codec: Codec, key: Key, token: string, options: ValidateOptions, clock: Clock,
                             from: Json -> Option<C>)
    requires ParseAndVerify(codec, key, token, options, clock, from).Ok?
    ensures ParseHeader(codec, token) == Ok(ParseAndVerify(codec, key, token, options, clock, from).value.header)
  {
  }

  /** A token is only accepted if its key accepts the signature of the message in it. */
  lemma VerifiedMessage<C>(codec: Codec, key: Key, token: string, options: ValidateOptions, clock: Clock,
                           from: Json -> Option<C>)
    requires ParseAndVerify(codec, key, token, options, clock, from).Ok?
    ensures var p := Split(token);
            |p| == 3 && DecodeUrl(p[2]).Some? && key.verify(p[0] + "." + p[1], DecodeUrl(p[2]).value)
  {
    SplitLengths(token);
  }

  /** Claims are accepted exactly when they are a record that passes whatever is asked of it:
      an audience and an issuer of the lists, and two times whose window, to the nanosecond,
      holds the clock. */
  lemma ClaimsAcceptedExactlyWhen(claims: Json, options: ValidateOptions, clock: Clock)
    ensures CheckClaims(claims, options, clock) <==>
      && (options.exp || options.nbf || options.aud != [] || options.iss != [] ==> claims.Obj?)
      && (options.exp ==> exists exp: int ::
            I64_MIN <= exp <= I64_MAX && Get(claims.fields, Exp) == Some(Num(exp))
            && clock.atExp < (exp + 1) * 1_000_000_000 + options.drift)
      && (options.nbf ==> exists nbf: int ::
            I64_MIN <= nbf <= I64_MAX && Get(claims.fields, Nbf) == Some(Num(nbf))
            && clock.atNbf >= nbf * 1_000_000_000 - options.drift)
      && (options.aud != [] ==> exists aud :: aud in options.aud && Get(claims.fields, Aud) == Some(Str(aud)))
      && (options.iss != [] ==> exists iss :: iss in options.iss && Get(claims.fields, Iss) == Some(Str(iss)))
  {
    if claims.Obj? {
      var f := claims.fields;
      if Get(f, Exp).Some? && Get(f, Exp).value.Num? {
        assert Get(f, Exp) == Some(Num(Get(f, Exp).value.n));
      }
      if Get(f, Nbf).Some? && Get(f, Nbf).value.Num? {
        assert Get(f, Nbf) == Some(Num(Get(f, Nbf).value.n));
      }
      if Get(f, Aud).Some? && Get(f, Aud).value.Str? {
        assert Get(f, Aud) == Some(Str(Get(f, Aud).value.s));
      }
      if Get(f, Iss).Some? && Get(f, Iss).value.Str? {
        assert Get(f, Iss) == Some(Str(Get(f, Iss).value.s));
      }
    }
  }

  /** The time window, to the nanosecond: one second and the drift after `exp`, the drift
      before `nbf`. */
  lemma TimeWindow(fields: map<Field, Json>, options: ValidateOptions, clock: Clock, exp: int, nbf: int)
    requires Get(fields, Exp) == Some(Num(exp)) && Get(fields, Nbf) == Some(Num(nbf))
    requires I64_MIN <= exp <= I64_MAX && I64_MIN <= nbf <= I64_MAX
    ensures CheckExp(fields, options, clock.atExp) <==> clock.atExp < (exp + 1) * NANOS + options.drift
    ensures CheckNbf(fields, options, clock.atNbf) <==> clock.atNbf >= nbf * NANOS - options.drift
  {
  }

  // Which strings are tokens

  /** The string is three encoded parts, in order. */
  predicate HasParts(token: string, header: seq<Byte>, claims: seq<Byte>, signature: seq<Byte>) {
    token == EncodeUrl(header) + "." + EncodeUrl(claims) + "." + EncodeUrl(signature)
  }

  lemma PartsSplit(token: string, header: seq<Byte>, claims: seq<Byte>, signature: seq<Byte>)
    ensures HasParts(token, header, claims, signature) <==>
      && |Split(token)| == 3
      && DecodeUrl(Split(token)[0]) == Some(header) && DecodeUrl(Split(token)[1]) == Some(claims)
      && DecodeUrl(Split(token)[2]) == Some(signature)
  {
    EncodingHasNoDot(header);
    EncodingHasNoDot(claims);
    EncodingHasNoDot(signature);
    SplitThree(EncodeUrl(header), EncodeUrl(claims), EncodeUrl(signature));
    DecodesExactlyWhatItEncodes(EncodeUrl(header), header);
    DecodesExactlyWhatItEncodes(EncodeUrl(claims), claims);
    DecodesExactlyWhatItEncodes(EncodeUrl(signature), signature);
    if |Split(token)| == 3 {
      SplitLengths(token);
      DecodesExactlyWhatItEncodes(Split(token)[0], header);
      DecodesExactlyWhatItEncodes(Split(token)[1], claims);
      DecodesExactlyWhatItEncodes(Split(token)[2], signature);
    }
  }

  /** What these three parts are read as, if the key and the options accept them. */
  ghost predicate ReadsAs<C>(codec: Codec, key: Key, options: ValidateOptions, clock: Clock, from: Json -> Option<C>,
                             header: seq<Byte>, claims: seq<Byte>, signature: seq<Byte>, parsed: ParsedJwt<C>) {
    && |signature| <= 132 && key.verify(EncodeUrl(header) + "." + EncodeUrl(claims), signature)
    && codec.read(header).Some? && HeaderFromJson(codec.read(header).value) == Some(parsed.header)
    && parsed.header.alg == key.algorithm
    && codec.read(claims).Some? && CheckClaims(codec.read(claims).value, options, clock)
    && from(codec.read(claims).value) == Some(parsed.claims)
  }

  /** A string is accepted as these header and claims exactly when it consists of three encoded
      parts that are read as them, the third being a signature of the other two. */
  lemma AcceptedExactlyWhen<C>(codec: Codec, key: Key, token: string, options: ValidateOptions, clock: Clock,
                               from: Json -> Option<C>, parsed: ParsedJwt<C>)
    ensures ParseAndVerify(codec, key, token, options, clock, from) == Ok(parsed) <==>
      exists header, claims, signature :: HasParts(token, header, claims, signature)
        && ReadsAs(codec, key, options, clock, from, header, claims, signature, parsed)
  {
    hide CheckClaims, HeaderFromJson, Split, DecodeUrl, EncodeUrl, HasParts;
    if ParseAndVerify(codec, key, token, options, clock, from) == Ok(parsed) {
      SplitLengths(token);
      var p := Split(token);
      var header, claims, signature := DecodeUrl(p[0]).value, DecodeUrl(p[1]).value, DecodeUrl(p[2]).value;
      PartsSplit(token, header, claims, signature);
      DecodesExactlyWhatItEncodes(p[0], header);
      DecodesExactlyWhatItEncodes(p[1], claims);
      assert ReadsAs(codec, key, options, clock, from, header, claims, signature, parsed);
    }
    if header, claims, signature :|
      && HasParts(token, header, claims, signature)
      && ReadsAs(codec, key, options, clock, from, header, claims, signature, parsed)
    {
      PartsSplit(token, header, claims, signature);
      SplitLengths(token);
      DecodesExactlyWhatItEncodes(Split(token)[0], header);
      DecodesExactlyWhatItEncodes(Split(token)[1], claims);
    }
  }

  /** A header is read from a string of three dot-free parts exactly when the first encodes it. */
  lemma HeaderParsedExactlyWhen(codec: Codec, token: string, h: Header)
    ensures ParseHeader(codec, token) == Ok(h) <==>
      exists bytes, b, c ::
        && token == EncodeUrl(bytes) + "." + b + "." + c && '.' !in b && '.' !in c
        && codec.read(bytes).Some? && HeaderFromJson(codec.read(bytes).value) == Some(h)
  {
    hide HeaderFromJson, Split, DecodeUrl, EncodeUrl;
    if ParseHeader(codec, token) == Ok(h) {
      SplitLengths(token);
      JoinSplit(token);
      var p := Split(token);
      var bytes := DecodeUrl(p[0]).value;
      DecodesExactlyWhatItEncodes(p[0], bytes);
      assert p[1] in p && p[2] in p;
      assert token == EncodeUrl(bytes) + "." + p[1] + "." + p[2];
    }
    if bytes, b, c :|
      && token == EncodeUrl(bytes) + "." + b + "." + c && '.' !in b && '.' !in c
      && codec.read(bytes).Some? && HeaderFromJson(codec.read(bytes).value) == Some(h)
    {
      EncodingHasNoDot(bytes);
      SplitThree(EncodeUrl(bytes), b, c);
      DecodesExactlyWhatItEncodes(EncodeUrl(bytes), bytes);
    }
  }

  predicate HasPieces(token: string, a: string, b: string, c: string) {
    token == a + "." + b + "." + c && '.' !in a && '.' !in b && '.' !in c
  }

  ghost predicate SignedBy(key: Key, message: string, c: string) {
    exists signature :: c == EncodeUrl(signature) && |signature| <= 132 && key.verify(message, signature)
  }

  /** Why a string is refused: three pieces the last of which does not sign the others have a
      bad signature, anything else is a bad token. */
  lemma RefusedExactlyWhen<C>(codec: Codec, key: Key, token: string, options: ValidateOptions, clock: Clock,
                              from: Json -> Option<C>)
    ensures ParseAndVerify(codec, key, token, options, clock, from) == Err(InvalidSignature) <==>
      exists a, b, c :: HasPieces(token, a, b, c) && !SignedBy(key, a + "." + b, c)
    ensures var r := ParseAndVerify(codec, key, token, options, clock, from); r.Err? ==> r.error != SigningFailed
  {
    hide CheckClaims, ReadHeader, ReadPart, Split, DecodeUrl, HasPieces, SignedBy;
    forall a, b, c ensures HasPieces(token, a, b, c) <==> Split(token) == [a, b, c] {
      PiecesSplit(token, a, b, c);
    }
    if |Split(token)| == 3 {
      SplitLengths(token);
      var p := Split(token);
      assert p == [p[0], p[1], p[2]];
      SignatureReads(key, p[0] + "." + p[1], p[2]);
    }
  }

  lemma PiecesSplit(token: string, a: string, b: string, c: string)
    ensures HasPieces(token, a, b, c) <==> Split(token) == [a, b, c]
  {
    if HasPieces(token, a, b, c) {
      SplitThree(a, b, c);
    }
    if Split(token) == [a, b, c] {
      SplitLengths(token);
      JoinSplit(token);
      assert a in Split(token) && b in Split(token) && c in Split(token);
    }
  }

  lemma SignatureReads(key: Key, message: string, c: string)
    ensures SignedBy(key, message, c)
       <==> DecodeUrl(c).Some? && |DecodeUrl(c).value| <= 132 && key.verify(message, DecodeUrl(c).value)
  {
    forall signature ensures c == EncodeUrl(signature) <==> DecodeUrl(c) == Some(signature) {
      DecodesExactlyWhatItEncodes(c, signature);
    }
  }

  /** The members of a header, under the names of their algorithms. */
  lemma HeaderMembers(h: Header)
    ensures var fields := HeaderToJson(h).fields;
      && Get(fields, Typ) == Some(Str("JWT")) && Get(fields, Kid) == OptStr(h.kid)
      && Get(fields, Alg) == Some(Str(match h.alg
                                      case HS512 => "HS512" case EdDSA => "EdDSA"
                                      case ES256 => "ES256" case ES512 => "ES512"))
  {
    HeaderMember(h, Typ);
    HeaderMember(h, Kid);
    HeaderMember(h, Alg);
  }

  /** An optional text member: absent or null, or this text. */
  predicate HasText(fields: map<Field, Json>, f: Field, text: Option<string>) {
    if text.None? then f !in fields || fields[f] == Null else f in fields && fields[f] == Str(text.value)
  }

  /** A record is read as a header exactly when it says so, member by member. */
  lemma HeaderReadExactlyWhen(j: Json, h: Header)
    ensures HeaderFromJson(j) == Some(h) <==>
      && j.Obj? && Typ in j.fields && j.fields[Typ] == Str("JWT") && Alg in j.fields
      && j.fields[Alg] == Str(match h.alg
                              case HS512 => "HS512" case EdDSA => "EdDSA" case ES256 => "ES256" case ES512 => "ES512")
      && HasText(j.fields, Cty, h.cty) && HasText(j.fields, Jku, h.jku) && HasText(j.fields, Kid, h.kid)
      && HasText(j.fields, X5u, h.x5u) && HasText(j.fields, X5t, h.x5t) && HasText(j.fields, X5tS256, h.x5tS256)
  {
    if j.Obj? {
      TextRead(j.fields, Cty, h.cty);
      TextRead(j.fields, Jku, h.jku);
      TextRead(j.fields, Kid, h.kid);
      TextRead(j.fields, X5u, h.x5u);
      TextRead(j.fields, X5t, h.x5t);
      TextRead(j.fields, X5tS256, h.x5tS256);
      hide ReadStr, HasText;
    }
  }

  lemma TextRead(fields: map<Field, Json>, f: Field, text: Option<string>)
    ensures ReadStr(fields, f) == Some(text) <==> HasText(fields, f, text)
  {
  }
}
