/** pingoo/captcha.rs, lines 408-421: the identity a captcha token is bound to. */
module ClientId {
  import opened Hex
  import opened Base64Url
  import opened ETag

  type Octets4 = s: seq<Byte> | |s| == 4 witness [0, 0, 0, 0]
  type Octets16 = s: seq<Byte> | |s| == 16 witness [0, 0, 0, 0, 0, 0, 0, 0, 0, 0, 0, 0, 0, 0, 0, 0]

  datatype Address = V4(v4: Octets4) | V6(v6: Octets16)

  /** Who comes to which site. */
  datatype Visitor = Visitor(address: Address, userAgent: seq<Byte>, host: seq<Byte>)

  function Octets(a: Address): seq<Byte> { if a.V4? then a.v4 else a.v6 }

  /** What is hashed: nothing stands between the three parts. */
  function Material(v: Visitor): seq<Byte> { Octets(v.address) + v.userAgent + v.host }

  /** The rest of the 44 bytes of the buffer stays zero. */
  function Padded(s: string): string {
    if |s| < 44 then s + seq(44 - |s|, _ => 0 as char) else s
  }

  function GenerateCaptchaClientId(digest: seq<Byte> -> seq<Byte>, v: Visitor): string {
    Padded(EncodeUrl(digest(Material(v))))
  }

  /** An identity keeps the whole digest: encoding and padding lose nothing. */
  lemma SameIdSameDigest(digest: seq<Byte> -> seq<Byte>, v: Visitor, v': Visitor)
    ensures GenerateCaptchaClientId(digest, v) == GenerateCaptchaClientId(digest, v')
       <==> digest(Material(v)) == digest(Material(v'))
  {
    var d, d' := digest(Material(v)), digest(Material(v'));
    var s, s' := EncodeUrl(d), EncodeUrl(d');
    EncodingHasNoNul(d);
    EncodingHasNoNul(d');
    if Padded(s) == Padded(s') {
      PaddedEnds(s);
      PaddedEnds(s');
      assert s == Padded(s)[..|s|] == Padded(s')[..|s|] == s';
      DecodesExactlyWhatItEncodes(s, d);
      DecodesExactlyWhatItEncodes(s', d');
    }
  }

  function FirstNul(t: string): nat { if t == "" || t[0] == 0 as char then 0 else 1 + FirstNul(t[1..]) }

  /** The padding shows where the encoding ends. */
  lemma {:induction false} PaddingShows(s: string, n: nat)
    requires forall c :: c in s ==> c != 0 as char
    ensures FirstNul(s + seq(n, _ => 0 as char)) == |s|
  {
    var pad := seq(n, _ => 0 as char);
    if s == "" {
      assert s + pad == pad;
    } else {
      assert forall c :: c in s[1..] ==> c in s;
      PaddingShows(s[1..], n);
      assert s[0] in s && (s + pad)[1..] == s[1..] + pad;
    }
  }

  lemma PaddedEnds(s: string)
    requires forall c :: c in s ==> c != 0 as char
    ensures FirstNul(Padded(s)) == |s|
  {
    PaddingShows(s, if |s| < 44 then 44 - |s| else 0);
    assert s + [] == s;
  }

  /** It has 44 characters: the 43 of a 32-byte digest and one that is zero. */
  lemma IdIs(digest: seq<Byte> -> seq<Byte>, v: Visitor)
    requires |digest(Material(v))| == 32
    ensures GenerateCaptchaClientId(digest, v) == EncodeUrl(digest(Material(v))) + [0 as char]
    ensures |GenerateCaptchaClientId(digest, v)| == 44
  {
    EncodedLength(digest(Material(v)));
  }

  lemma {:induction false} EncodedLength(d: seq<Byte>)
    ensures |EncodeUrl(d)| == (4 * |d| + 2) / 3
  {
    if |d| > 2 {
      EncodedLength(d[3..]);
    }
  }

  /** Two visitors whose materials the digest tells apart have one identity exactly when their
      parts run together to the same bytes. */
  lemma SameIdExactlyWhen(digest: seq<Byte> -> seq<Byte>, v: Visitor, v': Visitor)
    requires TellsApart(digest, Material(v), Material(v'))
    ensures GenerateCaptchaClientId(digest, v) == GenerateCaptchaClientId(digest, v') <==> Material(v) == Material(v')
  {
    SameIdSameDigest(digest, v, v');
  }

  /** The address agrees, and so do user agent and host run together. */
  predicate Alike(v: Visitor, v': Visitor) {
    v.address == v'.address && v.userAgent + v.host == v'.userAgent + v'.host
  }

  lemma AlikeExactlyWhen(v: Visitor, v': Visitor)
    requires v.address.V4? <==> v'.address.V4?
    ensures Alike(v, v') <==> Material(v) == Material(v')
  {
    var n := |Octets(v.address)|;
    var m, m' := Material(v), Material(v');
    assert m[..n] == Octets(v.address) && m[n..] == v.userAgent + v.host;
    assert m'[..n] == Octets(v'.address) && m'[n..] == v'.userAgent + v'.host;
    assert m == Octets(v.address) + (v.userAgent + v.host) && m' == Octets(v'.address) + (v'.userAgent + v'.host);
  }

  lemma SameFamilySameIdExactlyWhen(digest: seq<Byte> -> seq<Byte>, v: Visitor, v': Visitor)
    requires TellsApart(digest, Material(v), Material(v')) && (v.address.V4? <==> v'.address.V4?)
    ensures GenerateCaptchaClientId(digest, v) == GenerateCaptchaClientId(digest, v') <==> Alike(v, v')
  {
    SameIdExactlyWhen(digest, v, v');
    AlikeExactlyWhen(v, v');
  }

  /** So one browser at one address has a different identity at every site. */
  lemma OneBrowserOneSite(digest: seq<Byte> -> seq<Byte>, v: Visitor, host: seq<Byte>)
    requires TellsApart(digest, Material(v), Material(v.(host := host)))
    ensures GenerateCaptchaClientId(digest, v) == GenerateCaptchaClientId(digest, v.(host := host)) <==> v.host == host
  {
    SameFamilySameIdExactlyWhen(digest, v, v.(host := host));
    assert (v.userAgent + v.host)[|v.userAgent|..] == v.host && (v.userAgent + host)[|v.userAgent|..] == host;
  }

  /** ... but a user agent that takes over the beginning of a host keeps its identity. */
  lemma OneIdTwoSites(digest: seq<Byte> -> seq<Byte>, a: Address, userAgent: seq<Byte>, prefix: seq<Byte>,
                      host: seq<Byte>)
    ensures GenerateCaptchaClientId(digest, Visitor(a, userAgent, prefix + host))
         == GenerateCaptchaClientId(digest, Visitor(a, userAgent + prefix, host))
  {
    assert Material(Visitor(a, userAgent, prefix + host)) == Material(Visitor(a, userAgent + prefix, host));
  }
}
