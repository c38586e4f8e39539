/** Entity tags of the static site service (pingoo/services/http_static_site_service.rs,
    lines 147-169) and their comparison with `If-None-Match`. */
module ETag {
  import H = Hex

  type Byte = H.Byte

  /** A path is the sequence of its bytes. */
  type Path = seq<Byte>

  /** Little-endian, in `width` bytes. */
  function LittleEndian(n: nat, width: nat): (s: seq<Byte>)
    ensures |s| == width
  {
    if width == 0 then [] else [n % 256] + LittleEndian(n / 256, width - 1)
  }

  function Preimage(path: Path, size: nat, modifiedAt: nat): seq<Byte> {
    path + LittleEndian(size, 8) + LittleEndian(modifiedAt, 16)
  }

  function EntityTag(digest: seq<Byte> -> seq<Byte>, path: Path, size: nat, modifiedAt: nat): string {
    "\"" + H.Encode(digest(Preimage(path, size, modifiedAt))) + "\""
  }

  predicate Blank(c: char) { c == ' ' || ('\t' <= c <= '\r') }

  function TrimStart(s: string): string { if s != "" && Blank(s[0]) then TrimStart(s[1..]) else s }

  function TrimEnd(s: string): string { if s != "" && Blank(s[|s| - 1]) then TrimEnd(s[..|s| - 1]) else s }

  function DropWeak(s: string): string { if |s| >= 2 && s[..2] == "W/" then DropWeak(s[2..]) else s }

  function DropQuotesStart(s: string): string { if s != "" && s[0] == '"' then DropQuotesStart(s[1..]) else s }

  function DropQuotesEnd(s: string): string { if s != "" && s[|s| - 1] == '"' then DropQuotesEnd(s[..|s| - 1]) else s }

  function Unquote(s: string): string { DropQuotesEnd(DropQuotesStart(s)) }

  /** The opaque part of a tag as a client sends it. */
  function Opaque(header: string): string { Unquote(DropWeak(TrimEnd(TrimStart(header)))) }

  predicate Matches(etag: string, header: string) { Unquote(etag) == Opaque(header) }

  function Pow256(k: nat): nat { if k == 0 then 1 else 256 * Pow256(k - 1) }

  lemma {:induction false} LittleEndianInjective(a: nat, b: nat, width: nat)
    requires a < Pow256(width) && b < Pow256(width) && LittleEndian(a, width) == LittleEndian(b, width)
    ensures a == b
  {
    if width > 0 {
      var la, lb := LittleEndian(a, width), LittleEndian(b, width);
      assert la[0] == lb[0] && la[1..] == lb[1..];
      LittleEndianInjective(a / 256, b / 256, width - 1);
    }
  }

  lemma PreimageInjective(p: Path, size: nat, m: nat, p': Path, size': nat, m': nat)
    requires size < Pow256(8) && size' < Pow256(8) && m < Pow256(16) && m' < Pow256(16)
    requires Preimage(p, size, m) == Preimage(p', size', m')
    ensures p == p' && size == size' && m == m'
  {
    var x, x' := Preimage(p, size, m), Preimage(p', size', m');
    assert x[..|p|] == p && x[|p|..|p| + 8] == LittleEndian(size, 8) && x[|p| + 8..] == LittleEndian(m, 16);
    assert x'[..|p'|] == p' && x'[|p'|..|p'| + 8] == LittleEndian(size', 8) && x'[|p'| + 8..] == LittleEndian(m', 16);
    LittleEndianInjective(size, size', 8);
    LittleEndianInjective(m, m', 16);
  }

  /** The digest tells these two apart, if they differ. */
  predicate TellsApart(digest: seq<Byte> -> seq<Byte>, a: seq<Byte>, b: seq<Byte>) { digest(a) == digest(b) ==> a == b }

  predicate PlainChar(c: char) { '0' <= c <= '9' || 'a' <= c <= 'f' }

  predicate Plain(s: string) { forall c :: c in s ==> PlainChar(c) }

  lemma {:induction false} EncodePlain(data: seq<Byte>)
    ensures Plain(H.Encode(data)) && '"' !in H.Encode(data)
  {
    if data != [] {
      EncodePlain(data[1..]);
      assert forall n: H.Nibble :: PlainChar(H.Digit(n));
    }
  }

  lemma UnquoteQuoted(h: string)
    requires '"' !in h
    ensures Unquote("\"" + h + "\"") == h
  {
    var q := "\"" + h + "\"";
    assert q[1..] == h + "\"";
    assert DropQuotesStart(q) == DropQuotesStart(q[1..]);
    if h == "" {
      assert DropQuotesStart(q[1..]) == DropQuotesStart(q[1..][1..]) == "";
    } else {
      assert h[0] in h && h[|h| - 1] in h;
      assert DropQuotesStart(q[1..]) == q[1..];
      assert q[1..][..|h|] == h;
      assert DropQuotesEnd(h) == h;
    }
  }

  /** A tag is recognised as it was sent, strong or weak. */
  lemma OpaqueOfQuoted(h: string)
    requires '"' !in h
    ensures Opaque("\"" + h + "\"") == h && Opaque("W/\"" + h + "\"") == h
  {
    var q := "\"" + h + "\"";
    var w := "W/\"" + h + "\"";
    assert w[2..] == q && w[..2] == "W/";
    assert DropWeak(q) == q by { assert q[..2][0] == '"'; }
    UnquoteQuoted(h);
  }

  /** A tag that matches one a client was given, strong or weak, is of the same version of
      the same file. */
  lemma WeakTagSameVersion(digest: seq<Byte> -> seq<Byte>, p: Path, size: nat, m: nat, p': Path, size': nat, m': nat,
                           header: string)
    requires TellsApart(digest, Preimage(p, size, m), Preimage(p', size', m'))
    requires size < Pow256(8) && size' < Pow256(8) && m < Pow256(16) && m' < Pow256(16)
    requires header in {EntityTag(digest, p', size', m'), "W/" + EntityTag(digest, p', size', m')}
    requires Matches(EntityTag(digest, p, size, m), header)
    ensures p == p' && size == size' && m == m'
  {
    hide LittleEndian, Preimage, Unquote, Opaque, Plain, H.Encode;
    var d, d' := digest(Preimage(p, size, m)), digest(Preimage(p', size', m'));
    EncodePlain(d);
    EncodePlain(d');
    UnquoteQuoted(H.Encode(d));
    OpaqueOfQuoted(H.Encode(d'));
    assert "W/" + ("\"" + H.Encode(d') + "\"") == "W/\"" + H.Encode(d') + "\"";
    H.EncodeInjective(d, d');
    PreimageInjective(p, size, m, p', size', m');
  }
}
