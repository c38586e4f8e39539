/** Which `If-None-Match` headers match the tag of a file: an exact description, for every
    header a client may send. */
module ETagLaw {
  import opened ETag
  import H = Hex

  predicate Blanks(s: string) { forall i :: 0 <= i < |s| ==> s[i] == ' ' || '\t' <= s[i] <= '\r' }

  predicate Quotes(s: string) { forall i :: 0 <= i < |s| ==> s[i] == '"' }

  predicate Weak(s: string) { s == "" || (|s| >= 2 && s[0] == 'W' && s[1] == '/' && Weak(s[2..])) }

  /** Between blanks, weakness marks and quotes, the header is this text. */
  ghost predicate Names(header: string, text: string) {
    exists b1, w, q1, q2, b2 ::
      && Blanks(b1) && Weak(w) && Quotes(q1) && Quotes(q2) && Blanks(b2)
      && header == b1 + (w + (q1 + text + q2)) + b2
  }

  /** What is hashed into the tag: path, size and time, the numbers little-endian. */
  function HashOf(digest: seq<Byte> -> seq<Byte>, path: Path, size: nat, modifiedAt: nat): string {
    H.Encode(digest(path + LittleEndian(size, 8) + LittleEndian(modifiedAt, 16)))
  }

  /** The tag is the hash in quotes, and a header matches it exactly when it names the hash. */
  lemma MatchesExactlyWhen(digest: seq<Byte> -> seq<Byte>, path: Path, size: nat, modifiedAt: nat, header: string)
    ensures var hash := HashOf(digest, path, size, modifiedAt);
            var etag := EntityTag(digest, path, size, modifiedAt);
            etag == "\"" + hash + "\"" && (Matches(etag, header) <==> Names(header, hash))
  {
    var hash := HashOf(digest, path, size, modifiedAt);
    EncodePlain(digest(Preimage(path, size, modifiedAt)));
    UnquoteQuoted(hash);
    if Opaque(header) == hash {
      OpaqueIsNamed(header);
    }
    if Names(header, hash) {
      NamedIsOpaque(header, hash);
    }
  }

  /** A quoted text without quotes, strong or weak, matches exactly when it is the hash. */
  lemma QuotedMatchesExactlyWhen(digest: seq<Byte> -> seq<Byte>, path: Path, size: nat, modifiedAt: nat, x: string)
    requires '"' !in x
    ensures var etag := EntityTag(digest, path, size, modifiedAt);
            var hash := HashOf(digest, path, size, modifiedAt);
      && (Matches(etag, "\"" + x + "\"") <==> x == hash)
      && (Matches(etag, "W/\"" + x + "\"") <==> x == hash)
  {
    EncodePlain(digest(Preimage(path, size, modifiedAt)));
    UnquoteQuoted(HashOf(digest, path, size, modifiedAt));
    OpaqueOfQuoted(x);
  }

  /** The number of these bytes, the lowest first. */
  function FromLittleEndian(s: seq<Byte>): nat {
    if s == [] then 0
    else
      var low: nat := s[0];
      low + 256 * FromLittleEndian(s[1..])
  }

  lemma {:induction false} LittleEndianReads(n: nat, width: nat)
    requires n < Pow256(width)
    ensures FromLittleEndian(LittleEndian(n, width)) == n
  {
    if width > 0 {
      LittleEndianReads(n / 256, width - 1);
      assert LittleEndian(n, width)[1..] == LittleEndian(n / 256, width - 1);
    }
  }

  // From the header to its text

  /** What the four trimmings take off, in the order they do. */
  lemma OpaqueIsNamed(header: string)
    ensures Names(header, Opaque(header))
  {
    hide TrimStart, TrimEnd, DropWeak, DropQuotesStart, DropQuotesEnd, Weak;
    var b1 := BlanksTaken(header);
    var b2 := BlanksTakenFromEnd(TrimStart(header));
    var w := WeakTaken(TrimEnd(TrimStart(header)));
    var core := DropWeak(TrimEnd(TrimStart(header)));
    var q1 := QuotesTaken(core);
    var q2 := QuotesTakenFromEnd(DropQuotesStart(core));
    assert core == q1 + Opaque(header) + q2;
    assert header == b1 + (w + (q1 + Opaque(header) + q2)) + b2;
  }

  lemma {:induction false} BlanksTaken(s: string) returns (b: string)
    ensures Blanks(b) && s == b + TrimStart(s)
  {
    b := "";
    if s != "" && Blank(s[0]) {
      var rest := BlanksTaken(s[1..]);
      b := [s[0]] + rest;
    }
  }

  lemma {:induction false} BlanksTakenFromEnd(s: string) returns (b: string)
    ensures Blanks(b) && s == TrimEnd(s) + b
  {
    b := "";
    if s != "" && Blank(s[|s| - 1]) {
      var rest := BlanksTakenFromEnd(s[..|s| - 1]);
      b := rest + [s[|s| - 1]];
    }
  }

  lemma {:induction false} WeakTaken(s: string) returns (w: string)
    ensures Weak(w) && s == w + DropWeak(s)
  {
    w := "";
    if |s| >= 2 && s[..2] == "W/" {
      var rest := WeakTaken(s[2..]);
      w := "W/" + rest;
      assert w[2..] == rest && s == s[..2] + s[2..];
    }
  }

  lemma {:induction false} QuotesTaken(s: string) returns (q: string)
    ensures Quotes(q) && s == q + DropQuotesStart(s)
  {
    q := "";
    if s != "" && s[0] == '"' {
      var rest := QuotesTaken(s[1..]);
      q := [s[0]] + rest;
    }
  }

  lemma {:induction false} QuotesTakenFromEnd(s: string) returns (q: string)
    ensures Quotes(q) && s == DropQuotesEnd(s) + q
  {
    q := "";
    if s != "" && s[|s| - 1] == '"' {
      var rest := QuotesTakenFromEnd(s[..|s| - 1]);
      q := rest + [s[|s| - 1]];
    }
  }

  // From the text to the header

  lemma NamedIsOpaque(header: string, h: string)
    requires Plain(h) && Names(header, h)
    ensures Opaque(header) == h
  {
    var b1, w, q1, q2, b2 :|
      && Blanks(b1) && Weak(w) && Quotes(q1) && Quotes(q2) && Blanks(b2)
      && header == b1 + (w + (q1 + h + q2)) + b2;
    var quoted := q1 + h + q2;
    var core := w + quoted;
    Trimmed(b1, core, b2, w, q1, h, q2);
    WeakDropped(w, quoted);
    QuotesDropped(q1, h + q2);
    assert quoted == q1 + (h + q2);
    QuotesDropped(q2, "");
    assert q2 + "" == q2;
    QuotesDroppedFromEnd(h, q2);
    StartIs(q1, h, q2);
  }

  /** The first character that is no blank, and no part of a weakness mark. */
  lemma StartIs(q1: string, h: string, q2: string)
    requires Quotes(q1) && Plain(h) && Quotes(q2)
    ensures DropWeak(q1 + h + q2) == q1 + h + q2
    ensures h != "" ==> DropQuotesStart(h + q2) == h + q2 && DropQuotesEnd(h) == h
    ensures h == "" ==> h + q2 == q2
  {
    var s := q1 + h + q2;
    if |s| >= 2 {
      assert s[0] == if q1 != "" then q1[0] else if h != "" then h[0] else q2[0];
      assert h != "" ==> PlainChar(h[0]);
      assert s[..2][0] == s[0] && s[0] != 'W';
    }
    assert h != "" ==> PlainChar(h[0]) && PlainChar(h[|h| - 1]);
  }

  lemma Trimmed(b1: string, core: string, b2: string, w: string, q1: string, h: string, q2: string)
    requires Blanks(b1) && Blanks(b2) && core == w + (q1 + h + q2)
    requires Weak(w) && Quotes(q1) && Plain(h) && Quotes(q2)
    ensures TrimEnd(TrimStart(b1 + core + b2)) == core
  {
    assert b1 + core + b2 == b1 + (core + b2);
    BlanksDropped(b1, core + b2);
    if core == "" {
      assert core + b2 == b2 + "";
      BlanksDropped(b2, "");
    } else {
      Ends(w, q1 + h + q2);
      assert forall c :: c in h ==> PlainChar(c);
      assert forall c :: c in q1 + h + q2 ==> c in q1 || c in h || c in q2;
      assert forall c :: c in q1 + h + q2 ==> !Blank(c);
      BlanksDroppedFromEnd(core, b2);
    }
  }

  /** Neither end of what is between the blanks is a blank. */
  lemma Ends(w: string, rest: string)
    requires Weak(w) && w + rest != "" && forall c :: c in rest ==> !Blank(c)
    ensures !Blank((w + rest)[0]) && !Blank((w + rest)[|w + rest| - 1])
  {
    WeakEnds(w);
    assert rest != "" ==> rest[0] in rest && rest[|rest| - 1] in rest;
  }

  lemma {:induction false} WeakEnds(w: string)
    requires Weak(w)
    ensures w != "" ==> w[0] == 'W' && w[|w| - 1] == '/'
  {
    if w != "" {
      WeakEnds(w[2..]);
    }
  }

  lemma {:induction false} BlanksDropped(b: string, s: string)
    requires Blanks(b)
    ensures TrimStart(b + s) == TrimStart(s)
  {
    if b == "" {
      assert b + s == s;
    } else {
      assert (b + s)[1..] == b[1..] + s;
      BlanksDropped(b[1..], s);
    }
  }

  lemma {:induction false} BlanksDroppedFromEnd(s: string, b: string)
    requires Blanks(b)
    ensures TrimEnd(s + b) == TrimEnd(s)
  {
    if b == "" {
      assert s + b == s;
    } else {
      var n := |b| - 1;
      assert (s + b)[..|s + b| - 1] == s + b[..n];
      BlanksDroppedFromEnd(s, b[..n]);
    }
  }

  lemma {:induction false} WeakDropped(w: string, s: string)
    requires Weak(w)
    ensures DropWeak(w + s) == DropWeak(s)
  {
    if w == "" {
      assert w + s == s;
    } else {
      assert (w + s)[..2] == "W/" && (w + s)[2..] == w[2..] + s;
      WeakDropped(w[2..], s);
    }
  }

  lemma {:induction false} QuotesDropped(q: string, s: string)
    requires Quotes(q)
    ensures DropQuotesStart(q + s) == DropQuotesStart(s)
  {
    if q == "" {
      assert q + s == s;
    } else {
      assert (q + s)[1..] == q[1..] + s;
      QuotesDropped(q[1..], s);
    }
  }

  lemma {:induction false} QuotesDroppedFromEnd(s: string, q: string)
    requires Quotes(q)
    ensures DropQuotesEnd(s + q) == DropQuotesEnd(s)
  {
    if q == "" {
      assert s + q == s;
    } else {
      var n := |q| - 1;
      assert (s + q)[..|s + q| - 1] == s + q[..n];
      QuotesDroppedFromEnd(s, q[..n]);
    }
  }
}
