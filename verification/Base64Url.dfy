/** base64url without padding: section 5 of RFC 4648, read strictly.  A character outside
    the alphabet, a lone last character and non-zero spare bits are all refused. */
module Base64Url {
  import opened Wrappers
  import opened Hex

  type Sextet = x: nat | x < 64

  function Char(v: Sextet): char {
    if v < 26 then ('A' as int + v) as char
    else if v < 52 then ('a' as int + v - 26) as char
    else if v < 62 then ('0' as int + v - 52) as char
    else if v == 62 then '-' else '_'
  }

  function SextetOf(c: char): Option<Sextet> {
    if 'A' <= c <= 'Z' then Some(c as nat - 'A' as nat)
    else if 'a' <= c <= 'z' then Some(c as nat - 'a' as nat + 26)
    else if '0' <= c <= '9' then Some(c as nat - '0' as nat + 52)
    else if c == '-' then Some(62)
    else if c == '_' then Some(63)
    else None
  }

  function First(a: Byte): Sextet { a / 4 }
  function Second(a: Byte, b: Byte): Sextet { var x: nat := a; x % 4 * 16 + b / 16 }
  function Third(b: Byte, c: Byte): Sextet { var x: nat := b; x % 16 * 4 + c / 64 }
  function Fourth(c: Byte): Sextet { c % 64 }

  function Byte1(v: Sextet, w: Sextet): Byte { var x: nat := v; x * 4 + w / 16 }
  function Byte2(w: Sextet, x: Sextet): Byte { var y: nat := w; y % 16 * 16 + x / 4 }
  function Byte3(x: Sextet, y: Sextet): Byte { var z: nat := x; z % 4 * 64 + y }

  function EncodeUrl(d: seq<Byte>): (s: string) {
    if |d| == 0 then ""
    else if |d| == 1 then [Char(First(d[0])), Char(Second(d[0], 0))]
    else if |d| == 2 then [Char(First(d[0])), Char(Second(d[0], d[1])), Char(Third(d[1], 0))]
    else [Char(First(d[0])), Char(Second(d[0], d[1])), Char(Third(d[1], d[2])), Char(Fourth(d[2]))] + EncodeUrl(d[3..])
  }

  /** The sextets of a string, if it is one of this alphabet. */
  function Sextets(s: string): Option<seq<Sextet>> {
    if s == "" then Some([])
    else
      var v, rest := SextetOf(s[0]), Sextets(s[1..]);
      if v.Some? && rest.Some? then Some([v.value] + rest.value) else None
  }

  function Pack(v: seq<Sextet>): Option<seq<Byte>> {
    if |v| == 0 then Some([])
    else if |v| == 1 then None
    else if |v| == 2 then if v[1] % 16 == 0 then Some([Byte1(v[0], v[1])]) else None
    else if |v| == 3 then if v[2] % 4 == 0 then Some([Byte1(v[0], v[1]), Byte2(v[1], v[2])]) else None
    else
      var rest := Pack(v[4..]);
      if rest.Some? then Some([Byte1(v[0], v[1]), Byte2(v[1], v[2]), Byte3(v[2], v[3])] + rest.value) else None
  }

  function DecodeUrl(s: string): Option<seq<Byte>> {
    var v := Sextets(s);
    if v.Some? then Pack(v.value) else None
  }

  function Unpack(d: seq<Byte>): (v: seq<Sextet>) {
    if |d| == 0 then []
    else if |d| == 1 then [First(d[0]), Second(d[0], 0)]
    else if |d| == 2 then [First(d[0]), Second(d[0], d[1]), Third(d[1], 0)]
    else [First(d[0]), Second(d[0], d[1]), Third(d[1], d[2]), Fourth(d[2])] + Unpack(d[3..])
  }

  function Chars(v: seq<Sextet>): (s: string)
    ensures |s| == |v|
  {
    seq(|v|, i requires 0 <= i < |v| => Char(v[i]))
  }

  lemma BytesOfSextets(a: Byte, b: Byte, c: Byte)
    ensures Byte1(First(a), Second(a, b)) == a && Byte2(Second(a, b), Third(b, c)) == b
            && Byte3(Third(b, c), Fourth(c)) == c
  {
  }

  lemma SextetsOfBytes(v: Sextet, w: Sextet, x: Sextet, y: Sextet)
    ensures var (a, b, c) := (Byte1(v, w), Byte2(w, x), Byte3(x, y));
            First(a) == v && Second(a, b) == w && Third(b, c) == x && Fourth(c) == y
  {
  }

  lemma SpareBitsAreZero(a: Byte)
    ensures Second(a, 0) % 16 == 0 && Third(a, 0) % 4 == 0
  {
  }

  lemma {:induction false} PackUnpack(d: seq<Byte>)
    ensures Pack(Unpack(d)) == Some(d)
  {
    hide First, Second, Third, Fourth, Byte1, Byte2, Byte3;
    if |d| == 1 {
      BytesOfSextets(d[0], 0, 0);
      SpareBitsAreZero(d[0]);
      assert [d[0]] == d;
    } else if |d| == 2 {
      BytesOfSextets(d[0], d[1], 0);
      SpareBitsAreZero(d[1]);
      assert [d[0], d[1]] == d;
    } else if |d| > 2 {
      PackUnpack(d[3..]);
      PackUnpackGroup(d[0], d[1], d[2], d[3..]);
      assert d == [d[0], d[1], d[2]] + d[3..];
    }
  }

  lemma PackUnpackGroup(a: Byte, b: Byte, c: Byte, rest: seq<Byte>)
    requires Pack(Unpack(rest)) == Some(rest)
    ensures Pack(Unpack([a, b, c] + rest)) == Some([a, b, c] + rest)
  {
    hide First, Second, Third, Fourth, Byte1, Byte2, Byte3;
    BytesOfSextets(a, b, c);
    assert ([a, b, c] + rest)[3..] == rest;
    PackGroup(First(a), Second(a, b), Third(b, c), Fourth(c), Unpack(rest));
  }

  lemma PackGroup(v: Sextet, w: Sextet, x: Sextet, y: Sextet, rest: seq<Sextet>)
    requires Pack(rest).Some?
    ensures Pack([v, w, x, y] + rest) == Some([Byte1(v, w), Byte2(w, x), Byte3(x, y)] + Pack(rest).value)
  {
    hide Byte1, Byte2, Byte3;
    var all := [v, w, x, y] + rest;
    assert all[4..] == rest;
  }

  lemma {:induction false} UnpackPack(v: seq<Sextet>)
    requires Pack(v).Some?
    ensures Unpack(Pack(v).value) == v
  {
    if |v| == 2 {
      SextetsOfBytes(v[0], v[1], 0, 0);
    } else if |v| == 3 {
      SextetsOfBytes(v[0], v[1], v[2], 0);
    } else if |v| > 3 {
      var rest := Pack(v[4..]).value;
      UnpackPack(v[4..]);
      SextetsOfBytes(v[0], v[1], v[2], v[3]);
      assert Pack(v).value[3..] == rest;
    }
  }

  lemma {:induction false} CharsOfUnpack(d: seq<Byte>)
    ensures Chars(Unpack(d)) == EncodeUrl(d)
  {
    hide First, Second, Third, Fourth, Char;
    if |d| > 2 {
      CharsOfUnpack(d[3..]);
      var head := [First(d[0]), Second(d[0], d[1]), Third(d[1], d[2]), Fourth(d[2])];
      assert Chars(head + Unpack(d[3..])) == Chars(head) + Chars(Unpack(d[3..]));
    }
  }

  lemma SextetOfChar(v: Sextet)
    ensures SextetOf(Char(v)) == Some(v) && Char(v) != '.'
  {
  }

  lemma CharOfSextet(c: char)
    requires SextetOf(c).Some?
    ensures Char(SextetOf(c).value) == c
  {
  }

  lemma {:induction false} SextetsOfChars(v: seq<Sextet>)
    ensures Sextets(Chars(v)) == Some(v) && '.' !in Chars(v)
  {
    if v != [] {
      SextetsOfChars(v[1..]);
      SextetOfChar(v[0]);
      assert Chars(v)[1..] == Chars(v[1..]);
      assert Chars(v) == [Char(v[0])] + Chars(v[1..]) && [v[0]] + v[1..] == v;
    }
  }

  lemma {:induction false} CharsOfSextets(s: string)
    requires Sextets(s).Some?
    ensures Chars(Sextets(s).value) == s
  {
    if s != "" {
      CharsOfSextets(s[1..]);
      CharOfSextet(s[0]);
      assert Sextets(s).value[1..] == Sextets(s[1..]).value;
      assert Chars(Sextets(s).value) == [s[0]] + Chars(Sextets(s[1..]).value);
    }
  }

  /** Every string has at most one reading, every byte string exactly one writing, and the
      two are inverse. */
  lemma DecodesExactlyWhatItEncodes(s: string, d: seq<Byte>)
    ensures DecodeUrl(s) == Some(d) <==> s == EncodeUrl(d)
  {
    CharsOfUnpack(d);
    SextetsOfChars(Unpack(d));
    PackUnpack(d);
    if DecodeUrl(s) == Some(d) {
      CharsOfSextets(s);
      UnpackPack(Sextets(s).value);
    }
  }

  lemma EncodingHasNoNul(d: seq<Byte>)
    ensures forall c :: c in EncodeUrl(d) ==> c != 0 as char
  {
    CharsOfUnpack(d);
    assert forall v: Sextet :: Char(v) != 0 as char;
  }

  lemma EncodingHasNoDot(d: seq<Byte>)
    ensures '.' !in EncodeUrl(d)
  {
    CharsOfUnpack(d);
    SextetsOfChars(Unpack(d));
  }

  // The alphabet and the bits (section 5 of RFC 4648)

  const UPPER: string := "ABCDEFGHIJKLM" + "NOPQRSTUVWXYZ"
  const LOWER: string := "abcdefghijklm" + "nopqrstuvwxyz"
  const ALPHABET: string := UPPER + LOWER + "0123456789-_"

  lemma UpperIs(i: nat)
    requires i < 26
    ensures |UPPER| == 26 && UPPER[i] == ('A' as int + i) as char
  {
    if i < 13 {
      assert UPPER[i] == "ABCDEFGHIJKLM"[i];
    } else {
      assert UPPER[i] == "NOPQRSTUVWXYZ"[i - 13];
    }
  }

  lemma LowerIs(i: nat)
    requires i < 26
    ensures |LOWER| == 26 && LOWER[i] == ('a' as int + i) as char
  {
    if i < 13 {
      assert LOWER[i] == "abcdefghijklm"[i];
    } else {
      assert LOWER[i] == "nopqrstuvwxyz"[i - 13];
    }
  }

  lemma DigitIs(i: nat)
    requires i < 10
    ensures "0123456789-_"[i] == ('0' as int + i) as char
  {
  }

  lemma CharIs(v: Sextet)
    ensures |ALPHABET| == 64 && Char(v) == ALPHABET[v]
  {
    hide UPPER, LOWER;
    UpperIs(if v < 26 then v else 0);
    LowerIs(if 26 <= v < 52 then v - 26 else 0);
    DigitIs(if 52 <= v < 62 then v - 52 else 0);
  }

  function Number(a: Byte, b: Byte, c: Byte): (n: nat)
    ensures n < 16777216
  {
    var x: nat, y: nat, z: nat := a, b, c;
    x * 65536 + y * 256 + z
  }

  /** Three bytes are written as the four base-64 digits of their number. */
  lemma GroupDigits(d: seq<Byte>)
    requires |d| >= 3
    ensures var n := Number(d[0], d[1], d[2]);
            EncodeUrl(d) == [ALPHABET[n / 262144], ALPHABET[n / 4096 % 64], ALPHABET[n / 64 % 64], ALPHABET[n % 64]]
                            + EncodeUrl(d[3..])
  {
    hide Number, Char, First, Second, Third, Fourth;
    GroupNumber(d[0], d[1], d[2]);
    CharIs(First(d[0]));
    CharIs(Second(d[0], d[1]));
    CharIs(Third(d[1], d[2]));
    CharIs(Fourth(d[2]));
  }

  lemma GroupNumber(a: Byte, b: Byte, c: Byte)
    ensures var n := Number(a, b, c);
      && First(a) == n / 262144 && Second(a, b) == n / 4096 % 64 && Third(b, c) == n / 64 % 64 && Fourth(c) == n % 64
  {
    var n := Number(a, b, c);
    var x: nat, y: nat, z: nat := a, b, c;
    Divides(n, x / 4, x % 4 * 65536 + y * 256 + z, 262144);
    Divides(n, x * 16 + y / 16, y % 16 * 256 + z, 4096);
    Divides(x * 16 + y / 16, x / 4, x % 4 * 16 + y / 16, 64);
    Divides(n, x * 1024 + y * 4 + z / 64, z % 64, 64);
    Divides(x * 1024 + y * 4 + z / 64, x * 16 + y / 16, y % 16 * 4 + z / 64, 64);
  }

  lemma Divides(n: nat, q: nat, r: nat, d: nat)
    requires r < d && n == q * d + r
    ensures n / d == q && n % d == r
  {
    var m := n / d;
    assert m < q ==> (m + 1) * d <= q * d;
    assert m > q ==> (q + 1) * d <= m * d;
  }

  /** One or two bytes at the end are written as if zero bits followed, without padding. */
  lemma TailDigits(a: Byte, b: Byte)
    ensures EncodeUrl([]) == ""
    ensures EncodeUrl([a]) == EncodeUrl([a, 0, 0])[..2]
    ensures EncodeUrl([a, b]) == EncodeUrl([a, b, 0])[..3]
  {
    assert [a, 0, 0][3..] == [] && [a, b, 0][3..] == [];
  }
}
