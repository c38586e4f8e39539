/** The captcha's proof of work: the search in the browser (captcha/src/index.tsx and
    captcha/src/utils.ts) and the check on the server (pingoo/captcha.rs, lines 311-333). */
module ProofOfWork {
  import opened Wrappers
  import opened Hex

  function LeadingZeros(s: string): nat { if s != "" && s[0] == '0' then 1 + LeadingZeros(s[1..]) else 0 }

  function Zeros(n: nat): string { seq(n, _ => '0') }

  /** The server's check of a hash against the hash function and the difficulty. */
  predicate Accepts(sha: string -> seq<Byte>, challenge: string, difficulty: nat, hash: seq<Byte>, nonce: string) {
    LeadingZeros(Encode(hash)) >= difficulty && sha(challenge + nonce) == hash
  }

  function Decimal(n: nat): string {
    if n < 10 then [('0' as int + n) as char] else Decimal(n / 10) + [('0' as int + n % 10) as char]
  }

  /** `toString(16).padStart(2, '0')` of one byte. */
  function ByteToHex(b: Byte): string {
    var digits := if b < 16 then [Digit(b)] else [Digit(b / 16), Digit(b % 16)];
    if |digits| < 2 then Zeros(2 - |digits|) + digits else digits
  }

  method Uint8ArrayToHex(data: seq<Byte>) returns (hexString: string)
    ensures hexString == Encode(data) && Decode(hexString) == Some(data)
  {
    hexString := "";
    var i := 0;
    while i < |data|
      invariant 0 <= i <= |data|
      invariant hexString + Encode(data[i..]) == Encode(data)
    {
      assert ByteToHex(data[i]) == [Digit(data[i] / 16), Digit(data[i] % 16)];
      assert data[i..][1..] == data[i + 1..];
      hexString := hexString + ByteToHex(data[i]);
      i := i + 1;
    }
    DecodeEncode(data);
  }

  datatype ProofOfWorkResult = ProofOfWorkResult(nonce: string, hash: string)

  predicate Solves(sha: string -> seq<Byte>, challenge: string, difficulty: nat, n: nat) {
    var hash := Encode(sha(challenge + Decimal(n)));
    difficulty <= |hash| && hash[..difficulty] == Zeros(difficulty)
  }

  /** The search, watched for a number of rounds.  It is still going on exactly when no nonce
      up to there solves the challenge; otherwise it has found the smallest one, and what it
      sends is what the server accepts. */
  method Search(sha: string -> seq<Byte>, challenge: string, difficulty: nat, rounds: nat)
    returns (r: Option<ProofOfWorkResult>)
    ensures r == None <==> forall m :: 0 < m <= rounds ==> !Solves(sha, challenge, difficulty, m)
    ensures r.Some? ==> Decode(r.value.hash).Some?
                        && Accepts(sha, challenge, difficulty, Decode(r.value.hash).value, r.value.nonce)
    ensures r.Some? ==> exists n :: 0 < n <= rounds && r.value.nonce == Decimal(n)
                                    && forall m :: 0 < m < n ==> !Solves(sha, challenge, difficulty, m)
  {
    var n := 0;
    var hash := "";
    var target := Zeros(difficulty);
    while n < rounds
      invariant n <= rounds
      invariant forall m :: 0 < m <= n ==> !Solves(sha, challenge, difficulty, m)
    {
      n := n + 1;
      hash := Uint8ArrayToHex(sha(challenge + Decimal(n)));
      if Substring(hash, difficulty) == target {
        assert Solves(sha, challenge, difficulty, n);
        DecodeEncode(sha(challenge + Decimal(n)));
        ZerosLead(hash, difficulty);
        return Some(ProofOfWorkResult(Decimal(n), hash));
      }
      assert !Solves(sha, challenge, difficulty, n);
    }
    return None;
  }

  /** `s.substring(0, n)`. */
  function Substring(s: string, n: nat): string { if n <= |s| then s[..n] else s }

  lemma {:induction false} ZerosLead(s: string, d: nat)
    ensures LeadingZeros(s) >= d <==> d <= |s| && s[..d] == Zeros(d)
  {
    if d > 0 && s != "" {
      ZerosLead(s[1..], d - 1);
      if s[0] == '0' && d <= |s| {
        assert s[..d] == ['0'] + s[1..][..d - 1];
        assert Zeros(d) == ['0'] + Zeros(d - 1);
        assert s[..d][1..] == s[1..][..d - 1] && Zeros(d)[1..] == Zeros(d - 1);
      } else if d <= |s| {
        assert s[..d][0] == s[0] && Zeros(d)[0] == '0';
      }
    }
  }

  // Difficulty as a bound on the hash

  function Power16(n: nat): nat { if n == 0 then 1 else 16 * Power16(n - 1) }

  /** The number a hexadecimal string stands for, most significant digit first. */
  function NumberOf(s: string): nat
    requires IsHex(s)
  {
    if s == "" then 0 else Value(s[0]).value * Power16(|s| - 1) + NumberOf(s[1..])
  }

  /** The number a byte string stands for, most significant byte first. */
  function BigEndian(data: seq<Byte>): nat {
    if data == [] then 0 else data[0] * Power16(2 * (|data| - 1)) + BigEndian(data[1..])
  }

  predicate IsHex(s: string) { forall c :: c in s ==> Value(c).Some? }

  lemma {:induction false} EncodeIsHex(data: seq<Byte>)
    ensures IsHex(Encode(data))
  {
    if data != [] {
      EncodeIsHex(data[1..]);
      DigitValue(data[0] / 16);
      DigitValue(data[0] % 16);
    }
  }

  lemma {:induction false} EncodeNumber(data: seq<Byte>)
    requires IsHex(Encode(data))
    ensures NumberOf(Encode(data)) == BigEndian(data)
  {
    if data != [] {
      EncodeIsHex(data[1..]);
      EncodeNumber(data[1..]);
      var hi, lo, rest := data[0] / 16, data[0] % 16, Encode(data[1..]);
      DigitValue(hi);
      DigitValue(lo);
      TwoDigits(Digit(hi), Digit(lo), rest);
      assert Encode(data) == [Digit(hi), Digit(lo)] + rest;
      assert hi * 16 + lo == data[0];
    }
  }

  lemma TwoDigits(hi: char, lo: char, rest: string)
    requires Value(hi).Some? && Value(lo).Some? && IsHex(rest) && IsHex([hi, lo] + rest)
    ensures var (h: nat, l: nat) := (Value(hi).value, Value(lo).value);
            NumberOf([hi, lo] + rest) == (h * 16 + l) * Power16(|rest|) + NumberOf(rest)
  {
    hide Power16, Value, NumberOf;
    var h: nat, l: nat := Value(hi).value, Value(lo).value;
    FirstDigit(hi, [lo] + rest);
    FirstDigit(lo, rest);
    assert [hi, lo] + rest == [hi] + ([lo] + rest);
    NextPower(|rest|);
    Distribute(h, l, Power16(|rest|), Power16(|rest| + 1));
  }

  lemma FirstDigit(c: char, rest: string)
    requires Value(c).Some? && IsHex(rest)
    ensures IsHex([c] + rest) && NumberOf([c] + rest) == Value(c).value * Power16(|rest|) + NumberOf(rest)
  {
    hide Power16, Value;
    assert ([c] + rest)[1..] == rest;
  }

  lemma NextPower(n: nat)
    ensures Power16(n + 1) == 16 * Power16(n)
  {
  }

  lemma Distribute(h: nat, l: nat, p: nat, q: nat)
    requires q == 16 * p
    ensures h * q + l * p == (h * 16 + l) * p
  {
    assert h * q == h * 16 * p;
  }

  lemma MulAtMost(a: nat, b: nat, p: nat)
    requires a <= b
    ensures a * p <= b * p
  {
  }

  lemma {:induction false} NumberBelow(s: string)
    requires IsHex(s)
    ensures NumberOf(s) < Power16(|s|)
  {
    if s != "" {
      NumberBelow(s[1..]);
      MulAtMost(Value(s[0]).value, 15, Power16(|s| - 1));
    }
  }

  lemma Power16Positive(n: nat)
    ensures Power16(n) > 0
  {
  }

  lemma {:induction false} Power16Monotone(m: nat, n: nat)
    requires m <= n
    ensures Power16(m) <= Power16(n)
  {
    if m < n {
      Power16Monotone(m, n - 1);
      Power16Positive(n - 1);
    }
  }

  lemma {:induction false} ZerosMeanSmall(s: string, d: nat)
    requires d <= |s| && IsHex(s)
    ensures LeadingZeros(s) >= d <==> NumberOf(s) < Power16(|s| - d)
  {
    if d == 0 {
      NumberBelow(s);
    } else if s[0] == '0' {
      assert Value(s[0]) == Some(0);
      ZerosMeanSmall(s[1..], d - 1);
    } else {
      var v, p := Value(s[0]).value, Power16(|s| - 1);
      assert v >= 1;
      MulAtMost(1, v, p);
      Power16Monotone(|s| - d, |s| - 1);
    }
  }

  /** A hash has `d` leading zero digits exactly when its value is that small: for 32 bytes,
      below 16^(64 - d). */
  lemma DifficultyBoundsTheHash(hash: seq<Byte>, d: nat)
    requires d <= 2 * |hash|
    ensures LeadingZeros(Encode(hash)) >= d <==> BigEndian(hash) < Power16(2 * |hash| - d)
  {
    EncodeIsHex(hash);
    EncodeNumber(hash);
    ZerosMeanSmall(Encode(hash), d);
  }

  /** What the server accepts is a hash of the challenge and the nonce, and a small one. */
  lemma AcceptsExactlyWhen(sha: string -> seq<Byte>, challenge: string, d: nat, hash: seq<Byte>, nonce: string)
    ensures Accepts(sha, challenge, d, hash, nonce)
       <==> sha(challenge + nonce) == hash && d <= 2 * |hash| && BigEndian(hash) < Power16(2 * |hash| - d)
  {
    ZerosLead(Encode(hash), d);
    if d <= 2 * |hash| {
      DifficultyBoundsTheHash(hash, d);
    }
  }

  /** With the difficulty the server asks for, the first digit is zero. */
  lemma AcceptsOneZero(sha: string -> seq<Byte>, challenge: string, hash: seq<Byte>, nonce: string)
    ensures Accepts(sha, challenge, 1, hash, nonce) <==> sha(challenge + nonce) == hash && hash != [] && hash[0] < 16
  {
    if hash != [] {
      assert Encode(hash)[0] == Digit(hash[0] / 16);
      assert Digit(hash[0] / 16) == '0' <==> hash[0] < 16;
    }
  }

  /** A nonce solves a challenge exactly when its hash is that small. */
  lemma SolvesExactlyWhen(sha: string -> seq<Byte>, challenge: string, d: nat, n: nat)
    ensures var hash := sha(challenge + Decimal(n));
            Solves(sha, challenge, d, n) <==> d <= 2 * |hash| && BigEndian(hash) < Power16(2 * |hash| - d)
  {
    var hash := sha(challenge + Decimal(n));
    ZerosLead(Encode(hash), d);
    AcceptsExactlyWhen(sha, challenge, d, hash, Decimal(n));
  }

  /** The number a decimal string stands for. */
  function FromDecimal(s: string): int {
    if s == "" then 0 else 10 * FromDecimal(s[..|s| - 1]) + (s[|s| - 1] as int - '0' as int)
  }

  /** Nonces are written in decimal digits, without a leading zero. */
  lemma {:induction false} DecimalReads(n: nat)
    ensures FromDecimal(Decimal(n)) == n && forall c :: c in Decimal(n) ==> '0' <= c <= '9'
    ensures |Decimal(n)| > 0 && (n > 0 ==> Decimal(n)[0] != '0')
  {
    if n < 10 {
      assert Decimal(n)[..0] == "";
    } else {
      DecimalReads(n / 10);
      var init := Decimal(n / 10);
      assert Decimal(n)[..|init|] == init;
    }
  }
}
