/** Lower-case hexadecimal, as written by `hex::encode` and by `uint8ArrayToHex`. */
module Hex {
  import opened Wrappers

  type Byte = x: nat | x < 256
  type Nibble = x: nat | x < 16

  function Digit(n: Nibble): char { if n < 10 then ('0' as int + n) as char else ('a' as int + n - 10) as char }

  function Join(hi: Nibble, lo: Nibble): Byte { var n: nat := hi; 16 * n + lo }

  /** The digit's value; upper-case digits are read too. */
  function Value(c: char): Option<Nibble> {
    if '0' <= c <= '9' then Some(c as nat - '0' as nat)
    else if 'a' <= c <= 'f' then Some(c as nat - 'a' as nat + 10)
    else if 'A' <= c <= 'F' then Some(c as nat - 'A' as nat + 10)
    else None
  }

  function Encode(data: seq<Byte>): (s: string)
    ensures |s| == 2 * |data|
  {
    if data == [] then [] else [Digit(data[0] / 16), Digit(data[0] % 16)] + Encode(data[1..])
  }

  function Decode(s: string): Option<seq<Byte>> {
    if s == "" then Some([])
    else if |s| == 1 then None
    else
      var hi, lo, rest := Value(s[0]), Value(s[1]), Decode(s[2..]);
      if hi.Some? && lo.Some? && rest.Some? then Some([Join(hi.value, lo.value)] + rest.value) else None
  }

  function LowerChar(c: char): char { if 'A' <= c <= 'F' then (c as int + 32) as char else c }

  function Lower(s: string): string { seq(|s|, i requires 0 <= i < |s| => LowerChar(s[i])) }

  lemma DigitValue(n: Nibble)
    ensures Value(Digit(n)) == Some(n)
  {
  }

  lemma ValueDigit(c: char)
    requires Value(c).Some?
    ensures Digit(Value(c).value) == LowerChar(c)
  {
  }

  /** Reading back what was written. */
  lemma {:induction false} DecodeEncode(data: seq<Byte>)
    ensures Decode(Encode(data)) == Some(data)
  {
    if data != [] {
      DecodeEncode(data[1..]);
      DigitValue(data[0] / 16);
      DigitValue(data[0] % 16);
      assert Encode(data)[2..] == Encode(data[1..]);
      assert [Join(data[0] / 16, data[0] % 16)] + data[1..] == data;
    }
  }

  /** Writing back what was read gives the same digits in lower case. */
  lemma {:induction false} EncodeDecode(s: string)
    requires Decode(s).Some?
    ensures Encode(Decode(s).value) == Lower(s)
  {
    if |s| > 1 {
      var rest := Decode(s[2..]).value;
      EncodeDecode(s[2..]);
      ValueDigit(s[0]);
      ValueDigit(s[1]);
      var b := Join(Value(s[0]).value, Value(s[1]).value);
      assert Decode(s).value == [b] + rest && ([b] + rest)[1..] == rest;
      assert b / 16 == Value(s[0]).value && b % 16 == Value(s[1]).value;
      assert Lower(s) == [LowerChar(s[0]), LowerChar(s[1])] + Lower(s[2..]);
    }
  }

  lemma EncodeInjective(a: seq<Byte>, b: seq<Byte>)
    requires Encode(a) == Encode(b)
    ensures a == b
  {
    DecodeEncode(a);
    DecodeEncode(b);
  }

  /** Each byte is written as two of these digits, the higher one first. */
  lemma {:induction false} EncodeDigits(data: seq<Byte>, i: nat)
    requires i < |data|
    ensures var b: nat := data[i];
      && Encode(data)[2 * i] == "0123456789abcdef"[b / 16]
      && Encode(data)[2 * i + 1] == "0123456789abcdef"[b % 16]
  {
    if i > 0 {
      EncodeDigits(data[1..], i - 1);
      var rest := Encode(data[1..]);
      assert Encode(data)[2 * i] == rest[2 * (i - 1)] && Encode(data)[2 * i + 1] == rest[2 * (i - 1) + 1];
    } else {
      DigitOf(data[0] / 16);
      DigitOf(data[0] % 16);
    }
  }

  lemma DigitOf(n: Nibble)
    ensures Digit(n) == "0123456789abcdef"[n]
  {
  }

  /** What can be read: an even number of hexadecimal digits, in either case. */
  lemma {:induction false} DecodesExactlyWhen(s: string)
    ensures Decode(s).Some? <==>
              |s| % 2 == 0
              && forall i :: 0 <= i < |s| ==> '0' <= s[i] <= '9' || 'a' <= s[i] <= 'f' || 'A' <= s[i] <= 'F'
  {
    if |s| > 1 {
      DecodesExactlyWhen(s[2..]);
      assert s == [s[0], s[1]] + s[2..];
    }
  }
}
