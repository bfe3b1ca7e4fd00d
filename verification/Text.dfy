/**
 The textual encodings that hashes, indices and ids are stored in.

 Hex: two lowercase digits a byte. Encoding is injective and decoding undoes
 it; a 64-digit text is 32 raw bytes and back, which is how record hashes
 become Merkle leaves.

 Decimal: no leading zeros. Distinct numbers have distinct texts, and the
 parser, which also takes a plus sign and leading zeros, reads each back.

 Separators: a character that occurs in neither of two fields marks one place.
 */
module Text {
  import opened Bytes

  // ------------------------------------------------------------------
  // Hex

  predicate IsLowerHex(c: char) {
    '0' <= c <= '9' || 'a' <= c <= 'f'
  }

  function HexDigit(n: nat): (c: char)
    requires n < 16
    ensures IsLowerHex(c)
  {
    if n < 10 then '0' + n as char else 'a' + (n - 10) as char
  }

  /** The value of a hex digit in either case. */
  function HexValue(c: char): (n: int)
    ensures -1 <= n < 16
  {
    if '0' <= c <= '9' then (c - '0') as int
    else if 'a' <= c <= 'f' then (c - 'a') as int + 10
    else if 'A' <= c <= 'F' then (c - 'A') as int + 10
    else -1
  }

  lemma HexDigitValue(n: nat)
    requires n < 16
    ensures HexValue(HexDigit(n)) == n
  {
  }

  /** A hex digit is one of sixteen, in either case. */
  lemma HexValueIs(c: char, n: nat)
    requires n < 16
    ensures HexValue(c) == n <==> c == "0123456789abcdef"[n] || c == "0123456789ABCDEF"[n]
  {
  }

  function HexEncode(b: Bytes): (s: string)
    ensures |s| == 2 * |b|
    ensures forall i :: 0 <= i < |s| ==> IsLowerHex(s[i])
  {
    if b == [] then "" else [HexDigit(b[0] / 16), HexDigit(b[0] % 16)] + HexEncode(b[1..])
  }

  /** `u8::from_str_radix(_, 16)` on two characters: a leading `+` is a sign. */
  function HexPair(hi: char, lo: char): (r: Option<byte>) {
    if hi == '+' && HexValue(lo) >= 0 then Some(HexValue(lo))
    else if HexValue(hi) >= 0 && HexValue(lo) >= 0 then Some(16 * HexValue(hi) + HexValue(lo))
    else None
  }

  /** Two digits are a byte; so is a plus sign and one digit, as the integer parser has it. */
  lemma HexPairIs(hi: char, lo: char, b: byte)
    ensures HexPair(hi, lo) == Some(b) <==>
            HexValue(lo) == b % 16 && (HexValue(hi) == b / 16 || (hi == '+' && b < 16))
  {
  }

  lemma HexPairDigits(b: byte)
    ensures HexPair(HexDigit(b / 16), HexDigit(b % 16)) == Some(b)
  {
    HexDigitValue(b / 16);
    HexDigitValue(b % 16);
  }

  function HexDecode(s: string): Option<Bytes> {
    if s == "" then Some([])
    else if |s| % 2 == 1 then None
    else
      var b, rest := HexPair(s[0], s[1]), HexDecode(s[2..]);
      if b.Some? && rest.Some? then Some([b.value] + rest.value) else None
  }

  lemma {:induction false} HexRoundTrip(b: Bytes)
    ensures HexDecode(HexEncode(b)) == Some(b)
  {
    if b == [] {
    } else {
      HexRoundTrip(b[1..]);
      var s := HexEncode(b);
      assert s[0] == HexDigit(b[0] / 16) && s[1] == HexDigit(b[0] % 16);
      assert s[2..] == HexEncode(b[1..]);
      HexPairDigits(b[0]);
      assert b == [b[0]] + b[1..];
    }
  }

  lemma HexInjective(a: Bytes, b: Bytes)
    requires HexEncode(a) == HexEncode(b)
    ensures a == b
  {
    HexRoundTrip(a);
    HexRoundTrip(b);
  }

  /** 64 lowercase hex characters. */
  predicate IsHex64(s: string) {
    |s| == 64 && forall i :: 0 <= i < |s| ==> IsLowerHex(s[i])
  }

  lemma {:induction false} HexDecodeTotal(s: string)
    requires |s| % 2 == 0 && forall i :: 0 <= i < |s| ==> IsLowerHex(s[i])
    ensures HexDecode(s).Some? && |HexDecode(s).value| == |s| / 2
  {
    if s == "" {
    } else {
      HexDecodeTotal(s[2..]);
    }
  }

  /** `hex32`: 32 raw bytes of a 64-character lowercase hex string. */
  function Hex32(s: string): (r: Option<Digest>)
    ensures r.Some? <==> IsHex64(s)
  {
    if IsHex64(s) then HexDecodeTotal(s); Some(HexDecode(s).value) else None
  }

  lemma Hex32Encode(d: Digest)
    ensures IsHex64(HexEncode(d)) && Hex32(HexEncode(d)) == Some(d)
  {
    HexRoundTrip(d);
  }

  // ------------------------------------------------------------------
  // Decimal

  predicate IsDigit(c: char) {
    '0' <= c <= '9'
  }

  function Digit(n: nat): char
    requires n < 10
  {
    '0' + n as char
  }

  function Decimal(n: nat): (s: string)
    ensures |s| >= 1 && forall i :: 0 <= i < |s| ==> IsDigit(s[i])
  {
    if n < 10 then [Digit(n)] else Decimal(n / 10) + [Digit(n % 10)]
  }

  /** Value of a digit string, leading zeros allowed; `None` on anything else. */
  function DigitsValue(s: string): Option<nat> {
    if s == "" then Some(0)
    else
      var rest := DigitsValue(s[..|s| - 1]);
      var c := s[|s| - 1];
      if rest.Some? && IsDigit(c) then Some(10 * rest.value + (c - '0') as nat) else None
  }

  predicate IsDigits(s: string) {
    forall i :: 0 <= i < |s| ==> IsDigit(s[i])
  }

  lemma {:induction false} ValueIsDigits(s: string)
    requires DigitsValue(s).Some?
    ensures IsDigits(s)
  {
    if s == "" {
    } else {
      var n := |s| - 1;
      ValueIsDigits(s[..n]);
      assert forall i :: 0 <= i < n ==> s[i] == s[..n][i];
    }
  }

  /** `str::parse::<u64>` without its overflow check: an optional `+`, then digits. */
  function ParseNat(s: string): Option<nat> {
    var digits := if |s| > 0 && s[0] == '+' then s[1..] else s;
    if digits == "" then None else DigitsValue(digits)
  }

  lemma {:induction false} DecimalValue(n: nat)
    ensures DigitsValue(Decimal(n)) == Some(n)
  {
    if n < 10 {
      assert Decimal(n)[..0] == "";
    } else {
      DecimalValue(n / 10);
      assert Decimal(n)[..|Decimal(n)| - 1] == Decimal(n / 10);
    }
  }

  lemma DecimalRoundTrip(n: nat)
    ensures ParseNat(Decimal(n)) == Some(n)
  {
    DecimalValue(n);
  }

  lemma DecimalInjective(a: nat, b: nat)
    requires Decimal(a) == Decimal(b)
    ensures a == b
  {
    DecimalValue(a);
    DecimalValue(b);
  }

  // ------------------------------------------------------------------
  // ASCII

  predicate IsAscii(s: string) {
    forall i :: 0 <= i < |s| ==> s[i] as int < 0x80
  }

  // ------------------------------------------------------------------
  // Separators

  /** A separator that occurs in neither field marks one place only. */
  lemma CutAtSeparator(a: string, b: string, x: string, y: string, sep: char)
    requires sep !in a && sep !in b
    requires a + [sep] + x == b + [sep] + y
    ensures a == b && x == y
  {
    var whole := a + [sep] + x;
    assert whole[|a|] == sep && whole[|b|] == sep;
    assert forall j :: 0 <= j < |a| ==> whole[j] == a[j] != sep;
    assert forall j :: 0 <= j < |b| ==> whole[j] == b[j] != sep;
    assert |a| == |b|;
    assert whole[..|a|] == a && whole[..|b|] == b;
    assert whole[|a| + 1..] == x && whole[|b| + 1..] == y;
  }
}
