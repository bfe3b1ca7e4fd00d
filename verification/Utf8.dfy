/**
 UTF-8 as Rust strings carry it.

 `Encode` is `str::as_bytes`. `Decode` is the strict `String::from_utf8`: it
 refuses overlong forms, surrogates, stray and missing continuation bytes.
 `Lossy` is `String::from_utf8_lossy`, which puts one replacement character for
 each longest run of bytes that could have begun a character.

 Decoding undoes encoding, encoding a decoded character gives back its bytes,
 encoding distributes over concatenation, and nothing is lost by `Lossy` of
 what `Decode` accepts.
 */
module Utf8 {
  import opened Bytes
  import opened Text

  function EncodeChar(c: char): (b: Bytes)
    ensures 1 <= |b| <= 4
  {
    var n := c as int;
    if n < 0x80 then [n]
    else if n < 0x800 then [0xC0 + n / 64, 0x80 + n % 64]
    else if n < 0x10000 then [0xE0 + n / 4096, 0x80 + n / 64 % 64, 0x80 + n % 64]
    else [0xF0 + n / 262144, 0x80 + n / 4096 % 64, 0x80 + n / 64 % 64, 0x80 + n % 64]
  }

  function Encode(s: string): Bytes {
    if s == "" then [] else EncodeChar(s[0]) + Encode(s[1..])
  }

  /** The first character and its width; overlong forms, surrogates and stray bytes are refused. */
  function DecodeChar(b: Bytes): (r: Option<(char, nat)>)
    requires b != []
    ensures r.Some? ==> 1 <= r.value.1 <= |b|
  {
    if b[0] < 0x80 then Some((b[0] as char, 1))
    else if 0xC2 <= b[0] < 0xE0 && Continues(b, 1) then
      Some(((Low(b[0], 0xC0) * 64 + Low(b[1], 0x80)) as char, 2))
    else if 0xE0 <= b[0] < 0xF0 && Continues(b, 2) then
      var n := Low(b[0], 0xE0) * 4096 + Low(b[1], 0x80) * 64 + Low(b[2], 0x80);
      if 0x800 <= n < 0xD800 || 0xE000 <= n < 0x10000 then Some((n as char, 3)) else None
    else if 0xF0 <= b[0] < 0xF5 && Continues(b, 3) then
      var n := Low(b[0], 0xF0) * 262144 + Low(b[1], 0x80) * 4096 + Low(b[2], 0x80) * 64 + Low(b[3], 0x80);
      if 0x10000 <= n < 0x110000 then Some((n as char, 4)) else None
    else None
  }

  function Low(b: byte, base: int): int {
    b - base
  }

  /** `k` continuation bytes follow the first byte. */
  predicate Continues(b: Bytes, k: nat) {
    k < |b| && forall i :: 1 <= i <= k ==> 0x80 <= b[i] < 0xC0
  }

  function Decode(b: Bytes): Option<string>
    decreases |b|
  {
    if b == [] then Some("")
    else
      var first := DecodeChar(b);
      if first.None? then None
      else
        var rest := Decode(b[first.value.1..]);
        if rest.None? then None else Some([first.value.0] + rest.value)
  }

  /** The second byte can continue the first of a three- or four-byte character. */
  predicate SecondOk(x: byte, y: byte) {
    || (x == 0xE0 && 0xA0 <= y <= 0xBF)
    || ((0xE1 <= x <= 0xEC || 0xEE <= x <= 0xEF) && 0x80 <= y <= 0xBF)
    || (x == 0xED && 0x80 <= y <= 0x9F)
    || (x == 0xF0 && 0x90 <= y <= 0xBF)
    || (0xF1 <= x <= 0xF3 && 0x80 <= y <= 0xBF)
    || (x == 0xF4 && 0x80 <= y <= 0x8F)
  }

  /** How many bytes one replacement character stands for, where no character can be decoded. */
  function BadLen(b: Bytes): (n: nat)
    requires b != []
    ensures 1 <= n <= |b|
  {
    if |b| == 1 || !SecondOk(b[0], b[1]) then 1
    else if b[0] >= 0xF0 && |b| > 2 && 0x80 <= b[2] < 0xC0 then 3
    else 2
  }

  const REPLACEMENT := '\U{FFFD}'

  /** `String::from_utf8_lossy`. */
  function Lossy(b: Bytes): string
    decreases |b|
  {
    if b == [] then ""
    else
      var first := DecodeChar(b);
      if first.Some? then [first.value.0] + Lossy(b[first.value.1..])
      else [REPLACEMENT] + Lossy(b[BadLen(b)..])
  }

  /** Bytes that begin the encoding of some character. */
  ghost predicate Begins(b: Bytes) {
    exists c :: b <= EncodeChar(c)
  }

  lemma BeginsBy(b: Bytes, whole: Bytes)
    requires b <= whole && whole != [] && DecodeChar(whole).Some? && DecodeChar(whole).value.1 == |whole|
    ensures Begins(b)
  {
    EncodeDecodedChar(whole);
    assert whole[..|whole|] == whole;
    assert b <= EncodeChar(DecodeChar(whole).value.0);
  }

  lemma EncodedSecond(c: char)
    requires |EncodeChar(c)| >= 3
    ensures SecondOk(EncodeChar(c)[0], EncodeChar(c)[1])
    ensures |EncodeChar(c)| == 4 ==> EncodeChar(c)[0] >= 0xF0 && 0x80 <= EncodeChar(c)[2] < 0xC0
  {
    var n := c as int;
    if n < 0x10000 {
      assert n / 64 / 64 == n / 4096 && 0 <= n / 4096 < 16;
      Halve(n / 64);
    } else {
      FourParts(n);
      Halve(n / 4096);
      assert n / 4096 / 64 == n / 262144;
    }
  }

  /**
   Where no character can be decoded, one replacement stands for the longest
   run of bytes that begins some character, or for one byte if none does.
   */
  lemma BadLenIs(b: Bytes)
    requires b != [] && DecodeChar(b).None?
    ensures BadLen(b) > 1 ==> Begins(b[..BadLen(b)])
    ensures forall k | BadLen(b) < k <= |b| :: !Begins(b[..k])
  {
    if BadLen(b) > 1 {
      BadRunBegins(b);
    }
    forall k | BadLen(b) < k <= |b| ensures !Begins(b[..k]) {
      if c :| b[..k] <= EncodeChar(c) {
        NoLongerRun(b, k, c);
      }
    }
  }

  lemma BadRunBegins(b: Bytes)
    requires b != [] && BadLen(b) > 1
    ensures Begins(b[..BadLen(b)])
  {
    var n := BadLen(b);
    if b[0] < 0xF0 {
      BeginsBy(b[..n], [b[0], b[1], 0x80]);
    } else {
      BeginsBy(b[..n], [b[0], b[1], if n == 3 then b[2] else 0x80, 0x80]);
    }
  }

  lemma NoLongerRun(b: Bytes, k: nat, c: char)
    requires b != [] && BadLen(b) < k <= |b| && b[..k] <= EncodeChar(c)
    ensures DecodeChar(b).Some?
  {
    var whole := EncodeChar(c);
    assert forall i :: 0 <= i < k ==> b[i] == whole[i];
    if k == |whole| {
      DecodeEncodedChar(c, b[k..]);
      assert whole + b[k..] == b;
    } else {
      EncodedSecond(c);
      assert false;
    }
  }

  /** Nothing is lost of what decodes. */
  lemma {:induction false} LossyDecodes(b: Bytes)
    requires Decode(b).Some?
    ensures Lossy(b) == Decode(b).value
    decreases |b|
  {
    if b == [] {
    } else {
      LossyDecodes(b[DecodeChar(b).value.1..]);
    }
  }

  lemma {:induction false} EncodeConcat(s: string, t: string)
    ensures Encode(s + t) == Encode(s) + Encode(t)
  {
    if s == "" {
      assert s + t == t;
    } else {
      assert (s + t)[1..] == s[1..] + t;
      EncodeConcat(s[1..], t);
      Regroup(EncodeChar(s[0]), Encode(s[1..]), Encode(t));
    }
  }

  /** A decoded character is encoded by the bytes it came from. */
  lemma EncodeDecodedChar(b: Bytes)
    requires b != [] && DecodeChar(b).Some?
    ensures EncodeChar(DecodeChar(b).value.0) == b[..DecodeChar(b).value.1]
  {
    var n := DecodeChar(b).value.1;
    if n == 2 {
      DecodedTwo(b[0], b[1]);
    } else if n == 3 {
      DecodedThree(b[0], b[1], b[2]);
    } else if n == 4 {
      DecodedFour(b[0], b[1], b[2], b[3]);
    }
  }

  lemma DecodedTwo(x: int, y: int)
    requires 0xC2 <= x < 0xE0 && 0x80 <= y < 0xC0
    ensures var n := (x - 0xC0) * 64 + (y - 0x80); 0x80 <= n < 0x800 && 0xC0 + n / 64 == x && 0x80 + n % 64 == y
  {
  }

  lemma DecodedThree(x: int, y: int, z: int)
    requires 0xE0 <= x < 0xF0 && 0x80 <= y < 0xC0 && 0x80 <= z < 0xC0
    ensures var n := (x - 0xE0) * 4096 + (y - 0x80) * 64 + (z - 0x80);
            n < 0x10000 && 0xE0 + n / 4096 == x && 0x80 + n / 64 % 64 == y && 0x80 + n % 64 == z
  {
    var n := (x - 0xE0) * 4096 + (y - 0x80) * 64 + (z - 0x80);
    assert n / 64 == (x - 0xE0) * 64 + (y - 0x80);
  }

  lemma DecodedFour(x: int, y: int, z: int, w: int)
    requires 0xF0 <= x < 0xF5 && 0x80 <= y < 0xC0 && 0x80 <= z < 0xC0 && 0x80 <= w < 0xC0
    ensures var n := (x - 0xF0) * 262144 + (y - 0x80) * 4096 + (z - 0x80) * 64 + (w - 0x80);
            && 0xF0 + n / 262144 == x && 0x80 + n / 4096 % 64 == y
            && 0x80 + n / 64 % 64 == z && 0x80 + n % 64 == w
  {
    var n := (x - 0xF0) * 262144 + (y - 0x80) * 4096 + (z - 0x80) * 64 + (w - 0x80);
    assert n / 64 == (x - 0xF0) * 4096 + (y - 0x80) * 64 + (z - 0x80);
    assert n / 4096 == (x - 0xF0) * 64 + (y - 0x80);
  }

  lemma TwoBytes(c: char, rest: Bytes)
    requires 0x80 <= c as int < 0x800
    ensures DecodeChar(EncodeChar(c) + rest) == Some((c, 2))
  {
    var n := c as int;
    assert n / 64 * 64 + n % 64 == n;
  }

  lemma ThreeBytes(c: char, rest: Bytes)
    requires 0x800 <= c as int < 0x10000
    ensures DecodeChar(EncodeChar(c) + rest) == Some((c, 3))
  {
    var n := c as int;
    assert n / 4096 * 4096 + n / 64 % 64 * 64 + n % 64 == n;
  }

  lemma FourParts(n: int)
    requires 0x10000 <= n < 0x110000
    ensures 0xF0 <= 0xF0 + n / 262144 < 0xF5 && 0 <= n / 4096 % 64 < 64 && 0 <= n / 64 % 64 < 64 && 0 <= n % 64 < 64
    ensures n / 262144 * 262144 + n / 4096 % 64 * 4096 + n / 64 % 64 * 64 + n % 64 == n
  {
    Halve(n);
    Halve(n / 64);
    Halve(n / 4096);
    assert n / 64 / 64 == n / 4096 && n / 4096 / 64 == n / 262144;
  }

  lemma Halve(n: int)
    ensures n / 64 * 64 + n % 64 == n && 0 <= n % 64 < 64
  {
  }

  lemma FourBytes(c: char, rest: Bytes)
    requires 0x10000 <= c as int
    ensures DecodeChar(EncodeChar(c) + rest) == Some((c, 4))
  {
    var n := c as int;
    FourParts(n);
    FourDecode(n / 262144, n / 4096 % 64, n / 64 % 64, n % 64, EncodeChar(c) + rest, c);
  }

  lemma FourDecode(x: int, y: int, z: int, w: int, b: Bytes, c: char)
    requires 0 <= x < 5 && 0 <= y < 64 && 0 <= z < 64 && 0 <= w < 64
    requires |b| >= 4 && b[0] == 0xF0 + x && b[1] == 0x80 + y && b[2] == 0x80 + z && b[3] == 0x80 + w
    requires x * 262144 + y * 4096 + z * 64 + w == c as int >= 0x10000
    ensures DecodeChar(b) == Some((c, 4))
  {
    assert Continues(b, 3);
  }

  lemma DecodeEncodedChar(c: char, rest: Bytes)
    ensures DecodeChar(EncodeChar(c) + rest) == Some((c, |EncodeChar(c)|))
  {
    var n := c as int;
    if n >= 0x10000 {
      FourBytes(c, rest);
    } else if n >= 0x800 {
      ThreeBytes(c, rest);
    } else if n >= 0x80 {
      TwoBytes(c, rest);
    }
  }

  lemma {:induction false} RoundTrip(s: string)
    ensures Decode(Encode(s)) == Some(s)
  {
    if s == "" {
    } else {
      var head, rest := EncodeChar(s[0]), Encode(s[1..]);
      DecodeEncodedChar(s[0], rest);
      assert (head + rest)[|head|..] == rest;
      RoundTrip(s[1..]);
      assert s == [s[0]] + s[1..];
    }
  }

  /** Bytes that decode are those of the text they decode to. */
  lemma {:induction false} DecodedEncodes(b: Bytes)
    requires Decode(b).Some?
    ensures Encode(Decode(b).value) == b
    decreases |b|
  {
    if b == [] {
    } else {
      var n := DecodeChar(b).value.1;
      DecodedEncodes(b[n..]);
      EncodeDecodedChar(b);
      CutInTwo(b, n);
    }
  }

  lemma Injective(s: string, t: string)
    requires Encode(s) == Encode(t)
    ensures s == t
  {
    RoundTrip(s);
    RoundTrip(t);
  }

  // ------------------------------------------------------------------
  // Reading: bytes and characters

  function Latin1(b: Bytes): (t: string)
    ensures |t| == |b| && forall i :: 0 <= i < |b| ==> t[i] == b[i] as char
  {
    seq(|b|, i requires 0 <= i < |b| => b[i] as char)
  }

  /** The bytes behind a text that was read. */
  function Raw(t: string): (b: Bytes)
    ensures |b| == |t| && forall i :: 0 <= i < |t| ==> b[i] == t[i] as int % 256
  {
    seq(|t|, i requires 0 <= i < |t| => t[i] as int % 256)
  }

  /** A string as code that works on its bytes sees it: each byte as a character. */
  function AsRead(s: string): string {
    Latin1(Encode(s))
  }

  lemma Latin1Concat(a: Bytes, b: Bytes)
    ensures Latin1(a + b) == Latin1(a) + Latin1(b)
  {
  }

  lemma RawLatin1(b: Bytes)
    ensures Raw(Latin1(b)) == b
  {
  }

  lemma ReadConcat(s: string, t: string)
    ensures AsRead(s + t) == AsRead(s) + AsRead(t)
  {
    EncodeConcat(s, t);
    Latin1Concat(Encode(s), Encode(t));
  }

  lemma ReadCons(s: string)
    requires s != ""
    ensures AsRead(s) == AsRead([s[0]]) + AsRead(s[1..]) && AsRead([s[0]]) == Latin1(EncodeChar(s[0]))
  {
    assert s == [s[0]] + s[1..];
    ReadConcat([s[0]], s[1..]);
    assert [s[0]][1..] == "";
    assert EncodeChar(s[0]) + [] == EncodeChar(s[0]);
  }

  lemma ReadChar(c: char)
    ensures if c as int < 0x80 then AsRead([c]) == [c]
            else |AsRead([c])| >= 2 && forall i :: 0 <= i < |AsRead([c])| ==> AsRead([c])[i] as int >= 0x80
  {
    ReadCons([c]);
    assert [c][1..] == "";
  }

  /** Reading never shortens, and changes a text exactly when it is not ASCII. */
  lemma {:induction false} ReadIff(s: string)
    ensures |AsRead(s)| >= |s| && (AsRead(s) == s <==> IsAscii(s))
    ensures !IsAscii(s) ==> |AsRead(s)| > |s|
  {
    if s == "" {
    } else {
      ReadIff(s[1..]);
      ReadCons(s);
      ReadChar(s[0]);
      AsciiCons(s);
      ConsAlike(s, AsRead([s[0]]), AsRead(s[1..]));
    }
  }

  lemma AsciiCons(s: string)
    requires s != ""
    ensures IsAscii(s) <==> s[0] as int < 0x80 && IsAscii(s[1..])
  {
    if s[0] as int < 0x80 && IsAscii(s[1..]) {
      assert forall i :: 0 < i < |s| ==> s[i] == s[1..][i - 1];
    }
  }

  lemma ConsAlike(s: string, a: string, b: string)
    requires s != ""
    ensures a == [s[0]] && b == s[1..] ==> a + b == s
    ensures |a| + |b| > |s| ==> a + b != s
  {
  }
}
