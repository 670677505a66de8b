/** Base64 in the standard alphabet (section 4 of RFC 4648). */
module Encoding {
  import opened Streams

  const PAD: byte := 61

  /** The alphabet; the padding is not part of it. */
  predicate IsDigit(b: byte) { 65 <= b <= 90 || 97 <= b <= 122 || 48 <= b <= 57 || b == 43 || b == 47 }

  function Digit(n: nat): (b: byte)
    requires n < 64
    ensures IsDigit(b)
  {
    if n < 26 then 65 + n else if n < 52 then 97 + (n - 26) else if n < 62 then 48 + (n - 52)
    else if n == 62 then 43 else 47
  }

  function Base64(v: seq<byte>): seq<byte> {
    if v == [] then []
    else if |v| == 1 then [Digit(v[0] / 4), Digit(v[0] % 4 * 16), PAD, PAD]
    else if |v| == 2 then [Digit(v[0] / 4), Digit(v[0] % 4 * 16 + v[1] / 16), Digit(v[1] % 16 * 4), PAD]
    else
      [Digit(v[0] / 4), Digit(v[0] % 4 * 16 + v[1] / 16), Digit(v[1] % 16 * 4 + v[2] / 64), Digit(v[2] % 64)]
      + Base64(v[3..])
  }

  /** The value of a digit, by its place in the alphabet. */
  function Value(b: byte): (n: nat)
    ensures n < 64
  {
    if 65 <= b <= 90 then b - 65 else if 97 <= b <= 122 then b - 97 + 26 else if 48 <= b <= 57 then b - 48 + 52
    else if b == 43 then 62 else 63
  }

  /** Reads four digits at a time: 24 bits, of which padding takes away eight or sixteen. */
  function Decode64(s: seq<byte>): seq<byte>
    decreases |s|
  {
    if |s| < 4 then []
    else
      var bits := Value(s[0]) * 262144 + Value(s[1]) * 4096;
      if s[2] == PAD then [bits / 65536]
      else
        var bits := bits + Value(s[2]) * 64;
        if s[3] == PAD then [bits / 65536, bits / 256 % 256]
        else
          var bits := bits + Value(s[3]);
          [bits / 65536, bits / 256 % 256, bits % 256] + Decode64(s[4..])
  }

  /** The digits: capital letters, small letters, numerals, "+" and "/"; and the padding is "=". */
  lemma DigitsAreTheAlphabet(n: nat)
    requires n < 64
    ensures n <= 25 ==> Digit(n) as char == 'A' + n as char
    ensures 26 <= n <= 51 ==> Digit(n) as char == 'a' + (n - 26) as char
    ensures 52 <= n <= 61 ==> Digit(n) as char == '0' + (n - 52) as char
    ensures Digit(62) as char == '+' && Digit(63) as char == '/' && PAD as char == '='
  {
  }

  lemma DigitHasValue(n: nat)
    requires n < 64
    ensures Value(Digit(n)) == n
  {
  }

  lemma DigitsHaveValues(a: byte, b: byte, c: byte)
    ensures Value(Digit(a / 4)) == a / 4 && Value(Digit(a % 4 * 16 + b / 16)) == a % 4 * 16 + b / 16
    ensures Value(Digit(b % 16 * 4 + c / 64)) == b % 16 * 4 + c / 64 && Value(Digit(c % 64)) == c % 64
  {
    hide Digit, Value;
    DigitHasValue(a / 4);
    DigitHasValue(a % 4 * 16 + b / 16);
    DigitHasValue(b % 16 * 4 + c / 64);
    DigitHasValue(c % 64);
  }

  lemma SameBits(a: byte, b: byte, c: byte)
    ensures a / 4 * 262144 + (a % 4 * 16 + b / 16) * 4096 + (b % 16 * 4 + c / 64) * 64 + c % 64
            == a * 65536 + b * 256 + c
  {
    assert a == a / 4 * 4 + a % 4 && b == b / 16 * 16 + b % 16 && c == c / 64 * 64 + c % 64;
  }

  lemma BytesOfBits(a: byte, b: byte, c: byte, bits: nat)
    requires bits == a * 65536 + b * 256 + c
    ensures bits / 65536 == a && bits / 256 % 256 == b && bits % 256 == c
  {
    assert bits / 256 == a * 256 + b;
  }

  lemma DecodeStep(s: seq<byte>, bits: nat)
    requires |s| >= 4 && s[2] != PAD && s[3] != PAD
    requires bits == Value(s[0]) * 262144 + Value(s[1]) * 4096 + Value(s[2]) * 64 + Value(s[3])
    ensures Decode64(s) == [bits / 65536, bits / 256 % 256, bits % 256] + Decode64(s[4..])
  {
    hide Value;
  }

  lemma Base64Step(v: seq<byte>)
    requires |v| > 2
    ensures var a, b, c := v[0], v[1], v[2];
            Base64(v) == [Digit(a / 4), Digit(a % 4 * 16 + b / 16), Digit(b % 16 * 4 + c / 64), Digit(c % 64)]
                         + Base64(v[3..])
  {
  }

  lemma DecodeLast(s: seq<byte>, bits: nat)
    requires |s| == 4 && s[3] == PAD
    requires bits == Value(s[0]) * 262144 + Value(s[1]) * 4096 + (if s[2] == PAD then 0 else Value(s[2]) * 64)
    ensures Decode64(s) == [bits / 65536] + (if s[2] == PAD then [] else [bits / 256 % 256])
  {
    hide Value;
  }

  lemma OneLeft(a: byte)
    ensures Decode64(Base64([a])) == [a]
  {
    hide Digit, Value, Decode64;
    DigitsHaveValues(a, 0, 0);
    var bits: int := a / 4 * 262144 + a % 4 * 16 * 4096;
    assert bits / 65536 == a;
    DecodeLast(Base64([a]), bits);
  }

  lemma Base64Two(a: byte, b: byte)
    ensures Base64([a, b]) == [Digit(a / 4), Digit(a % 4 * 16 + b / 16), Digit(b % 16 * 4), PAD]
  {
    hide Digit;
  }

  lemma TwoLeft(a: byte, b: byte)
    ensures Decode64(Base64([a, b])) == [a, b]
  {
    hide Digit, Value, Decode64, Base64;
    DigitsHaveValues(a, b, 0);
    SameBits(a, b, 0);
    var bits: int := (a as int) * 65536 + (b as int) * 256;
    BytesOfBits(a, b, 0, bits);
    Base64Two(a, b);
    DecodeLast(Base64([a, b]), bits);
  }

  /** What a key in base64 hides is the secret: the encoding loses nothing. */
  lemma {:induction false} Base64Inverts(v: seq<byte>)
    ensures Decode64(Base64(v)) == v
    decreases |v|
  {
    hide Digit, Value, Base64, Decode64;
    if |v| > 2 {
      var a: int, b: int, c: int := v[0], v[1], v[2];
      var s := Base64(v);
      Base64Step(v);
      assert s[4..] == Base64(v[3..]);
      DigitsHaveValues(a, b, c);
      SameBits(a, b, c);
      var bits := a * 65536 + b * 256 + c;
      BytesOfBits(a, b, c, bits);
      DecodeStep(s, bits);
      Base64Inverts(v[3..]);
      assert v == [a, b, c] + v[3..];
    } else if |v| == 2 {
      TwoLeft(v[0], v[1]);
      assert v == [v[0], v[1]];
    } else if |v| == 1 {
      OneLeft(v[0]);
      assert v == [v[0]];
    } else {
      NothingEncoded();
    }
  }

  lemma NothingEncoded()
    ensures Decode64(Base64([])) == []
  {
  }

  function TrimRight(s: seq<byte>, b: byte): (t: seq<byte>)
    ensures t <= s && (t != [] ==> t[|t| - 1] != b)
  {
    if s == [] || s[|s| - 1] != b then s else TrimRight(s[..|s| - 1], b)
  }

  function Unpadded(v: seq<byte>): seq<byte> { TrimRight(Base64(v), PAD) }

  lemma {:induction false} Base64IsText(v: seq<byte>)
    ensures forall b <- Base64(v) :: IsDigit(b) || b == PAD
    decreases |v|
  {
    hide Digit, IsDigit;
    if |v| > 2 { Base64IsText(v[3..]); }
  }

  lemma {:induction false} TrimBehind(front: seq<byte>, s: seq<byte>, b: byte)
    requires TrimRight(s, b) != []
    ensures TrimRight(front + s, b) == front + TrimRight(s, b)
    decreases |s|
  {
    if s[|s| - 1] == b {
      TrimBehind(front, s[..|s| - 1], b);
      assert (front + s)[..|front + s| - 1] == front + s[..|s| - 1];
    }
  }

  /** Even without padding the encoding is longer than what it encodes. */
  lemma {:induction false} UnpaddedIsLonger(v: seq<byte>)
    requires v != []
    ensures |Unpadded(v)| > |v| && |Base64(v)| > |v|
    decreases |v|
  {
    hide TrimRight;
    var s := Base64(v);
    if |v| > 3 {
      UnpaddedIsLonger(v[3..]);
      assert s == s[..4] + Base64(v[3..]);
      TrimBehind(s[..4], Base64(v[3..]), PAD);
    } else {
      TrimShort(s, |v| + 1);
    }
  }

  lemma TrimShort(s: seq<byte>, n: nat)
    requires n <= |s| <= n + 2 && 0 < n && s[n - 1] != PAD
    requires forall i :: n <= i < |s| ==> s[i] == PAD
    ensures TrimRight(s, PAD) == s[..n]
  {
    if |s| > n {
      TrimShort(s[..|s| - 1], n);
      assert s[..|s| - 1][..n] == s[..n];
    } else {
      assert s[..n] == s;
    }
  }
}
