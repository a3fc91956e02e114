/** Base64 as the scripts use it: the URL-safe alphabet without padding
    (sections 3.5 and 5 of RFC 4648) and the standard padded form inside PEM. */
module Base64 {
  import opened Bytes
  import opened Letters
  import opened Options

  const MAX_TOKEN: nat := 32 * 1024

  type Sextet = i: int | 0 <= i < 64

  datatype Alphabet = Url | Standard

  function Symbol(a: Alphabet, i: Sextet): (c: char)
    ensures c != '=' && c < 128 as char
  {
    if i < 26 then (65 + i) as char
    else if i < 52 then (71 + i) as char
    else if i < 62 then (i - 4) as char
    else if i == 62 then if a.Url? then '-' else '+'
    else if a.Url? then '_' else '/'
  }

  function Value(a: Alphabet, c: char): Option<Sextet> {
    if 'A' <= c <= 'Z' then Some(c as int - 65)
    else if 'a' <= c <= 'z' then Some(c as int - 71)
    else if '0' <= c <= '9' then Some(c as int + 4)
    else if c == (if a.Url? then '-' else '+') then Some(62)
    else if c == (if a.Url? then '_' else '/') then Some(63)
    else None
  }

  lemma SymbolsCorrespond(a: Alphabet, i: Sextet, c: char)
    ensures Value(a, c) == Some(i) <==> c == Symbol(a, i)
  {
  }

  /** The alphabets of tables 1 and 2 of RFC 4648, in the order of their values. */
  lemma AlphabetIs(a: Alphabet, i: Sextet)
    ensures Symbol(a, i) == (CAPITALS + SMALL + DIGITS + (if a.Url? then "-_" else "+/"))[i]
  {
    if i < 26 {
      assert CAPITALS[i] == (65 + i) as char;
    } else if i < 52 {
      assert SMALL[i - 26] == (71 + i) as char;
    } else if i < 62 {
      assert DIGITS[i - 52] == (i - 4) as char;
    }
  }

  // ---------------------------------------------------------------- bit regrouping

  function Sextets(raw: Bytes): seq<Sextet> {
    if |raw| == 0 then []
    else if |raw| == 1 then [raw[0] / 4, raw[0] % 4 * 16]
    else if |raw| == 2 then [raw[0] / 4, raw[0] % 4 * 16 + raw[1] / 16, raw[1] % 16 * 4]
    else
      [raw[0] / 4, raw[0] % 4 * 16 + raw[1] / 16, raw[1] % 16 * 4 + raw[2] / 64, raw[2] % 64]
      + Sextets(raw[3..])
  }

  /** A group of three octets and its four sextets are the same number of 24 bits, first digit first; a
      short last group is filled up with zero bits (section 4 of RFC 4648). */
  lemma QuantumValue(raw: Bytes)
    ensures var s := Sextets(raw);
            if |raw| == 0 then s == []
            else if |raw| == 1 then |s| == 2 && Number(64, s) == Number(256, raw) * 16
            else if |raw| == 2 then |s| == 3 && Number(64, s) == Number(256, raw) * 4
            else |s| >= 4 && Number(64, s[..4]) == Number(256, raw[..3]) && s[4..] == Sextets(raw[3..])
  {
    var s := Sextets(raw);
    if |raw| == 1 {
      NumberOfThree(64, 0, s[0], s[1]);
      NumberOfThree(256, 0, 0, raw[0]);
      assert s == [s[0], s[1]] && raw == [raw[0]];
    } else if |raw| == 2 {
      NumberOfThree(64, s[0], s[1], s[2]);
      NumberOfThree(256, 0, raw[0], raw[1]);
      assert s == [s[0], s[1], s[2]] && raw == [raw[0], raw[1]];
    } else if |raw| >= 3 {
      assert s[4..] == Sextets(raw[3..]);
      NumberOfThree(64, s[0], s[1], s[2]);
      NumberOfThree(256, raw[0], raw[1], raw[2]);
      assert s[..4][..3] == [s[0], s[1], s[2]] && raw[..3] == [raw[0], raw[1], raw[2]];
    }
  }

  /** The number with these digits, first digit first. */
  function Number(base: int, digits: seq<int>): int {
    if digits == [] then 0 else Number(base, digits[..|digits| - 1]) * base + digits[|digits| - 1]
  }

  lemma NumberOfThree(base: int, a: int, b: int, c: int)
    ensures Number(base, [c]) == c && Number(base, [b, c]) == b * base + c
    ensures Number(base, [a, b, c]) == (a * base + b) * base + c
  {
    NumberOfTwo(base, a, b);
    NumberOfTwo(base, b, c);
    assert [a, b, c][..2] == [a, b];
  }

  lemma NumberOfTwo(base: int, a: int, b: int)
    ensures Number(base, [b]) == b && Number(base, [a, b]) == a * base + b
  {
    assert [a, b][..1] == [a] && [a][..0] == [] && [b][..0] == [];
    assert Number(base, []) * base == 0;
    assert Number(base, [a]) == a && Number(base, [b]) == b;
  }

  function FirstOctet(a: int, b: int): byte
    requires 0 <= a < 64 && 0 <= b < 64
  {
    a * 4 + b / 16
  }

  function SecondOctet(b: int, c: int): byte
    requires 0 <= b < 64 && 0 <= c < 64
  {
    b % 16 * 16 + c / 4
  }

  function ThirdOctet(c: int, d: int): byte
    requires 0 <= c < 64 && 0 <= d < 64
  {
    c % 4 * 64 + d
  }

  /** The decoder discards the bits after the last whole octet. */
  function Octets(s: seq<Sextet>): Bytes
    requires |s| % 4 != 1
  {
    if |s| == 0 then []
    else if |s| == 2 then [FirstOctet(s[0], s[1])]
    else if |s| == 3 then [FirstOctet(s[0], s[1]), SecondOctet(s[1], s[2])]
    else
      [FirstOctet(s[0], s[1]), SecondOctet(s[1], s[2]), ThirdOctet(s[2], s[3])] + Octets(s[4..])
  }

  lemma {:induction false} SextetsLength(raw: Bytes)
    ensures |Sextets(raw)| == (4 * |raw| + 2) / 3
    ensures |Sextets(raw)| % 4 != 1
  {
    if |raw| >= 3 { SextetsLength(raw[3..]); }
  }

  lemma QuantumRoundTrip(x: byte, y: byte, z: byte)
    ensures FirstOctet(x / 4, x % 4 * 16 + y / 16) == x
    ensures SecondOctet(x % 4 * 16 + y / 16, y % 16 * 4 + z / 64) == y
    ensures ThirdOctet(y % 16 * 4 + z / 64, z % 64) == z
  {
  }

  lemma {:induction false} OctetsSextets(raw: Bytes)
    ensures |Sextets(raw)| % 4 != 1
    ensures Octets(Sextets(raw)) == raw
  {
    SextetsLength(raw);
    if |raw| == 1 {
      QuantumRoundTrip(raw[0], 0, 0);
    } else if |raw| == 2 {
      QuantumRoundTrip(raw[0], raw[1], 0);
    } else if |raw| >= 3 {
      OctetsSextets(raw[3..]);
      QuantumRoundTrip(raw[0], raw[1], raw[2]);
      assert Sextets(raw)[4..] == Sextets(raw[3..]);
      assert raw == [raw[0], raw[1], raw[2]] + raw[3..];
    }
  }

  // ---------------------------------------------------------------- text

  function Symbols(a: Alphabet, s: seq<Sextet>): (r: string)
    ensures |r| == |s|
    ensures forall i :: 0 <= i < |s| ==> r[i] == Symbol(a, s[i])
  {
    seq(|s|, i requires 0 <= i < |s| => Symbol(a, s[i]))
  }

  predicate InAlphabet(a: Alphabet, t: string) {
    forall i :: 0 <= i < |t| ==> Value(a, t[i]).Some?
  }

  function Values(a: Alphabet, t: string): (r: seq<Sextet>)
    requires InAlphabet(a, t)
    ensures |r| == |t|
    ensures forall i :: 0 <= i < |t| ==> r[i] == Value(a, t[i]).value
  {
    seq(|t|, i requires 0 <= i < |t| => Value(a, t[i]).value)
  }

  lemma ValuesSymbols(a: Alphabet, s: seq<Sextet>)
    ensures InAlphabet(a, Symbols(a, s))
    ensures Values(a, Symbols(a, s)) == s
  {
    forall i | 0 <= i < |s|
      ensures Value(a, Symbols(a, s)[i]) == Some(s[i])
    {
      SymbolsCorrespond(a, s[i], Symbols(a, s)[i]);
    }
  }

  /** Python's `-n % 4`: what completes the last quantum of four. */
  function PadCount(n: nat): (p: nat)
    ensures p < 4 && (n + p) % 4 == 0
    ensures n % 4 != 1 <==> p <= 2
  {
    (4 - n % 4) % 4
  }

  function Pad(n: nat): (r: string)
    ensures |r| == n && forall i :: 0 <= i < n ==> r[i] == '='
  {
    seq(n, i => '=')
  }

  /** `base64.b64encode` or `base64.urlsafe_b64encode`. */
  function EncodePadded(a: Alphabet, raw: Bytes): string {
    var text := Symbols(a, Sextets(raw));
    text + Pad(PadCount(|text|))
  }

  function StripPad(t: string): (r: string)
    ensures r <= t
  {
    if t != [] && t[|t| - 1] == '=' then StripPad(t[..|t| - 1]) else t
  }

  lemma {:induction false} StripPadAppend(t: string, n: nat)
    requires t == [] || t[|t| - 1] != '='
    ensures StripPad(t + Pad(n)) == t
  {
    if n == 0 {
      assert t + Pad(0) == t;
    } else {
      StripPadAppend(t, n - 1);
      assert (t + Pad(n))[..|t| + n - 1] == t + Pad(n - 1);
    }
  }

  /** `base64.b64decode(..., validate=True)`: whole quanta, at most two pads, known symbols. */
  function DecodePadded(a: Alphabet, t: string): Option<Bytes> {
    var body := StripPad(t);
    if |t| % 4 == 0 && |t| - |body| <= 2 then DecodeBody(a, body) else None
  }

  function DecodeBody(a: Alphabet, body: string): Option<Bytes> {
    if InAlphabet(a, body) && |body| % 4 != 1 then Some(Octets(Values(a, body))) else None
  }

  lemma BodyDecode(a: Alphabet, s: seq<Sextet>)
    requires |s| % 4 != 1
    ensures DecodeBody(a, Symbols(a, s)) == Some(Octets(s))
  {
    ValuesSymbols(a, s);
  }

  lemma PaddedDecode(a: Alphabet, body: string)
    requires |body| % 4 != 1 && (body == [] || body[|body| - 1] != '=')
    ensures DecodePadded(a, body + Pad(PadCount(|body|))) == DecodeBody(a, body)
  {
    StripPadAppend(body, PadCount(|body|));
  }

  /** Padding either alphabet and decoding again returns the octets. */
  lemma DecodeEncodePadded(a: Alphabet, raw: Bytes)
    ensures DecodePadded(a, EncodePadded(a, raw)) == Some(raw)
  {
    var sextets := Sextets(raw);
    SextetsLength(raw);
    OctetsSextets(raw);
    BodyDecode(a, sextets);
    PaddedDecode(a, Symbols(a, sextets));
  }

  // ---------------------------------------------------------------- recovery-drill-oidc

  /** `b64url`. */
  function B64Url(raw: Bytes): string {
    StripPad(EncodePadded(Url, raw))
  }

  /** `decode_b64url`; every refusal is `None`. */
  function DecodeB64Url(value: string): Option<Bytes> {
    if !(0 < |value| <= MAX_TOKEN && InAlphabet(Url, value)) then None
    else
      var raw := DecodePadded(Url, value + Pad(PadCount(|value|)));
      if raw.None? || B64Url(raw.value) != value then None else raw
  }

  lemma B64UrlShape(raw: Bytes)
    ensures B64Url(raw) == Symbols(Url, Sextets(raw))
    ensures |B64Url(raw)| == (4 * |raw| + 2) / 3
    ensures InAlphabet(Url, B64Url(raw))
  {
    var text := Symbols(Url, Sextets(raw));
    StripPadAppend(text, PadCount(|text|));
    SextetsLength(raw);
    ValuesSymbols(Url, Sextets(raw));
  }

  lemma B64UrlInjective(a: Bytes, b: Bytes)
    requires B64Url(a) == B64Url(b)
    ensures a == b
  {
    B64UrlShape(a);
    B64UrlShape(b);
    ValuesSymbols(Url, Sextets(a));
    ValuesSymbols(Url, Sextets(b));
    OctetsSextets(a);
    OctetsSextets(b);
  }

  /** The decoder accepts exactly the canonical images of non-empty octets whose text fits the
      cap, which is 24576 octets, and it inverts the encoder on them. */
  lemma DecodeB64UrlExact(value: string, raw: Bytes)
    ensures DecodeB64Url(value) == Some(raw) <==> 0 < |raw| <= 24576 && value == B64Url(raw)
  {
    B64UrlShape(raw);
    if DecodeB64Url(value) == Some(raw) {
      assert value[|value| - 1] != '=' by { assert Value(Url, value[|value| - 1]).Some?; }
      StripPadAppend(value, PadCount(|value|));
      assert raw == Octets(Values(Url, value));
    }
    if 0 < |raw| <= 24576 && value == B64Url(raw) {
      DecodeEncodePadded(Url, raw);
    }
  }
}
