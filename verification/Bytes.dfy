/** Octets and the textual conversions that the scripts share: big-endian integers,
    lower-case hexadecimal, canonical and zero-padded decimal, the byte order that
    `sorted` uses, and UTF-8 well-formedness (section 4 of RFC 3629). */
module Bytes {
  type byte = b: int | 0 <= b < 256
  type Bytes = seq<byte>

  const NL: byte := 10
  const CR: byte := 13
  const DOT: byte := 46
  const SLASH: byte := 47
  const BAR: byte := 124

  /** A bytes literal: the code points of an ASCII string. */
  function Ascii(s: string): (r: Bytes)
    requires forall i :: 0 <= i < |s| ==> s[i] < 128 as char
    ensures |r| == |s|
    ensures forall i :: 0 <= i < |s| ==> r[i] == s[i] as int
  {
    seq(|s|, i requires 0 <= i < |s| => s[i] as int)
  }

  predicate StartsWith(s: Bytes, p: Bytes) {
    |p| <= |s| && s[..|p|] == p
  }

  /** The first index at or after `from` that holds `b`, or the length. */
  function Find(s: Bytes, b: byte, from: nat): (i: nat)
    requires from <= |s|
    ensures from <= i <= |s|
    ensures b !in s[from..i]
    ensures i < |s| ==> s[i] == b
    decreases |s| - from
  {
    if from == |s| || s[from] == b then from
    else
      var i := Find(s, b, from + 1);
      assert s[from..i] == [s[from]] + s[from + 1..i];
      i
  }

  /** `Find` is determined by the bytes before the hit. */
  lemma FindUnique(s: Bytes, b: byte, from: nat, at: nat)
    requires from <= at < |s| && s[at] == b && b !in s[from..at]
    ensures Find(s, b, from) == at
  {
  }

  // ---------------------------------------------------------------- byte order

  /** The strict lexicographic order of Python's bytes comparison. */
  predicate Less(a: Bytes, b: Bytes) {
    if b == [] then false
    else if a == [] then true
    else a[0] < b[0] || (a[0] == b[0] && Less(a[1..], b[1..]))
  }

  lemma {:induction false} LessTotal(a: Bytes, b: Bytes)
    ensures Less(a, b) || Less(b, a) || a == b
  {
    if a != [] && b != [] && a[0] == b[0] {
      LessTotal(a[1..], b[1..]);
      if a[1..] == b[1..] {
        assert a == [a[0]] + a[1..] && b == [b[0]] + b[1..];
      }
    }
  }

  lemma {:induction false} LessIrreflexive(a: Bytes)
    ensures !Less(a, a)
  {
    if a != [] { LessIrreflexive(a[1..]); }
  }

  lemma {:induction false} LessTransitive(a: Bytes, b: Bytes, c: Bytes)
    requires Less(a, b) && Less(b, c)
    ensures Less(a, c)
  {
    if a != [] && a[0] == b[0] && b[0] == c[0] {
      LessTransitive(a[1..], b[1..], c[1..]);
    }
  }

  /** A common prefix does not matter to the order. */
  lemma {:induction false} LessPrefix(p: Bytes, a: Bytes, b: Bytes)
    ensures Less(p + a, p + b) == Less(a, b)
  {
    if p == [] {
      assert p + a == a && p + b == b;
    } else {
      LessPrefix(p[1..], a, b);
      assert (p + a)[1..] == p[1..] + a && (p + b)[1..] == p[1..] + b;
    }
  }

  // ---------------------------------------------------------------- integers

  /** `int.from_bytes(b, "big")`. */
  function FromBytes(b: Bytes): nat {
    if b == [] then 0 else FromBytes(b[..|b| - 1]) * 256 + b[|b| - 1]
  }

  /** `int.to_bytes(n, size, "big")`. */
  function ToBytes(n: nat, size: nat): (r: Bytes)
    ensures |r| == size
  {
    if size == 0 then [] else ToBytes(n / 256, size - 1) + [n % 256]
  }

  /** `int.bit_length(n)`. */
  function BitLength(n: nat): nat {
    if n == 0 then 0 else 1 + BitLength(n / 2)
  }

  /** The number of octets that Python's `(n.bit_length() + 7) // 8` computes. */
  function OctetLength(n: nat): nat {
    (BitLength(n) + 7) / 8
  }

  lemma {:induction false} BitLengthOctet(n: nat)
    ensures n >= 256 ==> BitLength(n) == 8 + BitLength(n / 256)
    ensures 0 < n < 256 ==> 1 <= BitLength(n) <= 8
  {
    var h1, h2, h3, h4 := n / 2, n / 4, n / 8, n / 16;
    var h5, h6, h7, h8 := n / 32, n / 64, n / 128, n / 256;
    assert h2 == h1 / 2 && h3 == h2 / 2 && h4 == h3 / 2 && h5 == h4 / 2;
    assert h6 == h5 / 2 && h7 == h6 / 2 && h8 == h7 / 2;
    assert n > 0 ==> BitLength(n) == 1 + BitLength(h1);
    assert h1 > 0 ==> BitLength(h1) == 1 + BitLength(h2);
    assert h2 > 0 ==> BitLength(h2) == 1 + BitLength(h3);
    assert h3 > 0 ==> BitLength(h3) == 1 + BitLength(h4);
    assert h4 > 0 ==> BitLength(h4) == 1 + BitLength(h5);
    assert h5 > 0 ==> BitLength(h5) == 1 + BitLength(h6);
    assert h6 > 0 ==> BitLength(h6) == 1 + BitLength(h7);
    assert h7 > 0 ==> BitLength(h7) == 1 + BitLength(h8);
  }

  lemma OctetLengthStep(n: nat)
    ensures n >= 256 ==> OctetLength(n) == 1 + OctetLength(n / 256)
    ensures 0 < n < 256 ==> OctetLength(n) == 1
    ensures n == 0 ==> OctetLength(n) == 0
  {
    BitLengthOctet(n);
  }

  /** The octets of the minimal length hold the whole number and no leading zero. */
  lemma {:induction false} MinimalOctets(n: nat)
    ensures FromBytes(ToBytes(n, OctetLength(n))) == n
    ensures n > 0 ==> OctetLength(n) > 0 && ToBytes(n, OctetLength(n))[0] != 0
  {
    OctetLengthStep(n);
    if n > 0 {
      MinimalOctets(n / 256);
      var size := OctetLength(n);
      var head := ToBytes(n / 256, size - 1);
      if n < 256 { OctetLengthStep(n / 256); }
      assert ToBytes(n, size) == head + [n % 256];
      assert (head + [n % 256])[..size - 1] == head;
    }
  }

  /** Octets without a leading zero are the minimal octets of their value. */
  lemma {:induction false} MinimalOctetsUnique(b: Bytes)
    requires b == [] || b[0] != 0
    ensures OctetLength(FromBytes(b)) == |b|
    ensures ToBytes(FromBytes(b), |b|) == b
    ensures b != [] ==> FromBytes(b) > 0
  {
    var n := FromBytes(b);
    OctetLengthStep(n);
    if b != [] {
      var head, last := b[..|b| - 1], b[|b| - 1];
      var h := FromBytes(head);
      MinimalOctetsUnique(head);
      DivModOctet(h, last);
      assert n == h * 256 + last;
      assert ToBytes(n, |b|) == ToBytes(h, |head|) + [last];
      assert b == head + [last];
    }
  }

  lemma DivModOctet(h: nat, last: byte)
    ensures (h * 256 + last) / 256 == h && (h * 256 + last) % 256 == last
    ensures (h * 256 + last) % 2 == last % 2
  {
  }

  // ---------------------------------------------------------------- hexadecimal

  predicate IsHex(b: byte) {
    48 <= b <= 57 || 97 <= b <= 102
  }

  function HexDigit(v: int): (b: byte)
    requires 0 <= v < 16
    ensures IsHex(b)
  {
    if v < 10 then 48 + v else 87 + v
  }

  function HexValue(b: byte): (v: int)
    requires IsHex(b)
    ensures 0 <= v < 16
  {
    if b <= 57 then b - 48 else b - 87
  }

  predicate AllHex(s: Bytes) {
    forall i :: 0 <= i < |s| ==> IsHex(s[i])
  }

  /** `bytes.hex()`. */
  function Hex(s: Bytes): (r: Bytes)
    ensures |r| == 2 * |s|
    ensures AllHex(r)
  {
    if s == [] then []
    else [HexDigit(s[0] / 16), HexDigit(s[0] % 16)] + Hex(s[1..])
  }

  /** `bytes.fromhex()` on an even number of lower-case digits. */
  function Unhex(s: Bytes): (r: Bytes)
    requires |s| % 2 == 0 && AllHex(s)
    ensures |r| == |s| / 2
  {
    if s == [] then []
    else [HexValue(s[0]) * 16 + HexValue(s[1])] + Unhex(s[2..])
  }

  lemma {:induction false} UnhexHex(s: Bytes)
    ensures Unhex(Hex(s)) == s
  {
    if s != [] {
      UnhexHex(s[1..]);
      assert Hex(s)[2..] == Hex(s[1..]);
      assert s == [s[0]] + s[1..];
    }
  }

  lemma {:induction false} HexUnhex(s: Bytes)
    requires |s| % 2 == 0 && AllHex(s)
    ensures Hex(Unhex(s)) == s
  {
    if s != [] {
      HexUnhex(s[2..]);
      var first: byte := HexValue(s[0]) * 16 + HexValue(s[1]);
      assert Unhex(s)[0] == first && Unhex(s)[1..] == Unhex(s[2..]);
      assert HexDigit(first / 16) == s[0] && HexDigit(first % 16) == s[1];
      assert s == [s[0], s[1]] + s[2..];
    }
  }

  // ---------------------------------------------------------------- decimal

  predicate IsDigit(b: byte) {
    48 <= b <= 57
  }

  predicate AllDigits(s: Bytes) {
    forall i :: 0 <= i < |s| ==> IsDigit(s[i])
  }

  /** `int(text)` on ASCII digits. */
  function DecValue(s: Bytes): nat
    requires AllDigits(s)
  {
    if s == [] then 0 else DecValue(s[..|s| - 1]) * 10 + (s[|s| - 1] - 48)
  }

  /** `str(n)`. */
  function Dec(n: nat): (r: Bytes)
    ensures |r| > 0 && AllDigits(r)
  {
    if n < 10 then [48 + n] else Dec(n / 10) + [48 + n % 10]
  }

  /** The pattern `0|[1-9][0-9]*`. */
  predicate CanonicalDec(s: Bytes) {
    |s| > 0 && AllDigits(s) && (s[0] == 48 ==> |s| == 1)
  }

  /** Canonical decimal text and natural numbers correspond one to one. */
  lemma {:induction false} DecRoundTrip(n: nat)
    ensures DecValue(Dec(n)) == n
    ensures CanonicalDec(Dec(n))
    ensures n > 0 ==> Dec(n)[0] != 48
  {
    if n >= 10 {
      DecRoundTrip(n / 10);
      assert Dec(n)[..|Dec(n)| - 1] == Dec(n / 10);
    } else {
      assert DecValue([48 + n]) == DecValue([]) * 10 + n;
    }
  }

  lemma {:induction false} DecCanonical(s: Bytes)
    requires CanonicalDec(s)
    ensures Dec(DecValue(s)) == s
    ensures |s| > 1 ==> DecValue(s) >= 10
  {
    var head, last := s[..|s| - 1], s[|s| - 1];
    assert s == head + [last];
    if |s| > 1 {
      DecCanonical(head);
      assert DecValue(head) >= 1 by {
        if |head| == 1 { assert DecValue(head) == DecValue([]) * 10 + (head[0] - 48); }
      }
      assert DecValue(s) / 10 == DecValue(head) && DecValue(s) % 10 == last - 48;
    } else {
      assert DecValue(s) == DecValue([]) * 10 + (last - 48);
    }
  }

  lemma DecInjective(m: nat, n: nat)
    requires Dec(m) == Dec(n)
    ensures m == n
  {
    DecRoundTrip(m);
    DecRoundTrip(n);
  }

  /** `f"{n:0{width}}"` for a number that fits the width. */
  function Padded(n: nat, width: nat): (r: Bytes)
    ensures |r| == width && AllDigits(r)
  {
    if width == 0 then [] else Padded(n / 10, width - 1) + [48 + n % 10]
  }

  function Pow10(k: nat): nat {
    if k == 0 then 1 else 10 * Pow10(k - 1)
  }

  lemma {:induction false} PaddedRoundTrip(n: nat, width: nat)
    requires n < Pow10(width)
    ensures DecValue(Padded(n, width)) == n
  {
    if width > 0 {
      PaddedRoundTrip(n / 10, width - 1);
      assert Padded(n, width)[..width - 1] == Padded(n / 10, width - 1);
    }
  }

  /** Zero padding makes the byte order of the text the numeric order. */
  lemma {:induction false} PaddedOrder(m: nat, n: nat, width: nat)
    requires m < Pow10(width) && n < Pow10(width)
    ensures Less(Padded(m, width), Padded(n, width)) <==> m < n
  {
    if width > 0 {
      PaddedOrder(m / 10, n / 10, width - 1);
      var a, b := Padded(m / 10, width - 1), Padded(n / 10, width - 1);
      var x, y: byte := 48 + m % 10, 48 + n % 10;
      if m / 10 == n / 10 {
        LessPrefix(a, [x], [y]);
      } else {
        PaddedRoundTrip(m / 10, width - 1);
        PaddedRoundTrip(n / 10, width - 1);
        LessExtended(a, b, [x], [y]);
      }
    }
  }

  /** Distinct words of equal length keep their order whatever follows them. */
  lemma {:induction false} LessExtended(a: Bytes, b: Bytes, x: Bytes, y: Bytes)
    requires |a| == |b| && a != b
    ensures Less(a + x, b + y) == Less(a, b)
  {
    assert (a + x)[1..] == a[1..] + x && (b + y)[1..] == b[1..] + y;
    if a[0] == b[0] {
      assert a == [a[0]] + a[1..] && b == [b[0]] + b[1..];
      LessExtended(a[1..], b[1..], x, y);
    }
  }

  /** Words of equal length between a common prefix and a common suffix decide the order. */
  lemma LessMiddle(p: Bytes, a: Bytes, b: Bytes, t: Bytes)
    requires |a| == |b|
    ensures Less(p + a + t, p + b + t) == Less(a, b)
    ensures p + a + t == p + b + t <==> a == b
  {
    assert p + a + t == p + (a + t) && p + b + t == p + (b + t);
    LessPrefix(p, a + t, b + t);
    if a == b {
      LessIrreflexive(a);
      LessIrreflexive(a + t);
    } else {
      LessExtended(a, b, t, t);
      assert (p + a + t)[|p|..|p| + |a|] == a && (p + b + t)[|p|..|p| + |b|] == b;
    }
  }

  // ---------------------------------------------------------------- UTF-8

  predicate Continuation(b: byte) {
    0x80 <= b <= 0xBF
  }

  /** The number of octets of the first encoded scalar value, or 0 when malformed. */
  function Utf8Head(s: Bytes): (n: nat)
    requires s != []
    ensures n <= |s|
  {
    var a := s[0];
    if a < 0x80 then 1
    else if 0xC2 <= a <= 0xDF then
      if |s| >= 2 && Continuation(s[1]) then 2 else 0
    else if 0xE0 <= a <= 0xEF then
      if && |s| >= 3 && Continuation(s[1]) && Continuation(s[2])
         && (a == 0xE0 ==> s[1] >= 0xA0) && (a == 0xED ==> s[1] <= 0x9F)
      then 3 else 0
    else if 0xF0 <= a <= 0xF4 then
      if && |s| >= 4 && Continuation(s[1]) && Continuation(s[2]) && Continuation(s[3])
         && (a == 0xF0 ==> s[1] >= 0x90) && (a == 0xF4 ==> s[1] <= 0x8F)
      then 4 else 0
    else 0
  }

  predicate ValidUtf8(s: Bytes) {
    s == [] || (Utf8Head(s) > 0 && ValidUtf8(s[Utf8Head(s)..]))
  }

  lemma AsciiFirst(b: byte, s: Bytes)
    requires b < 128
    ensures ValidUtf8([b] + s) == ValidUtf8(s)
  {
    assert ([b] + s)[1..] == s;
  }

  predicate IsAscii(s: Bytes) {
    forall i :: 0 <= i < |s| ==> s[i] < 128
  }

  /** ASCII without NUL. */
  predicate Clean(s: Bytes) {
    forall i :: 0 <= i < |s| ==> 0 < s[i] < 128
  }

  lemma {:induction false} AsciiIsUtf8(s: Bytes)
    requires IsAscii(s)
    ensures ValidUtf8(s)
  {
    if s != [] { AsciiIsUtf8(s[1..]); }
  }
}
