/** What the octet predicates mean: well-formed UTF-8 is the encoding of Unicode scalar values (section 3
    of RFC 3629), the byte order is decided at the first difference, and hexadecimal text spells every
    octet with two of the sixteen digits. */
module Utf8 {
  import opened Bytes

  type Scalar = n: int | 0 <= n < 0xD800 || 0xE000 <= n < 0x11_0000

  /** The table of section 3 of RFC 3629. */
  function Encode(n: Scalar): Bytes {
    if n < 0x80 then [n]
    else if n < 0x800 then [0xC0 + n / 64, 0x80 + n % 64]
    else if n < 0x1_0000 then [0xE0 + n / 4096, 0x80 + n / 64 % 64, 0x80 + n % 64]
    else [0xF0 + n / 262144, 0x80 + n / 4096 % 64, 0x80 + n / 64 % 64, 0x80 + n % 64]
  }

  function EncodeAll(ns: seq<Scalar>): Bytes {
    if ns == [] then [] else Encode(ns[0]) + EncodeAll(ns[1..])
  }

  lemma EncodedHead(n: Scalar, rest: Bytes)
    ensures Utf8Head(Encode(n) + rest) == |Encode(n)|
  {
    var s := Encode(n) + rest;
    assert forall i :: 0 <= i < |Encode(n)| ==> s[i] == Encode(n)[i];
  }

  lemma TwoOctets(a: byte, b: byte) returns (n: Scalar)
    requires 0xC2 <= a <= 0xDF && Continuation(b)
    ensures Encode(n) == [a, b]
  {
    n := (a - 0xC0) * 64 + (b - 0x80);
  }

  lemma ThreeOctets(a: byte, b: byte, c: byte) returns (n: Scalar)
    requires 0xE0 <= a <= 0xEF && Continuation(b) && Continuation(c)
    requires (a == 0xE0 ==> b >= 0xA0) && (a == 0xED ==> b <= 0x9F)
    ensures Encode(n) == [a, b, c]
  {
    var high := (a - 0xE0) * 64 + (b - 0x80);
    n := high * 64 + (c - 0x80);
    assert n / 64 == high && n % 64 == c - 0x80;
  }

  lemma FourOctets(a: byte, b: byte, c: byte, d: byte) returns (n: Scalar)
    requires 0xF0 <= a <= 0xF4 && Continuation(b) && Continuation(c) && Continuation(d)
    requires (a == 0xF0 ==> b >= 0x90) && (a == 0xF4 ==> b <= 0x8F)
    ensures Encode(n) == [a, b, c, d]
  {
    var top := (a - 0xF0) * 64 + (b - 0x80);
    var high := top * 64 + (c - 0x80);
    n := high * 64 + (d - 0x80);
    assert n / 64 == high && n % 64 == d - 0x80 && high / 64 == top && high % 64 == c - 0x80;
    assert n / 4096 == top && n / 262144 == top / 64;
  }

  lemma HeadIsEncoded(s: Bytes) returns (n: Scalar)
    requires s != [] && Utf8Head(s) > 0
    ensures Encode(n) == s[..Utf8Head(s)]
  {
    var k := Utf8Head(s);
    if k == 1 {
      n := s[0];
    } else if k == 2 {
      n := TwoOctets(s[0], s[1]);
    } else if k == 3 {
      n := ThreeOctets(s[0], s[1], s[2]);
    } else {
      n := FourOctets(s[0], s[1], s[2], s[3]);
    }
  }

  lemma {:induction false} EncodedIsValid(ns: seq<Scalar>)
    ensures ValidUtf8(EncodeAll(ns))
  {
    if ns != [] {
      var rest := EncodeAll(ns[1..]);
      EncodedIsValid(ns[1..]);
      EncodedHead(ns[0], rest);
      assert (Encode(ns[0]) + rest)[|Encode(ns[0])|..] == rest;
    }
  }

  lemma EncodeCons(n: Scalar, more: seq<Scalar>)
    ensures EncodeAll([n] + more) == Encode(n) + EncodeAll(more)
  {
    assert ([n] + more)[1..] == more;
  }

  lemma {:induction false} ValidIsEncoded(s: Bytes) returns (ns: seq<Scalar>)
    requires ValidUtf8(s)
    ensures EncodeAll(ns) == s
  {
    ns := [];
    if s != [] {
      var k := Utf8Head(s);
      var n := HeadIsEncoded(s);
      var more := ValidIsEncoded(s[k..]);
      ns := [n] + more;
      EncodeCons(n, more);
      assert s == s[..k] + s[k..];
    }
  }

  /** Well-formed is exactly: the encoding of some scalar values. */
  lemma ValidUtf8Means(s: Bytes)
    ensures ValidUtf8(s) <==> exists ns :: EncodeAll(ns) == s
  {
    if ValidUtf8(s) {
      var ns := ValidIsEncoded(s);
    } else if ns :| EncodeAll(ns) == s {
      EncodedIsValid(ns);
    }
  }

  // ---------------------------------------------------------------- byte order

  /** The words agree up to `k`, where the first ends or has the smaller octet. */
  predicate SmallerAt(a: Bytes, b: Bytes, k: nat) {
    k <= |a| && k < |b| && a[..k] == b[..k] && (k == |a| || a[k] < b[k])
  }

  lemma SameStart(a: Bytes, b: Bytes, k: nat)
    requires SmallerAt(a, b, k) && k > 0
    ensures a != [] && b != [] && a[0] == b[0]
  {
    assert a[..k][0] == b[..k][0];
  }

  lemma {:induction false} LessMeans(a: Bytes, b: Bytes)
    ensures Less(a, b) <==> exists k: nat :: SmallerAt(a, b, k)
  {
    if a == [] || b == [] || a[0] != b[0] {
      if k: nat :| SmallerAt(a, b, k) {
        if k > 0 {
          SameStart(a, b, k);
        }
      }
      if Less(a, b) {
        assert SmallerAt(a, b, 0);
      }
    } else {
      LessMeans(a[1..], b[1..]);
      if k: nat :| SmallerAt(a, b, k) {
        assert k > 0 && a[..k][1..] == a[1..][..k - 1] && b[..k][1..] == b[1..][..k - 1];
        assert SmallerAt(a[1..], b[1..], k - 1);
      }
      if k: nat :| SmallerAt(a[1..], b[1..], k) {
        assert a[..k + 1] == [a[0]] + a[1..][..k] && b[..k + 1] == [b[0]] + b[1..][..k];
        assert SmallerAt(a, b, k + 1);
      }
    }
  }

  // ---------------------------------------------------------------- hexadecimal

  const HEX_DIGITS := "0123456789abcdef"

  /** Octet `k` is spelled at `2k`, its high half first. */
  lemma {:induction false} HexSpells(s: Bytes, k: nat)
    requires k < |s|
    ensures Hex(s)[2 * k] == HEX_DIGITS[s[k] / 16] as int
    ensures Hex(s)[2 * k + 1] == HEX_DIGITS[s[k] % 16] as int
  {
    DigitSpelled(s[k] / 16);
    DigitSpelled(s[k] % 16);
    if k > 0 {
      HexSpells(s[1..], k - 1);
      assert s[1..][k - 1] == s[k];
    }
  }

  lemma DigitSpelled(v: nat)
    requires v < 16
    ensures HexDigit(v) == HEX_DIGITS[v] as int
  {
  }
}
