/** The quoted-printable reader of the browser fixture (`decode_quoted_printable`), for the
    encoding of section 6.7 of RFC 2045. Each decoded octet is one output character. */
module QuotedPrintable {
  import opened Bytes

  const EQ: byte := 61

  predicate IsHexDigit(b: byte) {
    48 <= b <= 57 || 65 <= b <= 70 || 97 <= b <= 102
  }

  function DigitValue(b: byte): (v: int)
    requires IsHexDigit(b)
    ensures 0 <= v < 16
  {
    if b <= 57 then b - 48 else if b <= 70 then b - 55 else b - 87
  }

  function Octet(h: byte, l: byte): byte
    requires IsHexDigit(h) && IsHexDigit(l)
  {
    DigitValue(h) * 16 + DigitValue(l)
  }

  predicate ByteAt(s: Bytes, i: nat, b: byte) {
    i < |s| && s[i] == b
  }

  predicate EscapeAt(s: Bytes, i: nat) {
    i + 2 < |s| && IsHexDigit(s[i + 1]) && IsHexDigit(s[i + 2])
  }

  /** What the reader puts out from `i` on. */
  function DecodeFrom(s: Bytes, i: nat): Bytes
    requires i <= |s|
    decreases |s| - i
  {
    if i == |s| then []
    else if s[i] == EQ && ByteAt(s, i + 1, NL) then DecodeFrom(s, i + 2)
    else if s[i] == EQ && ByteAt(s, i + 1, CR) && ByteAt(s, i + 2, NL) then DecodeFrom(s, i + 3)
    else if s[i] == EQ && EscapeAt(s, i) then [Octet(s[i + 1], s[i + 2])] + DecodeFrom(s, i + 3)
    else [s[i]] + DecodeFrom(s, i + 1)
  }

  lemma Emitted(out: Bytes, b: byte, rest: Bytes)
    ensures out + ([b] + rest) == (out + [b]) + rest
  {
  }

  /** `decode_quoted_printable(body)`. */
  method Decode(body: Bytes) returns (out: Bytes)
    ensures out == DecodeFrom(body, 0)
  {
    out := [];
    var index := 0;
    while index < |body|
      invariant index <= |body|
      invariant out + DecodeFrom(body, index) == DecodeFrom(body, 0)
    {
      if body[index] == EQ {
        if ByteAt(body, index + 1, NL) {
          index := index + 2;
          continue;
        }
        if ByteAt(body, index + 1, CR) && ByteAt(body, index + 2, NL) {
          index := index + 3;
          continue;
        }
        if EscapeAt(body, index) {
          Emitted(out, Octet(body[index + 1], body[index + 2]), DecodeFrom(body, index + 3));
          out := out + [Octet(body[index + 1], body[index + 2])];
          index := index + 3;
          continue;
        }
      }
      Emitted(out, body[index], DecodeFrom(body, index + 1));
      out := out + [body[index]];
      index := index + 1;
    }
  }

  // ---------------------------------------------------------------- encoders

  /** The pieces an encoder may write: a literal octet, an escape in either case of digits, or a
      soft line break of either kind. */
  datatype Piece = Literal(b: byte) | Escape(h: byte, l: byte) | Soft(crlf: bool)

  predicate Valid(p: Piece) {
    match p
    case Literal(b) => b != EQ
    case Escape(h, l) => IsHexDigit(h) && IsHexDigit(l)
    case Soft(_) => true
  }

  predicate AllValid(pieces: seq<Piece>) {
    forall i :: 0 <= i < |pieces| ==> Valid(pieces[i])
  }

  function Text(p: Piece): Bytes {
    match p
    case Literal(b) => [b]
    case Escape(h, l) => [61, h, l]
    case Soft(crlf) => if crlf then [61, 13, 10] else [61, 10]
  }

  function Print(pieces: seq<Piece>): Bytes {
    if pieces == [] then [] else Text(pieces[0]) + Print(pieces[1..])
  }

  function Meaning(p: Piece): Bytes
    requires Valid(p)
  {
    match p
    case Literal(b) => [b]
    case Escape(h, l) => [Octet(h, l)]
    case Soft(_) => []
  }

  function Meanings(pieces: seq<Piece>): Bytes
    requires AllValid(pieces)
  {
    if pieces == [] then [] else Meaning(pieces[0]) + Meanings(pieces[1..])
  }

  lemma PieceDecoded(s: Bytes, i: nat, p: Piece)
    requires Valid(p) && i + |Text(p)| <= |s| && s[i..i + |Text(p)|] == Text(p)
    ensures DecodeFrom(s, i) == Meaning(p) + DecodeFrom(s, i + |Text(p)|)
  {
    var t := Text(p);
    assert s[i] == t[0];
    assert |t| >= 2 ==> s[i + 1] == t[1];
    assert |t| >= 3 ==> s[i + 2] == t[2];
  }

  lemma FirstText(s: Bytes, i: nat, t: Bytes, rest: Bytes)
    requires i <= |s| && s[i..] == t + rest
    ensures i + |t| <= |s| && s[i..i + |t|] == t && s[i + |t|..] == rest
  {
    var tail := s[i..];
    assert s[i..i + |t|] == tail[..|t|];
    assert s[i + |t|..] == tail[|t|..];
  }

  lemma {:induction false} PrintedDecoded(s: Bytes, i: nat, pieces: seq<Piece>)
    requires AllValid(pieces) && i <= |s| && s[i..] == Print(pieces)
    ensures DecodeFrom(s, i) == Meanings(pieces)
    decreases |pieces|
  {
    if pieces != [] {
      var t := Text(pieces[0]);
      FirstText(s, i, t, Print(pieces[1..]));
      PieceDecoded(s, i, pieces[0]);
      PrintedDecoded(s, i + |t|, pieces[1..]);
    }
  }

  /** Decoding inverts every encoder built from literals, escapes and soft breaks. */
  lemma DecodePrinted(pieces: seq<Piece>)
    requires AllValid(pieces)
    ensures DecodeFrom(Print(pieces), 0) == Meanings(pieces)
  {
    assert Print(pieces)[0..] == Print(pieces);
    PrintedDecoded(Print(pieces), 0, pieces);
  }

  /** Every equals sign starts an escape or a soft break. */
  predicate WellFormed(s: Bytes, i: nat)
    requires i <= |s|
    decreases |s| - i
  {
    if i == |s| then true
    else if s[i] != EQ then WellFormed(s, i + 1)
    else if ByteAt(s, i + 1, NL) then WellFormed(s, i + 2)
    else if ByteAt(s, i + 1, CR) && ByteAt(s, i + 2, NL) then WellFormed(s, i + 3)
    else EscapeAt(s, i) && WellFormed(s, i + 3)
  }

  /** The bodies such encoders write are exactly the well-formed ones. */
  lemma {:induction false} WellFormedIsPrinted(s: Bytes, i: nat) returns (pieces: seq<Piece>)
    requires i <= |s| && WellFormed(s, i)
    ensures AllValid(pieces) && Print(pieces) == s[i..]
    decreases |s| - i
  {
    if i == |s| {
      pieces := [];
    } else {
      var p := if s[i] != EQ then Literal(s[i])
               else if ByteAt(s, i + 1, NL) then Soft(false)
               else if ByteAt(s, i + 1, CR) then Soft(true)
               else Escape(s[i + 1], s[i + 2]);
      var rest := WellFormedIsPrinted(s, i + |Text(p)|);
      pieces := [p] + rest;
      assert pieces[1..] == rest;
      assert s[i..] == s[i..i + |Text(p)|] + s[i + |Text(p)|..];
      assert s[i..i + |Text(p)|] == Text(p);
    }
  }

  lemma PieceWellFormed(s: Bytes, i: nat, p: Piece)
    requires Valid(p) && i + |Text(p)| <= |s| && s[i..i + |Text(p)|] == Text(p)
    requires WellFormed(s, i + |Text(p)|)
    ensures WellFormed(s, i)
  {
    var t := Text(p);
    assert s[i] == t[0];
    assert |t| >= 2 ==> s[i + 1] == t[1];
    assert |t| >= 3 ==> s[i + 2] == t[2];
  }

  lemma {:induction false} PrintedIsWellFormed(s: Bytes, i: nat, pieces: seq<Piece>)
    requires AllValid(pieces) && i <= |s| && s[i..] == Print(pieces)
    ensures WellFormed(s, i)
    decreases |pieces|
  {
    if pieces != [] {
      var t := Text(pieces[0]);
      FirstText(s, i, t, Print(pieces[1..]));
      PrintedIsWellFormed(s, i + |t|, pieces[1..]);
      PieceWellFormed(s, i, pieces[0]);
    }
  }

  // ---------------------------------------------------------------- octets

  const UPPER: Bytes := Ascii("0123456789ABCDEF")
  const LOWER: Bytes := Ascii("0123456789abcdef")

  /** How an encoder writes an octet, or breaks the line: literally, or as an escape with each digit in
      either case. */
  datatype Unit = Plain(b: byte) | Escaped(b: byte, upperHigh: bool, upperLow: bool) | Break(crlf: bool)

  function Digit(v: int, upper: bool): byte
    requires 0 <= v < 16
  {
    if upper then UPPER[v] else LOWER[v]
  }

  /** An equals sign is not written literally. */
  predicate Encodable(units: seq<Unit>) {
    forall i :: 0 <= i < |units| ==> units[i] != Plain(61)
  }

  function PieceOf(u: Unit): Piece {
    match u
    case Plain(b) => Literal(b)
    case Escaped(b, upperHigh, upperLow) => Escape(Digit(b / 16, upperHigh), Digit(b % 16, upperLow))
    case Break(crlf) => Soft(crlf)
  }

  function Encode(units: seq<Unit>): (pieces: seq<Piece>)
    ensures |pieces| == |units|
  {
    if units == [] then [] else [PieceOf(units[0])] + Encode(units[1..])
  }

  /** The octets that are encoded. */
  function Octets(units: seq<Unit>): Bytes {
    if units == [] then [] else (if units[0].Break? then [] else [units[0].b]) + Octets(units[1..])
  }

  lemma DigitBack(v: int, upper: bool)
    requires 0 <= v < 16
    ensures IsHexDigit(Digit(v, upper)) && DigitValue(Digit(v, upper)) == v
  {
    var s := if upper then "0123456789ABCDEF" else "0123456789abcdef";
    assert Digit(v, upper) == s[v] as int;
    assert s[v] as int == if v < 10 then 48 + v else if upper then 55 + v else 87 + v;
  }

  lemma UnitBack(u: Unit)
    requires u != Plain(61)
    ensures Valid(PieceOf(u)) && Meaning(PieceOf(u)) == if u.Break? then [] else [u.b]
  {
    if u.Escaped? {
      DigitBack(u.b / 16, u.upperHigh);
      DigitBack(u.b % 16, u.upperLow);
    }
  }

  lemma {:induction false} UnitsBack(units: seq<Unit>)
    requires Encodable(units)
    ensures AllValid(Encode(units)) && Meanings(Encode(units)) == Octets(units)
  {
    if units != [] {
      UnitBack(units[0]);
      UnitsBack(units[1..]);
      assert Encode(units)[1..] == Encode(units[1..]);
    }
  }

  /** Decoding what an encoder wrote, in any of these ways and with soft breaks anywhere, gives the octets
      back. */
  lemma DecodeEncoded(units: seq<Unit>)
    requires Encodable(units)
    ensures DecodeFrom(Print(Encode(units)), 0) == Octets(units)
  {
    UnitsBack(units);
    DecodePrinted(Encode(units));
  }
}
