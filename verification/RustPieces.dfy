/** An independent description of Rust text: code characters, comments and literals as they are
    written. Masking such a text blanks exactly its comments and literals. */
module RustPieces {
  import opened RustMask

  /** The inside of a block comment; comments nest. */
  datatype Block = Done | Char(c: char, rest: Block) | Nest(inner: Block, rest: Block)

  datatype StringItem = Verbatim(c: char) | Escaped(c: char)

  datatype CharBody = Simple(c: char) | Backslash(c: char) | Byte(h: char, l: char) | Unicode(digits: string)

  datatype Piece =
    | Code(c: char)
    | LineComment(text: string)
    | BlockComment(block: Block)
    | Str(items: seq<StringItem>)
    | Raw(bytes: bool, hashes: nat, text: string)
    | Chr(bytes: bool, body: CharBody)

  // ---------------------------------------------------------------- how pieces are written

  function BlockText(b: Block): string {
    match b
    case Done => "*/"
    case Char(c, rest) => [c] + BlockText(rest)
    case Nest(inner, rest) => "/*" + BlockText(inner) + BlockText(rest)
  }

  function ItemsText(items: seq<StringItem>): string {
    if items == [] then "\""
    else (match items[0] case Verbatim(c) => [c] case Escaped(c) => ['\\', c]) + ItemsText(items[1..])
  }

  function BodyText(b: CharBody): string {
    match b
    case Simple(c) => [c, '\'']
    case Backslash(c) => ['\\', c, '\'']
    case Byte(h, l) => ['\\', 'x', h, l, '\'']
    case Unicode(digits) => "\\u{" + digits + "}'"
  }

  function HashText(n: nat): (t: string)
    ensures |t| == n && forall i :: 0 <= i < n ==> t[i] == '#'
  {
    seq(n, i => '#')
  }

  function Text(p: Piece): string {
    match p
    case Code(c) => [c]
    case LineComment(text) => "//" + text
    case BlockComment(block) => "/*" + BlockText(block)
    case Str(items) => "\"" + ItemsText(items)
    case Raw(bytes, hashes, text) =>
      (if bytes then "br" else "r") + HashText(hashes) + "\"" + text + Closing(hashes)
    case Chr(bytes, body) => (if bytes then "b'" else "'") + BodyText(body)
  }

  function Print(pieces: seq<Piece>): string {
    if pieces == [] then [] else Text(pieces[0]) + Print(pieces[1..])
  }

  function Masked(p: Piece): string {
    if p.Code? then Text(p) else MaskText(Text(p))
  }

  function PrintMasked(pieces: seq<Piece>): string {
    if pieces == [] then [] else Masked(pieces[0]) + PrintMasked(pieces[1..])
  }

  // ---------------------------------------------------------------- where pieces may stand

  predicate At(s: string, pos: nat, t: string) {
    pos + |t| <= |s| && s[pos..pos + |t|] == t
  }

  predicate Is(s: string, i: nat, c: char) {
    i < |s| && s[i] == c
  }

  /** No character of a comment's text starts or ends a comment together with the next one. */
  predicate BlockFits(s: string, pos: nat, b: Block)
    decreases b
  {
    match b
    case Done => true
    case Char(c, rest) =>
      && !(c == '/' && Is(s, pos + 1, '*')) && !(c == '*' && Is(s, pos + 1, '/'))
      && BlockFits(s, pos + 1, rest)
    case Nest(inner, rest) =>
      BlockFits(s, pos + 2, inner) && BlockFits(s, pos + 2 + |BlockText(inner)|, rest)
  }

  predicate ItemFits(i: StringItem) {
    i.Verbatim? ==> i.c != '"' && i.c != '\\'
  }

  const HEX_DIGITS := "0123456789abcdefABCDEF"

  predicate BodyFits(b: CharBody) {
    match b
    case Simple(c) => c != '\'' && c != '\\' && c != '\n'
    case Backslash(c) => c != '\n'
    case Byte(h, l) => h in HEX_DIGITS && l in HEX_DIGITS
    case Unicode(digits) =>
      digits != [] && forall i :: 0 <= i < |digits| ==> digits[i] in HEX_DIGITS || digits[i] == '_'
  }

  lemma HexDigitsAre(c: char)
    ensures IsHexDigit(c) <==> c in HEX_DIGITS
  {
    var h := HEX_DIGITS;
    if '0' <= c <= '9' {
      assert c == h[c as int - 48];
    } else if 'a' <= c <= 'f' {
      assert c == h[c as int - 87];
    } else if 'A' <= c <= 'F' {
      assert c == h[c as int - 49];
    }
  }

  /** A raw string opens here: its prefix, its hashes and its quote. */
  ghost predicate OpensRaw(s: string, pos: nat) {
    exists bytes: bool, n: nat :: n <= 255 && RawHead(s, pos, bytes, n)
  }

  predicate RawHead(s: string, pos: nat, bytes: bool, n: nat) {
    var q := pos + if bytes then 2 else 1;
    At(s, pos, if bytes then "br" else "r") && At(s, q, HashText(n)) && Is(s, q + n, '"')
  }

  /** A character literal stands here. */
  ghost predicate HoldsChr(s: string, pos: nat) {
    exists bytes: bool, body :: ChrHere(s, pos, bytes, body)
  }

  predicate ChrHere(s: string, pos: nat, bytes: bool, body: CharBody) {
    BodyFits(body) && At(s, pos, (if bytes then "b'" else "'") + BodyText(body))
  }

  /** A piece that a literal may follow: not a letter, digit or underscore of a word. */
  predicate EndsWord(alnum: char -> bool, p: Piece) {
    p.Code? && (alnum(p.c) || p.c == '_')
  }

  /** A code character starts no comment or literal with what follows it. A raw identifier such as
      `r#type` is code, and so is a letter before a quote at the end of a word. */
  ghost predicate CodeFits(s: string, pos: nat, inWord: bool)
    requires pos < |s|
  {
    && s[pos] != '"'
    && !(s[pos] == '/' && (Is(s, pos + 1, '/') || Is(s, pos + 1, '*')))
    && (!inWord ==> !OpensRaw(s, pos) && !HoldsChr(s, pos))
  }

  /** The piece may stand at `pos` of the text `s`; `inWord` says that a word ends just before it. */
  ghost predicate Fits(s: string, pos: nat, inWord: bool, p: Piece) {
    && pos < |s| && At(s, pos, Text(p))
    && match p
       case Code(c) => CodeFits(s, pos, inWord)
       case LineComment(text) =>
         '\n' !in text && (pos + |Text(p)| == |s| || Is(s, pos + |Text(p)|, '\n'))
       case BlockComment(block) => BlockFits(s, pos + 2, block)
       case Str(items) => forall i :: 0 <= i < |items| ==> ItemFits(items[i])
       case Raw(bytes, hashes, text) =>
         && !inWord && hashes <= 255
         && forall i :: 0 <= i < |text| ==> !At(text + Closing(hashes), i, Closing(hashes))
       case Chr(bytes, body) => !inWord && BodyFits(body)
  }

  type Fitting = (nat, bool, Piece) -> bool

  /** Every piece may stand where it stands, after the piece before it. */
  predicate Placed(fits: Fitting, ends: Piece -> bool, pos: nat, inWord: bool, pieces: seq<Piece>)
    decreases pieces
  {
    pieces == [] ||
    (&& fits(pos, inWord, pieces[0])
     && Placed(fits, ends, pos + |Text(pieces[0])|, ends(pieces[0]), pieces[1..]))
  }

  ghost function FitsIn(s: string): Fitting {
    (pos: nat, inWord: bool, p: Piece) => Fits(s, pos, inWord, p)
  }

  function Ending(alnum: char -> bool): Piece -> bool {
    (p: Piece) => EndsWord(alnum, p)
  }

  ghost predicate WellFormed(alnum: char -> bool, pieces: seq<Piece>) {
    Placed(FitsIn(Print(pieces)), Ending(alnum), 0, false, pieces)
  }

  // ---------------------------------------------------------------- the scanner finds them

  lemma AtConcat(s: string, pos: nat, a: string, b: string)
    requires At(s, pos, a + b)
    ensures At(s, pos, a) && At(s, pos + |a|, b)
  {
    var w := s[pos..pos + |a + b|];
    assert s[pos..pos + |a|] == w[..|a|] == a;
    assert s[pos + |a|..pos + |a| + |b|] == w[|a|..] == b;
  }

  lemma AtIndex(s: string, pos: nat, t: string, i: nat)
    requires At(s, pos, t) && i < |t|
    ensures s[pos + i] == t[i]
  {
    assert s[pos + i] == s[pos..pos + |t|][i];
  }

  lemma BlockOpens(s: string, pos: nat, depth: nat)
    requires At(s, pos, "/*") && depth >= 1
    ensures BlockEnd(s, pos, depth) == BlockEnd(s, pos + 2, depth + 1)
  {
    AtIndex(s, pos, "/*", 0);
    AtIndex(s, pos, "/*", 1);
  }

  lemma BlockCloses(s: string, pos: nat, depth: nat)
    requires At(s, pos, "*/") && depth >= 1
    ensures BlockEnd(s, pos, depth) == BlockEnd(s, pos + 2, depth - 1)
  {
    AtIndex(s, pos, "*/", 0);
    AtIndex(s, pos, "*/", 1);
  }

  lemma BlockSkips(s: string, pos: nat, depth: nat)
    requires pos + 1 < |s| && depth >= 1
    requires !(s[pos] == '/' && s[pos + 1] == '*') && !(s[pos] == '*' && s[pos + 1] == '/')
    ensures BlockEnd(s, pos, depth) == BlockEnd(s, pos + 1, depth)
  {
  }

  /** The scan leaves a comment that is written well exactly where it closes. */
  lemma {:induction false} BlockFound(s: string, pos: nat, b: Block, depth: nat)
    requires At(s, pos, BlockText(b)) && BlockFits(s, pos, b) && depth >= 1
    ensures BlockEnd(s, pos, depth) == BlockEnd(s, pos + |BlockText(b)|, depth - 1)
    decreases b
  {
    match b
    case Done => BlockCloses(s, pos, depth);
    case Char(c, rest) =>
      AtConcat(s, pos, [c], BlockText(rest));
      AtIndex(s, pos, [c], 0);
      BlockNonEmpty(rest);
      BlockSkips(s, pos, depth);
      BlockFound(s, pos + 1, rest, depth);
    case Nest(inner, rest) => NestFound(s, pos, inner, rest, depth);
  }

  lemma NestText(s: string, pos: nat, inner: Block, rest: Block)
    requires At(s, pos, BlockText(Nest(inner, rest)))
    ensures At(s, pos, "/*") && At(s, pos + 2, BlockText(inner))
    ensures At(s, pos + 2 + |BlockText(inner)|, BlockText(rest))
    ensures |BlockText(Nest(inner, rest))| == 2 + |BlockText(inner)| + |BlockText(rest)|
  {
    AtConcat(s, pos, "/*" + BlockText(inner), BlockText(rest));
    AtConcat(s, pos, "/*", BlockText(inner));
  }

  lemma {:induction false} NestFound(s: string, pos: nat, inner: Block, rest: Block, depth: nat)
    requires At(s, pos, BlockText(Nest(inner, rest))) && BlockFits(s, pos, Nest(inner, rest))
    requires depth >= 1
    ensures BlockEnd(s, pos, depth)
            == BlockEnd(s, pos + |BlockText(Nest(inner, rest))|, depth - 1)
    decreases Nest(inner, rest), 0
  {
    NestText(s, pos, inner, rest);
    var p := pos + 2;
    var q := p + |BlockText(inner)|;
    assert BlockFits(s, p, inner) && BlockFits(s, q, rest);
    assert BlockEnd(s, pos, depth) == BlockEnd(s, p, depth + 1) by { BlockOpens(s, pos, depth); }
    assert BlockEnd(s, p, depth + 1) == BlockEnd(s, q, depth) by { BlockFound(s, p, inner, depth + 1); }
    BlockFound(s, q, rest, depth);
  }

  lemma BlockNonEmpty(b: Block)
    ensures |BlockText(b)| >= 2
    decreases b
  {
  }

  lemma {:induction false} ItemsFound(s: string, pos: nat, items: seq<StringItem>)
    requires At(s, pos, ItemsText(items)) && forall i :: 0 <= i < |items| ==> ItemFits(items[i])
    ensures StringEnd(s, pos) == pos + |ItemsText(items)|
    decreases items
  {
    if items == [] {
      AtIndex(s, pos, "\"", 0);
    } else {
      var first := match items[0] case Verbatim(c) => [c] case Escaped(c) => ['\\', c];
      assert ItemsText(items) == first + ItemsText(items[1..]);
      AtConcat(s, pos, first, ItemsText(items[1..]));
      AtIndex(s, pos, first, 0);
      ItemsFound(s, pos + |first|, items[1..]);
    }
  }

  lemma {:induction false} HashesFound(s: string, pos: nat, n: nat, limit: nat)
    requires At(s, pos, HashText(n)) && n <= limit && !Is(s, pos + n, '#')
    ensures Hashes(s, pos, limit) == n
    decreases n
  {
    if n > 0 {
      AtIndex(s, pos, HashText(n), 0);
      assert HashText(n) == "#" + HashText(n - 1);
      AtConcat(s, pos, "#", HashText(n - 1));
      HashesFound(s, pos + 1, n - 1, limit - 1);
    }
  }

  lemma {:induction false} ClosingFound(s: string, pos: nat, text: string, closing: string)
    requires At(s, pos, text + closing) && closing != []
    requires forall i :: 0 <= i < |text| ==> !At(text + closing, i, closing)
    ensures FindEnd(s, closing, pos) == pos + |text + closing|
    decreases text
  {
    if text == [] {
      assert text + closing == closing;
    } else {
      assert text + closing == [text[0]] + (text[1..] + closing);
      AtConcat(s, pos, [text[0]], text[1..] + closing);
      assert s[pos..pos + |closing|] == (text + closing)[0..|closing|];
      assert !At(text + closing, 0, closing);
      forall i | 0 <= i < |text[1..]|
        ensures !At(text[1..] + closing, i, closing)
      {
        assert !At(text + closing, i + 1, closing);
        assert (text + closing)[i + 1..][..|closing|] == (text[1..] + closing)[i..][..|closing|];
      }
      ClosingFound(s, pos + 1, text[1..], closing);
    }
  }

  lemma Regrouped(a: string, b: string, c: string, d: string, e: string)
    ensures a + b + c + d + e == a + (b + (c + (d + e)))
  {
  }

  /** The three parts of a raw string: prefix and hashes, quote, inside. */
  lemma RawParts(s: string, pos: nat, p: Piece)
    requires p.Raw? && At(s, pos, Text(p))
    ensures var prefix := if p.bytes then "br" else "r";
            var q := pos + |prefix| + p.hashes;
            && At(s, pos, prefix) && At(s, pos + |prefix|, HashText(p.hashes))
            && At(s, q, "\"") && At(s, q + 1, p.text + Closing(p.hashes))
            && |Text(p)| == |prefix| + p.hashes + 1 + |p.text + Closing(p.hashes)|
  {
    var prefix := if p.bytes then "br" else "r";
    var hashes, inside := HashText(p.hashes), p.text + Closing(p.hashes);
    Regrouped(prefix, hashes, "\"", p.text, Closing(p.hashes));
    AtConcat(s, pos, prefix, hashes + ("\"" + inside));
    AtConcat(s, pos + |prefix|, hashes, "\"" + inside);
    AtConcat(s, pos + |prefix| + p.hashes, "\"", inside);
  }

  lemma RawOpens(s: string, pos: nat, p: Piece)
    requires p.Raw? && At(s, pos, Text(p)) && p.hashes <= 255 && pos < |s|
    ensures RawPrefix(s, pos) == pos + (if p.bytes then 2 else 1)
    ensures RawBody(s, pos) == RawPrefix(s, pos) + p.hashes + 1
    ensures s[pos] != '/'
  {
    RawParts(s, pos, p);
    AtIndex(s, pos + (if p.bytes then 2 else 1) + p.hashes, "\"", 0);
    HeadBody(s, pos, p.bytes, p.hashes);
  }

  lemma HeadBody(s: string, pos: nat, bytes: bool, n: nat)
    requires pos < |s| && n <= 255 && RawHead(s, pos, bytes, n)
    ensures RawPrefix(s, pos) == pos + (if bytes then 2 else 1)
    ensures RawBody(s, pos) == RawPrefix(s, pos) + n + 1
    ensures s[pos] != '/'
  {
    RawHeadPrefix(s, pos, bytes, n);
    HashesFound(s, RawPrefix(s, pos), n, 255);
  }

  lemma RawHeadPrefix(s: string, pos: nat, bytes: bool, n: nat)
    requires pos < |s| && RawHead(s, pos, bytes, n)
    ensures RawPrefix(s, pos) == pos + (if bytes then 2 else 1) && s[pos] != '/'
  {
    if bytes {
      AtIndex(s, pos, "br", 0);
      AtIndex(s, pos, "br", 1);
    } else {
      AtIndex(s, pos, "r", 0);
    }
  }

  lemma RawFound(alnum: char -> bool, s: string, pos: nat, p: Piece)
    requires p.Raw? && pos < |s| && At(s, pos, Text(p)) && TokenStart(alnum, s, pos) && p.hashes <= 255
    requires forall i :: 0 <= i < |p.text| ==> !At(p.text + Closing(p.hashes), i, Closing(p.hashes))
    ensures TokenEnd(alnum, s, pos) == pos + |Text(p)|
  {
    RawOpens(s, pos, p);
    RawCloses(s, pos, p);
    RawToken(alnum, s, pos);
  }

  lemma RawCloses(s: string, pos: nat, p: Piece)
    requires p.Raw? && pos < |s| && At(s, pos, Text(p)) && p.hashes <= 255
    requires RawPrefix(s, pos) == pos + (if p.bytes then 2 else 1)
    requires RawBody(s, pos) == RawPrefix(s, pos) + p.hashes + 1
    requires forall i :: 0 <= i < |p.text| ==> !At(p.text + Closing(p.hashes), i, Closing(p.hashes))
    ensures RawEnd(s, pos, RawBody(s, pos)) == pos + |Text(p)|
  {
    RawParts(s, pos, p);
    ClosingFound(s, RawBody(s, pos), p.text, Closing(p.hashes));
  }

  lemma RawToken(alnum: char -> bool, s: string, pos: nat)
    requires pos < |s| && TokenStart(alnum, s, pos) && RawBody(s, pos) != 0 && s[pos] != '/'
    ensures TokenEnd(alnum, s, pos) == RawEnd(s, pos, RawBody(s, pos))
  {
  }

  lemma UnicodeText(s: string, q: nat, digits: string)
    requires At(s, q, BodyText(Unicode(digits)))
    ensures At(s, q, "\\u{") && At(s, q + 3, digits) && At(s, q + 3 + |digits|, "}'")
  {
    assert BodyText(Unicode(digits)) == "\\u{" + (digits + "}'");
    AtConcat(s, q, "\\u{", digits + "}'");
    AtConcat(s, q + 3, digits, "}'");
  }

  lemma DigitsFound(s: string, pos: nat, digits: string)
    requires At(s, pos, digits) && Is(s, pos + |digits|, '}')
    requires forall i :: 0 <= i < |digits| ==> IsHexDigit(digits[i]) || digits[i] == '_'
    ensures HexRun(s, pos) == pos + |digits|
  {
    forall i | pos <= i < pos + |digits|
      ensures IsHexDigit(s[i]) || s[i] == '_'
    {
      AtIndex(s, pos, digits, i - pos);
    }
    HexRunFound(s, pos, pos + |digits|);
  }

  /** `BodyFits` in the scanner's terms. */
  predicate Scans(b: CharBody) {
    match b
    case Simple(c) => c != '\'' && c != '\\' && c != '\n'
    case Backslash(c) => c != '\n'
    case Byte(h, l) => IsHexDigit(h) && IsHexDigit(l)
    case Unicode(digits) =>
      digits != [] && forall i :: 0 <= i < |digits| ==> IsHexDigit(digits[i]) || digits[i] == '_'
  }

  lemma FitsScans(b: CharBody)
    ensures BodyFits(b) <==> Scans(b)
  {
    match b
    case Byte(h, l) => HexDigitsAre(h); HexDigitsAre(l);
    case Unicode(digits) =>
      forall i | 0 <= i < |digits| ensures IsHexDigit(digits[i]) <==> digits[i] in HEX_DIGITS {
        HexDigitsAre(digits[i]);
      }
    case _ =>
  }

  lemma UnicodeFound(s: string, q: nat, digits: string)
    requires At(s, q, BodyText(Unicode(digits))) && Scans(Unicode(digits))
    ensures CharClose(s, q) == q + |digits| + 4
  {
    var h := q + 3 + |digits|;
    UnicodeText(s, q, digits);
    AtIndex(s, h, "}'", 0);
    AtIndex(s, h, "}'", 1);
    DigitsFound(s, q + 3, digits);
    AtIndex(s, q, "\\u{", 0);
    AtIndex(s, q, "\\u{", 1);
    AtIndex(s, q, "\\u{", 2);
  }

  lemma BodyFound(s: string, q: nat, body: CharBody)
    requires At(s, q, BodyText(body)) && Scans(body)
    ensures CharClose(s, q) == q + |BodyText(body)| - 1
  {
    var t := BodyText(body);
    if body.Unicode? {
      UnicodeFound(s, q, body.digits);
    } else {
      AtIndex(s, q, t, 0);
      AtIndex(s, q, t, 1);
      if body.Backslash? || body.Byte? { AtIndex(s, q, t, 2); }
      if body.Byte? {
        AtIndex(s, q, t, 3);
        AtIndex(s, q, t, 4);
      }
    }
  }

  lemma {:induction false} HexRunFound(s: string, pos: nat, end: nat)
    requires pos <= end < |s|
    requires forall i :: pos <= i < end ==> IsHexDigit(s[i]) || s[i] == '_'
    requires !IsHexDigit(s[end]) && s[end] != '_'
    ensures HexRun(s, pos) == end
    decreases end - pos
  {
    if pos < end { HexRunFound(s, pos + 1, end); }
  }

  lemma ChrOpens(s: string, pos: nat, bytes: bool, body: CharBody)
    requires pos < |s| && At(s, pos, (if bytes then "b'" else "'") + BodyText(body))
    ensures CharInside(s, pos) == pos + (if bytes then 2 else 1)
    ensures At(s, CharInside(s, pos), BodyText(body))
  {
    var prefix := if bytes then "b'" else "'";
    AtConcat(s, pos, prefix, BodyText(body));
    AtIndex(s, pos, prefix, 0);
    if bytes { AtIndex(s, pos, prefix, 1); }
  }

  lemma ChrFound(alnum: char -> bool, s: string, pos: nat, bytes: bool, body: CharBody)
    requires pos < |s| && At(s, pos, (if bytes then "b'" else "'") + BodyText(body))
    requires TokenStart(alnum, s, pos) && BodyFits(body)
    ensures TokenEnd(alnum, s, pos) == pos + (if bytes then 2 else 1) + |BodyText(body)|
  {
    ChrOpens(s, pos, bytes, body);
    FitsScans(body);
    BodyFound(s, CharInside(s, pos), body);
    ChrToken(alnum, s, pos, CharInside(s, pos));
  }

  lemma ChrToken(alnum: char -> bool, s: string, pos: nat, q: nat)
    requires pos < |s| && TokenStart(alnum, s, pos)
    requires q == CharInside(s, pos) && q != 0
    requires CharClose(s, q) != 0
    ensures TokenEnd(alnum, s, pos) == CharClose(s, q) + 1
  {
    assert RawPrefix(s, pos) == 0;
  }

  lemma {:induction false} HashesAre(s: string, pos: nat, limit: nat)
    requires pos <= |s|
    ensures At(s, pos, HashText(Hashes(s, pos, limit)))
    decreases limit
  {
    var n := Hashes(s, pos, limit);
    if n > 0 {
      HashesAre(s, pos + 1, limit - 1);
      assert HashText(n) == "#" + HashText(n - 1);
      assert s[pos..pos + n] == [s[pos]] + s[pos + 1..pos + n];
    }
  }

  lemma RawBodyOpens(s: string, pos: nat)
    requires pos < |s| && RawBody(s, pos) != 0
    ensures OpensRaw(s, pos)
  {
    HashesAre(s, RawPrefix(s, pos), 255);
    HeadOpens(s, pos, LooksAt(s, pos, 'b', 'r'), Hashes(s, RawPrefix(s, pos), 255));
  }

  lemma HeadOpens(s: string, pos: nat, bytes: bool, n: nat)
    requires pos < |s| && n <= 255 && if bytes then LooksAt(s, pos, 'b', 'r') else s[pos] == 'r'
    requires var q := pos + if bytes then 2 else 1; At(s, q, HashText(n)) && Is(s, q + n, '"')
    ensures OpensRaw(s, pos)
  {
    assert bytes ==> s[pos..pos + 2] == "br";
    assert !bytes ==> s[pos..pos + 1] == "r";
    assert RawHead(s, pos, bytes, n);
  }

  lemma OpensRawBody(s: string, pos: nat)
    requires pos < |s| && OpensRaw(s, pos)
    ensures RawBody(s, pos) != 0
  {
    var bytes: bool, n: nat :| n <= 255 && RawHead(s, pos, bytes, n);
    HeadBody(s, pos, bytes, n);
  }

  /** The body of the literal that closes at `CharClose`. */
  function BodyAt(s: string, q: nat): CharBody
    requires CharClose(s, q) != 0
  {
    if s[q] != '\\' then Simple(s[q])
    else if LooksAt(s, q + 1, 'u', '{') then Unicode(s[q + 3..HexRun(s, q + 3)])
    else if CharClose(s, q) == q + 4 then Byte(s[q + 2], s[q + 3])
    else Backslash(s[q + 1])
  }

  lemma AtAppend(s: string, pos: nat, a: string, b: string)
    requires At(s, pos, a) && At(s, pos + |a|, b)
    ensures At(s, pos, a + b)
  {
    assert s[pos..pos + |a + b|] == s[pos..pos + |a|] + s[pos + |a|..pos + |a| + |b|];
  }

  lemma UnicodeIsAt(s: string, q: nat, h: nat)
    requires q + 3 <= h && h + 1 < |s| && s[q] == '\\' && s[q + 1] == 'u' && s[q + 2] == '{'
    requires s[h] == '}' && s[h + 1] == '\''
    ensures At(s, q, BodyText(Unicode(s[q + 3..h])))
  {
    var digits := s[q + 3..h];
    assert At(s, q, "\\u{") && At(s, h, "}'");
    AtAppend(s, q, "\\u{", digits);
    AtAppend(s, q, "\\u{" + digits, "}'");
  }

  lemma BodyFitsAt(s: string, q: nat)
    requires CharClose(s, q) != 0
    ensures BodyFits(BodyAt(s, q))
  {
    FitsScans(BodyAt(s, q));
  }

  lemma BodyIsAt(s: string, q: nat)
    requires CharClose(s, q) != 0
    ensures At(s, q, BodyText(BodyAt(s, q)))
  {
    if s[q] == '\\' && LooksAt(s, q + 1, 'u', '{') {
      UnicodeIsAt(s, q, HexRun(s, q + 3));
    } else {
      assert s[q..CharClose(s, q) + 1] == BodyText(BodyAt(s, q));
    }
  }

  lemma CharEndHolds(s: string, pos: nat)
    requires pos < |s| && CharEnd(s, pos) != 0
    ensures HoldsChr(s, pos)
  {
    var q := CharInside(s, pos);
    BodyFitsAt(s, q);
    BodyIsAt(s, q);
    var bytes := s[pos] == 'b';
    var prefix, text := if bytes then "b'" else "'", BodyText(BodyAt(s, q));
    assert At(s, pos, prefix);
    AtAppend(s, pos, prefix, text);
    assert ChrHere(s, pos, bytes, BodyAt(s, q));
  }

  lemma HoldsCharEnd(s: string, pos: nat)
    requires pos < |s| && HoldsChr(s, pos)
    ensures CharEnd(s, pos) != 0
  {
    var bytes: bool, body :| ChrHere(s, pos, bytes, body);
    ChrOpens(s, pos, bytes, body);
    FitsScans(body);
    BodyFound(s, CharInside(s, pos), body);
  }

  /** The scanner stands after a word exactly if the pieces say so, or where it does not matter. */
  predicate Agrees(alnum: char -> bool, s: string, pos: nat, inWord: bool) {
    pos < |s| ==> TokenStart(alnum, s, pos) == !inWord || s[pos] == '\n'
  }

  /** A position is code exactly where no comment or literal starts. */
  lemma CodeFound(alnum: char -> bool, s: string, pos: nat, inWord: bool)
    requires pos < |s| && Agrees(alnum, s, pos, inWord)
    ensures TokenEnd(alnum, s, pos) == pos <==> CodeFits(s, pos, inWord)
  {
    NothingAtBreak(s, pos);
    OpeningsExact(s, pos);
    TokenStarts(alnum, s, pos);
  }

  lemma NothingAtBreak(s: string, pos: nat)
    requires pos < |s|
    ensures s[pos] == '\n' ==> RawBody(s, pos) == 0 && CharEnd(s, pos) == 0
  {
  }

  lemma OpeningsExact(s: string, pos: nat)
    requires pos < |s|
    ensures OpensRaw(s, pos) <==> RawBody(s, pos) != 0
    ensures HoldsChr(s, pos) <==> CharEnd(s, pos) != 0
  {
    if OpensRaw(s, pos) { OpensRawBody(s, pos); }
    if RawBody(s, pos) != 0 { RawBodyOpens(s, pos); }
    if HoldsChr(s, pos) { HoldsCharEnd(s, pos); }
    if CharEnd(s, pos) != 0 { CharEndHolds(s, pos); }
  }

  lemma TokenStarts(alnum: char -> bool, s: string, pos: nat)
    requires pos < |s|
    ensures TokenEnd(alnum, s, pos) > pos <==>
            || LooksAt(s, pos, '/', '/') || LooksAt(s, pos, '/', '*') || s[pos] == '"'
            || (TokenStart(alnum, s, pos) && (RawBody(s, pos) != 0 || CharEnd(s, pos) != 0))
  {
    TokenProgress(alnum, s, pos);
  }

  lemma LineFound(alnum: char -> bool, s: string, pos: nat, text: string)
    requires pos < |s| && At(s, pos, "//" + text) && '\n' !in text
    requires var e := pos + |text| + 2; e == |s| || s[e] == '\n'
    ensures TokenEnd(alnum, s, pos) == pos + |text| + 2
  {
    AtConcat(s, pos, "//", text);
    AtIndex(s, pos, "//", 0);
    AtIndex(s, pos, "//", 1);
    forall i | pos <= i < pos + |text| + 2
      ensures s[i] != '\n'
    {
      if i >= pos + 2 { AtIndex(s, pos + 2, text, i - pos - 2); }
    }
    LineToken(alnum, s, pos, pos + |text| + 2);
  }

  lemma LineToken(alnum: char -> bool, s: string, pos: nat, e: nat)
    requires pos < e <= |s| && LooksAt(s, pos, '/', '/')
    requires (forall i :: pos <= i < e ==> s[i] != '\n') && (e == |s| || s[e] == '\n')
    ensures TokenEnd(alnum, s, pos) == e
  {
  }

  lemma BlockCommentFound(alnum: char -> bool, s: string, pos: nat, block: Block)
    requires pos < |s| && At(s, pos, "/*" + BlockText(block)) && BlockFits(s, pos + 2, block)
    ensures TokenEnd(alnum, s, pos) == pos + 2 + |BlockText(block)|
  {
    AtConcat(s, pos, "/*", BlockText(block));
    AtIndex(s, pos, "/*", 0);
    AtIndex(s, pos, "/*", 1);
    BlockFound(s, pos + 2, block, 1);
    BlockToken(alnum, s, pos);
  }

  lemma BlockToken(alnum: char -> bool, s: string, pos: nat)
    requires LooksAt(s, pos, '/', '*')
    ensures TokenEnd(alnum, s, pos) == BlockEnd(s, pos + 2, 1)
    ensures forall e: nat :: e <= |s| ==> BlockEnd(s, e, 0) == e
  {
  }

  lemma StrFound(alnum: char -> bool, s: string, pos: nat, items: seq<StringItem>)
    requires pos < |s| && At(s, pos, "\"" + ItemsText(items))
    requires forall i :: 0 <= i < |items| ==> ItemFits(items[i])
    ensures TokenEnd(alnum, s, pos) == pos + 1 + |ItemsText(items)|
  {
    AtConcat(s, pos, "\"", ItemsText(items));
    AtIndex(s, pos, "\"", 0);
    ItemsFound(s, pos + 1, items);
    StrToken(alnum, s, pos);
  }

  lemma StrToken(alnum: char -> bool, s: string, pos: nat)
    requires pos < |s| && s[pos] == '"'
    ensures TokenEnd(alnum, s, pos) == StringEnd(s, pos + 1)
  {
  }

  /** The scanner finds each piece: a token ends where its text ends, and code is no token. */
  lemma PieceFound(alnum: char -> bool, s: string, pos: nat, inWord: bool, p: Piece)
    requires Fits(s, pos, inWord, p) && Agrees(alnum, s, pos, inWord)
    ensures TokenEnd(alnum, s, pos) == if p.Code? then pos else pos + |Text(p)|
  {
    match p
    case Code(c) => CodeFound(alnum, s, pos, inWord);
    case LineComment(text) => LineFound(alnum, s, pos, text);
    case BlockComment(block) => BlockCommentFound(alnum, s, pos, block);
    case Str(items) => StrFound(alnum, s, pos, items);
    case Raw(_, _, _) => FirstVisible(s, pos, p); RawFound(alnum, s, pos, p);
    case Chr(bytes, body) => FirstVisible(s, pos, p); ChrFound(alnum, s, pos, bytes, body);
  }

  lemma FirstVisible(s: string, pos: nat, p: Piece)
    requires pos < |s| && At(s, pos, Text(p)) && (p.Raw? || p.Chr?)
    ensures s[pos] != '\n'
  {
    AtIndex(s, pos, Text(p), 0);
  }

  lemma {:induction false} BlockEndsInSlash(b: Block)
    ensures |BlockText(b)| >= 2 && BlockText(b)[|BlockText(b)| - 1] == '/'
    decreases b
  {
    match b
    case Done =>
    case Char(_, rest) => BlockEndsInSlash(rest);
    case Nest(_, rest) => BlockEndsInSlash(rest);
  }

  lemma {:induction false} ItemsEndInQuote(items: seq<StringItem>)
    ensures ItemsText(items) != [] && ItemsText(items)[|ItemsText(items)| - 1] == '"'
    decreases items
  {
    if items != [] {
      ItemsEndInQuote(items[1..]);
    }
  }

  /** A comment or literal ends in punctuation, but for a line comment. */
  lemma LastCharacter(p: Piece)
    requires !p.Code? && !p.LineComment?
    ensures |Text(p)| >= 1 && Text(p)[|Text(p)| - 1] in ['"', '\'', '#', '/']
  {
    match p
    case BlockComment(block) => BlockEndsInSlash(block);
    case Str(items) => ItemsEndInQuote(items);
    case Raw(_, hashes, _) => assert Closing(hashes)[hashes] in ['"', '#'];
    case Chr(_, body) => BodyEndsInQuote(body);
  }

  lemma BodyEndsInQuote(b: CharBody)
    ensures |BodyText(b)| >= 1 && BodyText(b)[|BodyText(b)| - 1] == '\''
  {
  }

  /** After a piece, the scanner stands in a word exactly if the piece ends one. */
  lemma AgreesAfter(alnum: char -> bool, s: string, pos: nat, inWord: bool, p: Piece)
    requires Punctuation(alnum) && Fits(s, pos, inWord, p)
    ensures Agrees(alnum, s, pos + |Text(p)|, EndsWord(alnum, p))
  {
    var t := Text(p);
    TextNonEmpty(p);
    if pos + |t| < |s| && !p.LineComment? {
      AtIndex(s, pos, t, |t| - 1);
      if !p.Code? {
        LastCharacter(p);
      }
    }
  }

  lemma TextNonEmpty(p: Piece)
    ensures |Text(p)| >= 1 && (p.Code? ==> |Text(p)| == 1)
  {
  }

  /** The scanner `end` cuts the text at the pieces. */
  ghost predicate CutAt(end: nat -> nat, s: string, pos: nat, pieces: seq<Piece>)
    decreases pieces
  {
    pieces == [] ||
    (var p := pieces[0];
     && At(s, pos, Text(p)) && end(pos) == (if p.Code? then pos else pos + |Text(p)|)
     && CutAt(end, s, pos + |Text(p)|, pieces[1..]))
  }

  /** The scanner `end` finds every piece where it may stand, and then agrees with the pieces again. */
  ghost predicate Finds(end: nat -> nat, s: string, fits: Fitting, ends: Piece -> bool, agrees: (nat, bool) -> bool) {
    forall pos: nat, inWord, p {:trigger fits(pos, inWord, p)} ::
      fits(pos, inWord, p) && agrees(pos, inWord) ==>
        && At(s, pos, Text(p)) && end(pos) == (if p.Code? then pos else pos + |Text(p)|)
        && agrees(pos + |Text(p)|, ends(p))
  }

  lemma {:induction false} PiecesCut(end: nat -> nat, s: string, fits: Fitting, ends: Piece -> bool,
                                     agrees: (nat, bool) -> bool, pos: nat, inWord: bool, pieces: seq<Piece>)
    requires Finds(end, s, fits, ends, agrees) && Placed(fits, ends, pos, inWord, pieces) && agrees(pos, inWord)
    ensures CutAt(end, s, pos, pieces)
    decreases pieces
  {
    if pieces != [] {
      PiecesCut(end, s, fits, ends, agrees, pos + |Text(pieces[0])|, ends(pieces[0]), pieces[1..]);
    }
  }

  lemma {:induction false} CutMasked(end: nat -> nat, s: string, pos: nat, pieces: seq<Piece>)
    requires Scanner(end, |s|) && CutAt(end, s, pos, pieces)
    requires pos <= |s| && s[pos..] == Print(pieces)
    ensures MaskFrom(end, s, pos) == PrintMasked(pieces)
    decreases pieces
  {
    if pieces != [] {
      var text, rest := Text(pieces[0]), Print(pieces[1..]);
      TextNonEmpty(pieces[0]);
      var next := pos + |text|;
      assert s[pos..] == text + rest;
      assert s[next..] == rest;
      assert s[pos..next] == text && Next(end, pos) == next;
      var item := if end(pos) == pos then text else MaskText(text);
      assert item == Masked(pieces[0]);
      assert MaskFrom(end, s, pos) == item + MaskFrom(end, s, next);
      CutMasked(end, s, next, pieces[1..]);
    }
  }

  /** Masking a text written from pieces copies its code and blanks its comments and literals,
      character for character, and nothing else. */
  lemma MaskOfPieces(alnum: char -> bool, pieces: seq<Piece>)
    requires Punctuation(alnum) && WellFormed(alnum, pieces)
    ensures Mask(alnum, Print(pieces)) == PrintMasked(pieces)
  {
    var s := Print(pieces);
    var end, fits := Ends(alnum, s), FitsIn(s);
    var agrees := (pos: nat, inWord: bool) => Agrees(alnum, s, pos, inWord);
    forall pos: nat, inWord, p | Fits(s, pos, inWord, p) && Agrees(alnum, s, pos, inWord)
      ensures end(pos) == if p.Code? then pos else pos + |Text(p)|
      ensures Agrees(alnum, s, pos + |Text(p)|, EndsWord(alnum, p))
    {
      PieceFound(alnum, s, pos, inWord, p);
      AgreesAfter(alnum, s, pos, inWord, p);
    }
    PiecesCut(end, s, fits, Ending(alnum), agrees, 0, false, pieces);
    assert s[0..] == s;
    CutMasked(end, s, 0, pieces);
  }
}
