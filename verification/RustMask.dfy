/** The Rust lexer mask of the module-boundary check (`masked_rust_source`): comments, string
    literals and character literals become spaces, and line breaks stay. `str.isalnum` is the
    parameter `alnum`; all that is needed of it is that punctuation is not alphanumeric. */
module RustMask {

  ghost predicate Punctuation(alnum: char -> bool) {
    !alnum('"') && !alnum('\'') && !alnum('#') && !alnum('/')
  }

  // ---------------------------------------------------------------- literals and searches

  predicate LooksAt(s: string, pos: nat, a: char, b: char) {
    pos + 1 < |s| && s[pos] == a && s[pos + 1] == b
  }

  /** The first index at or after `pos` that holds `c`, or the length. */
  function FindChar(s: string, c: char, pos: nat): (r: nat)
    requires pos <= |s|
    ensures pos <= r <= |s|
    ensures r < |s| ==> s[r] == c
    ensures forall i :: pos <= i < r ==> s[i] != c
    decreases |s| - pos
  {
    if pos == |s| || s[pos] == c then pos else FindChar(s, c, pos + 1)
  }

  /** The end of the first occurrence of `pattern` at or after `pos`, or the length. */
  function FindEnd(s: string, pattern: string, pos: nat): (r: nat)
    requires pos <= |s|
    ensures pos <= r <= |s|
    decreases |s| - pos
  {
    if pos + |pattern| > |s| then |s|
    else if s[pos..pos + |pattern|] == pattern then pos + |pattern|
    else if pos == |s| then |s|
    else FindEnd(s, pattern, pos + 1)
  }

  /** The end of a nested block comment that is open `depth` times. */
  function BlockEnd(s: string, pos: nat, depth: nat): (r: nat)
    requires pos <= |s|
    ensures pos <= r <= |s|
    decreases |s| - pos
  {
    if pos == |s| || depth == 0 then pos
    else if LooksAt(s, pos, '/', '*') then BlockEnd(s, pos + 2, depth + 1)
    else if LooksAt(s, pos, '*', '/') then BlockEnd(s, pos + 2, depth - 1)
    else BlockEnd(s, pos + 1, depth)
  }

  /** The end of a string literal from inside it; a backslash takes the next character along. */
  function StringEnd(s: string, pos: nat): (r: nat)
    requires pos <= |s|
    ensures pos <= r <= |s|
    ensures pos < |s| ==> pos < r
    decreases |s| - pos
  {
    if pos == |s| then pos
    else if s[pos] == '\\' then if pos + 2 <= |s| then StringEnd(s, pos + 2) else |s|
    else if s[pos] == '"' then pos + 1
    else StringEnd(s, pos + 1)
  }

  /** The number of `#` at `pos`, at most `limit`. */
  function Hashes(s: string, pos: nat, limit: nat): (n: nat)
    requires pos <= |s|
    ensures n <= limit && pos + n <= |s|
    decreases limit
  {
    if limit == 0 || pos == |s| || s[pos] != '#' then 0 else 1 + Hashes(s, pos + 1, limit - 1)
  }

  /** Where the `r` or `br` of a raw string ends, or 0. */
  function RawPrefix(s: string, pos: nat): nat
    requires pos < |s|
  {
    if LooksAt(s, pos, 'b', 'r') then pos + 2 else if s[pos] == 'r' then pos + 1 else 0
  }

  /** Where the opener of a raw string ends, with its hashes and its quote, or 0. */
  function RawBody(s: string, pos: nat): (r: nat)
    requires pos < |s|
    ensures r == 0 || (pos < RawPrefix(s, pos) < r <= |s| && s[r - 1] == '"')
  {
    var p := RawPrefix(s, pos);
    if p == 0 then 0
    else
      var q := p + Hashes(s, p, 255);
      if q < |s| && s[q] == '"' then q + 1 else 0
  }

  function Closing(n: nat): (t: string)
    ensures |t| == n + 1 && t[0] == '"' && forall i :: 1 <= i <= n ==> t[i] == '#'
  {
    seq(n + 1, i => if i == 0 then '"' else '#')
  }

  /** The end of a raw string whose opener ends at `body`. */
  function RawEnd(s: string, pos: nat, body: nat): (r: nat)
    requires pos < |s| && RawPrefix(s, pos) < body <= |s|
    ensures body <= r <= |s|
  {
    FindEnd(s, Closing(body - 1 - RawPrefix(s, pos)), body)
  }

  predicate IsHexDigit(c: char) {
    '0' <= c <= '9' || 'A' <= c <= 'F' || 'a' <= c <= 'f'
  }

  function HexRun(s: string, pos: nat): (r: nat)
    requires pos <= |s|
    ensures pos <= r <= |s|
    ensures forall i :: pos <= i < r ==> IsHexDigit(s[i]) || s[i] == '_'
    ensures r < |s| ==> !IsHexDigit(s[r]) && s[r] != '_'
    decreases |s| - pos
  {
    if pos < |s| && (IsHexDigit(s[pos]) || s[pos] == '_') then HexRun(s, pos + 1) else pos
  }

  predicate Quote(s: string, pos: nat) {
    pos < |s| && s[pos] == '\''
  }

  /** Where the closing quote of a character literal must stand, when its inside starts at `q`;
      0 when there is none. */
  function CharClose(s: string, q: nat): (r: nat)
    ensures r == 0 || (q < r < |s| && s[r] == '\'')
  {
    if q >= |s| then 0
    else if s[q] != '\\' then
      if s[q] != '\'' && s[q] != '\n' && Quote(s, q + 1) then q + 1 else 0
    else if LooksAt(s, q + 1, 'u', '{') then
      var h := HexRun(s, q + 3);
      if h > q + 3 && h < |s| && s[h] == '}' && Quote(s, h + 1) then h + 1 else 0
    else if q + 3 < |s| && s[q + 1] == 'x' && IsHexDigit(s[q + 2]) && IsHexDigit(s[q + 3])
            && Quote(s, q + 4)
    then q + 4
    else if q + 1 < |s| && s[q + 1] != '\n' && Quote(s, q + 2) then q + 2
    else 0
  }

  /** The inside of a character literal that opens at `pos`, or 0. */
  function CharInside(s: string, pos: nat): (q: nat)
    requires pos < |s|
    ensures q == 0 || (pos < q <= |s| && s[q - 1] == '\'')
  {
    if Quote(s, pos) then pos + 1
    else if LooksAt(s, pos, 'b', '\'') then pos + 2
    else 0
  }

  /** The end of a character literal at `pos`, or 0. */
  function CharEnd(s: string, pos: nat): (r: nat)
    requires pos < |s|
    ensures r == 0 || (pos + 3 <= r <= |s| && s[r - 1] == '\'')
  {
    var q := CharInside(s, pos);
    if q == 0 then 0
    else
      var close := CharClose(s, q);
      if close == 0 then 0 else close + 1
  }

  predicate TokenStart(alnum: char -> bool, s: string, pos: nat)
    requires pos < |s|
  {
    pos == 0 || !(alnum(s[pos - 1]) || s[pos - 1] == '_')
  }

  /** The end of the comment or literal that starts at `pos`; `pos` itself when none does. */
  function TokenEnd(alnum: char -> bool, s: string, pos: nat): (r: nat)
    requires pos < |s|
    ensures pos <= r <= |s|
  {
    if LooksAt(s, pos, '/', '/') then FindChar(s, '\n', pos)
    else if LooksAt(s, pos, '/', '*') then BlockEnd(s, pos + 2, 1)
    else if TokenStart(alnum, s, pos) && RawBody(s, pos) != 0 then RawEnd(s, pos, RawBody(s, pos))
    else if TokenStart(alnum, s, pos) && CharEnd(s, pos) != 0 then CharEnd(s, pos)
    else if s[pos] == '"' then StringEnd(s, pos + 1)
    else pos
  }

  // ---------------------------------------------------------------- the mask

  function MaskChar(c: char): char {
    if c == '\r' || c == '\n' then c else ' '
  }

  function MaskText(s: string): (t: string)
    ensures |t| == |s| && forall i :: 0 <= i < |s| ==> t[i] == MaskChar(s[i])
  {
    seq(|s|, i requires 0 <= i < |s| => MaskChar(s[i]))
  }

  /** `end(p)` is where the token at `p` ends, or `p` when none starts there. */
  ghost predicate Scanner(end: nat -> nat, n: nat) {
    forall p: nat :: p < n ==> p <= end(p) <= n
  }

  /** Where the scan goes from `pos`: past the token there, or past one plain character. */
  function Next(end: nat -> nat, pos: nat): nat {
    if end(pos) == pos then pos + 1 else end(pos)
  }

  /** What the scan puts out from `pos` on. */
  function MaskFrom(end: nat -> nat, s: string, pos: nat): (t: string)
    requires pos <= |s| && Scanner(end, |s|)
    ensures |t| == |s| - pos
    decreases |s| - pos
  {
    if pos == |s| then []
    else
      var text := s[pos..Next(end, pos)];
      (if end(pos) == pos then text else MaskText(text)) + MaskFrom(end, s, Next(end, pos))
  }

  lemma MaskFromStep(end: nat -> nat, s: string, pos: nat, done: string)
    requires pos < |s| && Scanner(end, |s|)
    ensures var text := s[pos..Next(end, pos)];
            var item := if end(pos) == pos then text else MaskText(text);
            done + MaskFrom(end, s, pos) == (done + item) + MaskFrom(end, s, Next(end, pos))
  {
  }

  function Ends(alnum: char -> bool, s: string): (end: nat -> nat)
    ensures Scanner(end, |s|)
  {
    (p: nat) => if p < |s| then TokenEnd(alnum, s, p) else p
  }

  function Mask(alnum: char -> bool, s: string): (t: string)
    ensures |t| == |s|
  {
    MaskFrom(Ends(alnum, s), s, 0)
  }

  /** `masked_rust_source(source)`. */
  method MaskedRustSource(alnum: char -> bool, source: string) returns (result: string)
    ensures result == Mask(alnum, source)
  {
    result := [];
    var pos := 0;
    ghost var ends := Ends(alnum, source);
    ghost var whole := MaskFrom(ends, source, 0);
    while pos < |source|
      invariant 0 <= pos <= |source|
      invariant result + MaskFrom(ends, source, pos) == whole
    {
      var end := SkipToken(alnum, source, pos);
      assert end == ends(pos);
      MaskFromStep(ends, source, pos, result);
      if end == pos {
        assert source[pos..pos + 1] == [source[pos]];
        result := result + [source[pos]];
        pos := pos + 1;
      } else {
        result := result + MaskText(source[pos..end]);
        pos := end;
      }
    }
  }

  /** The branches that move the cursor over a token; it stays where there is none. */
  method SkipToken(alnum: char -> bool, source: string, start: nat) returns (pos: nat)
    requires start < |source|
    ensures pos == TokenEnd(alnum, source, start)
  {
    pos := start;
    if LooksAt(source, pos, '/', '/') {
      pos := FindChar(source, '\n', pos);
    } else if LooksAt(source, pos, '/', '*') {
      pos := SkipBlock(source, pos + 2);
    } else {
      var tokenStart := TokenStart(alnum, source, pos);
      var raw := if tokenStart then RawBody(source, pos) else 0;
      var literal := if tokenStart then CharEnd(source, pos) else 0;
      if raw != 0 {
        pos := RawEnd(source, pos, raw);
      } else if literal != 0 {
        pos := literal;
      } else if source[pos] == '"' {
        pos := SkipString(source, pos + 1);
      }
    }
  }

  /** The loop over a block comment. */
  method SkipBlock(source: string, from: nat) returns (pos: nat)
    requires from <= |source|
    ensures pos == BlockEnd(source, from, 1)
  {
    var depth := 1;
    pos := from;
    while pos < |source| && depth != 0
      invariant pos <= |source|
      invariant BlockEnd(source, pos, depth) == BlockEnd(source, from, 1)
      decreases |source| - pos
    {
      if LooksAt(source, pos, '/', '*') {
        depth, pos := depth + 1, pos + 2;
      } else if LooksAt(source, pos, '*', '/') {
        depth, pos := depth - 1, pos + 2;
      } else {
        pos := pos + 1;
      }
    }
  }

  /** The loop over a string literal; the cursor may step past the end after a final backslash. */
  method SkipString(source: string, from: nat) returns (pos: nat)
    requires from <= |source|
    ensures pos == StringEnd(source, from)
  {
    pos := from;
    while pos < |source|
      invariant pos <= |source| + 1
      invariant pos <= |source| ==> StringEnd(source, pos) == StringEnd(source, from)
      invariant pos > |source| ==> StringEnd(source, from) == |source|
      decreases |source| + 1 - pos
    {
      if source[pos] == '\\' {
        pos := pos + 2;
      } else if source[pos] == '"' {
        pos := pos + 1;
        return;
      } else {
        pos := pos + 1;
      }
    }
    pos := |source|;
  }

  /** A token is not empty, and a token that is not last has at least two characters. */
  lemma TokenProgress(alnum: char -> bool, s: string, pos: nat)
    requires pos < |s|
    ensures var e := TokenEnd(alnum, s, pos);
            e > pos ==> e >= pos + 2 || e == |s|
    ensures LooksAt(s, pos, '/', '/') || LooksAt(s, pos, '/', '*') || s[pos] == '"'
            ==> TokenEnd(alnum, s, pos) > pos
  {
    if LooksAt(s, pos, '/', '/') {
      var e := FindChar(s, '\n', pos);
      assert e != pos && e != pos + 1;
    }
  }
}
