/** What the mask preserves, and that masking twice is masking once. */
module RustMaskLaws {
  import opened RustMask

  // ---------------------------------------------------------------- scans

  /** Where the scan item that covers `i` starts, for a scan that starts at `pos`. */
  function Start(end: nat -> nat, n: nat, pos: nat, i: nat): (a: nat)
    requires pos <= i < n && Scanner(end, n)
    ensures pos <= a <= i < Next(end, a) <= n
    decreases n - pos
  {
    if i < Next(end, pos) then pos else Start(end, n, Next(end, pos), i)
  }

  /** The scan copies the character at `i`. */
  predicate Plain(end: nat -> nat, n: nat, i: nat)
    requires i < n && Scanner(end, n)
  {
    var a := Start(end, n, 0, i);
    a == i && end(a) == a
  }

  lemma {:induction false} MaskFromAt(end: nat -> nat, s: string, pos: nat, i: nat)
    requires pos <= i < |s| && Scanner(end, |s|)
    ensures var a := Start(end, |s|, pos, i);
            MaskFrom(end, s, pos)[i - pos] == if end(a) == a then s[i] else MaskChar(s[i])
    decreases |s| - pos
  {
    var next := Next(end, pos);
    if i < next {
      assert s[pos..next][i - pos] == s[i];
    } else {
      MaskFromAt(end, s, next, i);
    }
  }

  lemma {:induction false} StartNeighbour(end: nat -> nat, n: nat, pos: nat, i: nat)
    requires pos <= i && i + 1 < n && Scanner(end, n)
    ensures var a := Start(end, n, pos, i);
            Start(end, n, pos, i + 1) == if i + 1 < Next(end, a) then a else i + 1
    decreases n - pos
  {
    if i >= Next(end, pos) { StartNeighbour(end, n, Next(end, pos), i); }
  }

  /** A token that is not last has at least two characters. */
  ghost predicate Wide(end: nat -> nat, n: nat) {
    forall p: nat :: p < n && end(p) > p ==> end(p) >= p + 2 || end(p) == n
  }

  /** A character between two copied ones is copied. */
  lemma PlainBetween(end: nat -> nat, n: nat, i: nat)
    requires 1 <= i && i + 1 < n && Scanner(end, n) && Wide(end, n)
    requires Plain(end, n, i - 1) && Plain(end, n, i + 1)
    ensures Plain(end, n, i)
  {
    StartNeighbour(end, n, 0, i - 1);
    StartNeighbour(end, n, 0, i);
  }

  lemma {:induction false} NothingToMask(end: nat -> nat, t: string, pos: nat)
    requires pos <= |t| && Scanner(end, |t|)
    requires forall i: nat :: pos <= i < |t| ==> end(i) == i
    ensures MaskFrom(end, t, pos) == t[pos..]
    decreases |t| - pos
  {
    if pos < |t| { NothingToMask(end, t, pos + 1); }
  }

  // ---------------------------------------------------------------- what is preserved

  predicate Copied(alnum: char -> bool, s: string, i: nat)
    requires i < |s|
  {
    Plain(Ends(alnum, s), |s|, i)
  }

  /** Character by character, the mask copies what is outside the tokens and blanks the rest. */
  lemma MaskAt(alnum: char -> bool, s: string, i: nat)
    requires i < |s|
    ensures Mask(alnum, s)[i] == if Copied(alnum, s, i) then s[i] else MaskChar(s[i])
  {
    var end := Ends(alnum, s);
    MaskFromAt(end, s, 0, i);
    var a := Start(end, |s|, 0, i);
    assert end(a) == a ==> Next(end, a) == a + 1;
  }

  /** Length and every line break are preserved, and a character changes only to a space. */
  lemma MaskPreserves(alnum: char -> bool, s: string)
    ensures |Mask(alnum, s)| == |s|
    ensures forall i :: 0 <= i < |s| ==>
              var c, d := s[i], Mask(alnum, s)[i];
              && (d == c || d == ' ')
              && (c == '\r' || c == '\n' ==> d == c)
              && (d == '\r' || d == '\n' ==> d == c)
  {
    forall i | 0 <= i < |s|
      ensures Mask(alnum, s)[i] == s[i] || Mask(alnum, s)[i] == MaskChar(s[i])
    {
      MaskAt(alnum, s, i);
    }
  }

  // ---------------------------------------------------------------- how tokens end

  lemma {:induction false} BlockEndLast(s: string, pos: nat, depth: nat)
    requires pos <= |s| && 1 <= depth
    ensures var e := BlockEnd(s, pos, depth); e == |s| || (pos < e && s[e - 1] == '/')
    decreases |s| - pos
  {
    if pos < |s| {
      if LooksAt(s, pos, '/', '*') {
        BlockEndLast(s, pos + 2, depth + 1);
      } else if LooksAt(s, pos, '*', '/') {
        if depth > 1 { BlockEndLast(s, pos + 2, depth - 1); }
      } else {
        BlockEndLast(s, pos + 1, depth);
      }
    }
  }

  lemma {:induction false} StringEndLast(s: string, pos: nat)
    requires pos <= |s|
    ensures var e := StringEnd(s, pos); e == |s| || (pos < e && s[e - 1] == '"')
    decreases |s| - pos
  {
    if pos < |s| {
      if s[pos] == '\\' {
        if pos + 2 <= |s| { StringEndLast(s, pos + 2); }
      } else if s[pos] != '"' {
        StringEndLast(s, pos + 1);
      }
    }
  }

  lemma {:induction false} FindEndLast(s: string, pattern: string, pos: nat)
    requires pos <= |s| && pattern != []
    ensures var e := FindEnd(s, pattern, pos);
            e == |s| || (pos < e && s[e - 1] == pattern[|pattern| - 1])
    decreases |s| - pos
  {
    if pos + |pattern| <= |s| {
      if s[pos..pos + |pattern|] == pattern {
        assert s[pos + |pattern| - 1] == s[pos..pos + |pattern|][|pattern| - 1];
      } else {
        FindEndLast(s, pattern, pos + 1);
      }
    }
  }

  /** A token before the end of the text ends with punctuation or before a line feed, so the
      character after it starts a token in the source whenever it does in the mask. */
  lemma TokenLast(alnum: char -> bool, s: string, pos: nat)
    requires Punctuation(alnum) && pos < |s|
    ensures var e := TokenEnd(alnum, s, pos);
            pos < e < |s| ==> s[e] == '\n' || TokenStart(alnum, s, e)
  {
    var e := TokenEnd(alnum, s, pos);
    if LooksAt(s, pos, '/', '/') {
    } else if LooksAt(s, pos, '/', '*') {
      BlockEndLast(s, pos + 2, 1);
    } else if TokenStart(alnum, s, pos) && RawBody(s, pos) != 0 {
      var body := RawBody(s, pos);
      FindEndLast(s, Closing(body - 1 - RawPrefix(s, pos)), body);
    } else if TokenStart(alnum, s, pos) && CharEnd(s, pos) != 0 {
    } else if s[pos] == '"' {
      StringEndLast(s, pos + 1);
    }
  }

  // ---------------------------------------------------------------- character literals

  lemma {:induction false} HexRunSame(s: string, t: string, pos: nat)
    requires pos <= |s| == |t| && HexRun(t, pos) < |t|
    requires forall i :: pos <= i <= HexRun(t, pos) ==> s[i] == t[i]
    ensures HexRun(s, pos) == HexRun(t, pos)
    decreases |s| - pos
  {
    if pos < HexRun(t, pos) { HexRunSame(s, t, pos + 1); }
  }

  /** A character literal is recognised from its own characters only. */
  lemma CharEndLocal(s: string, t: string, pos: nat)
    requires pos < |s| == |t| && CharEnd(t, pos) != 0
    requires forall i :: pos <= i < CharEnd(t, pos) ==> s[i] == t[i]
    ensures CharEnd(s, pos) == CharEnd(t, pos)
  {
    var q := CharInside(t, pos);
    if t[q] == '\\' && LooksAt(t, q + 1, 'u', '{') {
      HexRunSame(s, t, q + 3);
    }
  }

  /** The one character of a literal that may be blank stands between visible ones. */
  lemma CharBlank(t: string, pos: nat, i: nat)
    requires pos < |t| && CharEnd(t, pos) != 0 && pos <= i < CharEnd(t, pos)
    requires t[i] == ' ' || t[i] == '\r' || t[i] == '\n'
    ensures 1 <= i && i + 1 < |t|
    ensures (t[i - 1] == '\'' || t[i - 1] == '\\') && t[i + 1] == '\''
  {
  }

  // ---------------------------------------------------------------- no token in the mask

  lemma CopiedIsPlain(alnum: char -> bool, s: string, i: nat)
    requires i < |s| && Copied(alnum, s, i)
    ensures s[i] == Mask(alnum, s)[i] && TokenEnd(alnum, s, i) == i
  {
    MaskAt(alnum, s, i);
  }

  lemma VisibleIsCopied(alnum: char -> bool, s: string, i: nat)
    requires i < |s| && MaskChar(Mask(alnum, s)[i]) != Mask(alnum, s)[i]
    ensures Copied(alnum, s, i)
  {
    MaskAt(alnum, s, i);
  }

  lemma EndsWide(alnum: char -> bool, s: string)
    ensures Wide(Ends(alnum, s), |s|)
  {
    forall p: nat | p < |s|
      ensures Ends(alnum, s)(p) > p ==> Ends(alnum, s)(p) >= p + 2 || Ends(alnum, s)(p) == |s|
    {
      TokenProgress(alnum, s, p);
    }
  }

  /** Either the neighbour was copied too, or a token ends just before `i`. */
  lemma BeforeCopied(end: nat -> nat, n: nat, i: nat) returns (a: nat)
    requires 1 <= i < n && Scanner(end, n) && Plain(end, n, i)
    ensures a < i && (Plain(end, n, i - 1) || end(a) == i)
  {
    StartNeighbour(end, n, 0, i - 1);
    a := Start(end, n, 0, i - 1);
  }

  lemma StartCarriesOver(alnum: char -> bool, s: string, i: nat)
    requires Punctuation(alnum) && i < |s| && Copied(alnum, s, i) && s[i] != '\n'
    requires TokenStart(alnum, Mask(alnum, s), i)
    ensures TokenStart(alnum, s, i)
  {
    if i > 0 {
      var a := BeforeCopied(Ends(alnum, s), |s|, i);
      if Copied(alnum, s, i - 1) {
        CopiedIsPlain(alnum, s, i - 1);
      } else {
        TokenLast(alnum, s, a);
      }
    }
  }

  lemma BetweenVisible(alnum: char -> bool, s: string, i: nat)
    requires 1 <= i && i + 1 < |s|
    requires MaskChar(Mask(alnum, s)[i - 1]) != Mask(alnum, s)[i - 1]
    requires MaskChar(Mask(alnum, s)[i + 1]) != Mask(alnum, s)[i + 1]
    ensures Copied(alnum, s, i)
  {
    VisibleIsCopied(alnum, s, i - 1);
    VisibleIsCopied(alnum, s, i + 1);
    EndsWide(alnum, s);
    PlainBetween(Ends(alnum, s), |s|, i);
  }

  /** The characters of a literal found in the mask were all copied from the source. */
  lemma CharCopied(alnum: char -> bool, s: string, t: string, pos: nat, i: nat)
    requires t == Mask(alnum, s) && pos < |s|
    requires CharEnd(t, pos) != 0 && pos <= i < CharEnd(t, pos)
    ensures Copied(alnum, s, i) && s[i] == t[i]
  {
    if MaskChar(t[i]) == t[i] {
      CharBlank(t, pos, i);
      BetweenVisible(alnum, s, i);
    } else {
      VisibleIsCopied(alnum, s, i);
    }
    CopiedIsPlain(alnum, s, i);
  }

  lemma NoQuoteInMask(alnum: char -> bool, s: string, i: nat)
    requires i < |s|
    ensures Mask(alnum, s)[i] != '"'
  {
    if Mask(alnum, s)[i] == '"' {
      VisibleIsCopied(alnum, s, i);
      CopiedIsPlain(alnum, s, i);
      TokenProgress(alnum, s, i);
    }
  }

  lemma NoCommentInMask(alnum: char -> bool, s: string, i: nat, c: char)
    requires i < |s| && (c == '/' || c == '*')
    ensures !LooksAt(Mask(alnum, s), i, '/', c)
  {
    if LooksAt(Mask(alnum, s), i, '/', c) {
      VisibleIsCopied(alnum, s, i);
      VisibleIsCopied(alnum, s, i + 1);
      CopiedIsPlain(alnum, s, i);
      CopiedIsPlain(alnum, s, i + 1);
      TokenProgress(alnum, s, i);
    }
  }

  lemma CharKept(alnum: char -> bool, s: string, t: string, pos: nat)
    requires t == Mask(alnum, s) && pos < |s| && CharEnd(t, pos) != 0
    ensures Copied(alnum, s, pos) && CharEnd(s, pos) == CharEnd(t, pos)
  {
    forall i | pos <= i < CharEnd(t, pos) ensures s[i] == t[i] {
      CharCopied(alnum, s, t, pos, i);
    }
    CharCopied(alnum, s, t, pos, pos);
    CharEndLocal(s, t, pos);
  }

  lemma NoCharInMask(alnum: char -> bool, s: string, pos: nat)
    requires Punctuation(alnum) && pos < |s|
    ensures !(TokenStart(alnum, Mask(alnum, s), pos) && CharEnd(Mask(alnum, s), pos) != 0)
  {
    var t := Mask(alnum, s);
    if TokenStart(alnum, t, pos) && CharEnd(t, pos) != 0 {
      CharKept(alnum, s, t, pos);
      StartCarriesOver(alnum, s, pos);
      CopiedIsPlain(alnum, s, pos);
    }
  }

  lemma NoTokenAt(alnum: char -> bool, t: string, pos: nat)
    requires pos < |t| && '"' !in t
    requires !LooksAt(t, pos, '/', '/') && !LooksAt(t, pos, '/', '*')
    requires !(TokenStart(alnum, t, pos) && CharEnd(t, pos) != 0)
    ensures TokenEnd(alnum, t, pos) == pos
  {
  }

  lemma NoTokenInMask(alnum: char -> bool, s: string, pos: nat)
    requires Punctuation(alnum) && pos < |s|
    ensures TokenEnd(alnum, Mask(alnum, s), pos) == pos
  {
    forall i | 0 <= i < |s|
      ensures Mask(alnum, s)[i] != '"'
    {
      NoQuoteInMask(alnum, s, i);
    }
    NoCommentInMask(alnum, s, pos, '/');
    NoCommentInMask(alnum, s, pos, '*');
    NoCharInMask(alnum, s, pos);
    NoTokenAt(alnum, Mask(alnum, s), pos);
  }

  /** Masking never creates a comment, string or character literal: masking again is the
      identity. */
  lemma MaskIdempotent(alnum: char -> bool, s: string)
    requires Punctuation(alnum)
    ensures Mask(alnum, Mask(alnum, s)) == Mask(alnum, s)
  {
    var t := Mask(alnum, s);
    forall i: nat | i < |t|
      ensures Ends(alnum, t)(i) == i
    {
      NoTokenInMask(alnum, s, i);
    }
    NothingToMask(Ends(alnum, t), t, 0);
    assert t[0..] == t;
  }
}
