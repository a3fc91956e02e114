/** The matches of the pattern `crate\s*::\s*\{`, found from left to right without overlap, as
    `re.finditer` does. */
module CrateGroups {
  import opened UseTree

  function SkipSpace(s: string, i: nat): (r: nat)
    requires i <= |s|
    ensures i <= r <= |s|
    ensures forall j :: i <= j < r ==> IsSpace(s[j])
    ensures r < |s| ==> !IsSpace(s[r])
    decreases |s| - i
  {
    if i < |s| && IsSpace(s[i]) then SkipSpace(s, i + 1) else i
  }

  predicate HasAt(s: string, i: nat, t: string) {
    i + |t| <= |s| && s[i..i + |t|] == t
  }

  /** The end of the match at `i`, or 0. */
  function MatchEnd(s: string, i: nat): (e: nat)
    ensures e == 0 || i + 8 <= e <= |s|
  {
    if !HasAt(s, i, "crate") then 0
    else
      var a := SkipSpace(s, i + 5);
      if !HasAt(s, a, "::") then 0
      else
        var b := SkipSpace(s, a + 2);
        if b < |s| && s[b] == '{' then b + 1 else 0
  }

  /** The text from `i` to `e` is the word, the colons and the brace, with any space between them; `a`
      is where the colons stand. */
  ghost predicate Written(s: string, i: nat, a: nat, e: nat) {
    && i + 5 <= a && a + 2 < e <= |s|
    && s[i..i + 5] == "crate" && s[a..a + 2] == "::" && s[e - 1] == '{'
    && Blank(s[i + 5..a]) && Blank(s[a + 2..e - 1])
  }

  ghost predicate Matches(s: string, i: nat, e: nat) {
    exists a :: Written(s, i, a, e)
  }

  lemma {:induction false} SkipsExactly(s: string, i: nat, r: nat)
    requires i <= r < |s| && Blank(s[i..r]) && !IsSpace(s[r])
    ensures SkipSpace(s, i) == r
    decreases r - i
  {
    if i < r {
      assert s[i] == s[i..r][0];
      assert s[i + 1..r] == s[i..r][1..];
      SkipsExactly(s, i + 1, r);
    }
  }

  lemma WrittenMatches(s: string, i: nat, a: nat, e: nat)
    requires Written(s, i, a, e)
    ensures MatchEnd(s, i) == e
  {
    assert s[a] == s[a..a + 2][0];
    SkipsExactly(s, i + 5, a);
    SkipsExactly(s, a + 2, e - 1);
  }

  /** The matcher finds exactly what is written so. */
  lemma MatchExact(s: string, i: nat, e: nat)
    ensures Matches(s, i, e) <==> e != 0 && MatchEnd(s, i) == e
  {
    if Matches(s, i, e) {
      var a :| Written(s, i, a, e);
      WrittenMatches(s, i, a, e);
    }
    if e != 0 && MatchEnd(s, i) == e {
      assert Written(s, i, SkipSpace(s, i + 5), e);
    }
  }

  /** No match starts inside another. */
  lemma NoneInside(s: string, i: nat, j: nat)
    requires MatchEnd(s, i) != 0 && i < j < MatchEnd(s, i)
    ensures MatchEnd(s, j) == 0
  {
    MatchExact(s, i, MatchEnd(s, i));
    var a :| Written(s, i, a, MatchEnd(s, i));
    NotC(s, i, a, MatchEnd(s, i), j);
  }

  lemma NotC(s: string, i: nat, a: nat, e: nat, j: nat)
    requires Written(s, i, a, e) && i < j < e
    ensures s[j] != 'c'
  {
    if j < i + 5 {
      assert s[j] == s[i..i + 5][j - i];
    } else if j < a {
      assert s[j] == s[i + 5..a][j - (i + 5)];
    } else if j < a + 2 {
      assert s[j] == s[a..a + 2][j - a];
    } else if j < e - 1 {
      assert s[j] == s[a + 2..e - 1][j - (a + 2)];
    }
  }

  /** The ends of the matches from `i` on. */
  function Starts(s: string, i: nat): (ends: seq<nat>)
    requires i <= |s|
    ensures forall k :: 0 <= k < |ends| ==> ends[k] <= |s|
    decreases |s| - i
  {
    if i == |s| then []
    else
      var e := MatchEnd(s, i);
      if e != 0 then [e] + Starts(s, e) else Starts(s, i + 1)
  }

  /** Every match is found: none is lost to overlapping. */
  lemma {:induction false} StartsExact(s: string, i: nat, e: nat)
    requires i <= |s|
    ensures e in Starts(s, i) <==> exists j: nat :: i <= j && Matches(s, j, e)
    decreases |s| - i
  {
    if i == |s| {
      if j: nat :| i <= j && Matches(s, j, e) {
        MatchExact(s, j, e);
      }
    } else {
      var next := if MatchEnd(s, i) != 0 then MatchEnd(s, i) else i + 1;
      StartsExact(s, next, e);
      forall j: nat | i <= j < next ensures Matches(s, j, e) <==> j == i && e != 0 && e == MatchEnd(s, i) {
        MatchExact(s, j, e);
        if i < j {
          NoneInside(s, i, j);
        }
      }
      if e == MatchEnd(s, i) && e != 0 {
        assert Matches(s, i, e);
      }
      if e in Starts(s, next) {
        var j: nat :| next <= j && Matches(s, j, e);
        assert i <= j;
      }
    }
  }
}
