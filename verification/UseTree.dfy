/** The expander of grouped `use` imports in the module-boundary check: `split_use_branches` and
    `expanded_use_paths`. */
module UseTree {

  // ---------------------------------------------------------------- white space

  /** `str.isspace` on one character, which is also the class `\s`. */
  predicate IsSpace(c: char) {
    var n := c as int;
    || 0x09 <= n <= 0x0D || 0x1C <= n <= 0x20 || n == 0x85 || n == 0xA0 || n == 0x1680
    || 0x2000 <= n <= 0x200A || n == 0x2028 || n == 0x2029 || n == 0x202F || n == 0x205F
    || n == 0x3000
  }

  predicate Blank(s: string) {
    forall i :: 0 <= i < |s| ==> IsSpace(s[i])
  }

  function LeftStrip(s: string): (r: string)
    ensures |r| <= |s|
  {
    if s != [] && IsSpace(s[0]) then LeftStrip(s[1..]) else s
  }

  function RightStrip(s: string): (r: string)
    ensures |r| <= |s|
  {
    if s != [] && IsSpace(s[|s| - 1]) then RightStrip(s[..|s| - 1]) else s
  }

  /** `str.strip()`. */
  function Strip(s: string): (r: string)
    ensures |r| <= |s|
  {
    RightStrip(LeftStrip(s))
  }

  // ---------------------------------------------------------------- splitting at commas

  function Step(depth: int, c: char): int {
    if c == '{' then depth + 1 else if c == '}' then depth - 1 else depth
  }

  /** The branches of `t[start..]`, when the scan stands at `pos` with the given brace depth. */
  function SplitFrom(t: string, start: nat, pos: nat, depth: int): (r: seq<string>)
    requires start <= pos <= |t|
    ensures r != [] && forall i :: 0 <= i < |r| ==> |r[i]| <= |t| - start
    decreases |t| - pos
  {
    if pos == |t| then [t[start..]]
    else if t[pos] == ',' && depth == 0 then
      [t[start..pos]] + SplitFrom(t, pos + 1, pos + 1, 0)
    else SplitFrom(t, start, pos + 1, Step(depth, t[pos]))
  }

  function Split(t: string): (r: seq<string>)
    ensures r != [] && forall i :: 0 <= i < |r| ==> |r[i]| <= |t|
  {
    SplitFrom(t, 0, 0, 0)
  }

  /** `split_use_branches(tree)`. */
  method SplitUseBranches(tree: string) returns (branches: seq<string>)
    ensures branches == Split(tree)
  {
    branches := [];
    var depth, start := 0, 0;
    for pos := 0 to |tree|
      invariant start <= pos
      invariant branches + SplitFrom(tree, start, pos, depth) == Split(tree)
    {
      var c := tree[pos];
      if c == '{' {
        depth := depth + 1;
      } else if c == '}' {
        depth := depth - 1;
      } else if c == ',' && depth == 0 {
        branches := branches + [tree[start..pos]];
        start := pos + 1;
      }
    }
    branches := branches + [tree[start..]];
  }

  // ---------------------------------------------------------------- paths

  /** The first index of `::`, or the length. */
  function FindColons(s: string): (i: nat)
    ensures i <= |s|
    ensures i < |s| ==> i + 2 <= |s| && s[i] == ':' && s[i + 1] == ':'
  {
    if |s| < 2 then |s|
    else if s[0] == ':' && s[1] == ':' then 0
    else 1 + FindColons(s[1..])
  }

  /** `head.split("::")`. */
  function SplitColons(s: string): (r: seq<string>)
    decreases |s|
  {
    var i := FindColons(s);
    if i == |s| then [s] else [s[..i]] + SplitColons(s[i + 2..])
  }

  /** The parts that are not blank, stripped. */
  function Trimmed(parts: seq<string>): seq<string> {
    if parts == [] then []
    else
      var part := Strip(parts[0]);
      (if part == [] then [] else [part]) + Trimmed(parts[1..])
  }

  function Parts(head: string): seq<string> {
    Trimmed(SplitColons(head))
  }

  /** `as` stands at `j` between white space. */
  predicate AsAt(s: string, j: nat) {
    1 <= j && j + 2 < |s| && IsSpace(s[j - 1]) && s[j] == 'a' && s[j + 1] == 's' && IsSpace(s[j + 2])
  }

  /** The first such place at or after `j`, or the length. */
  function FindAs(s: string, j: nat): (r: nat)
    requires j <= |s|
    ensures j <= r <= |s|
    ensures r < |s| ==> AsAt(s, r)
    ensures forall i :: j <= i < r ==> !AsAt(s, i)
    decreases |s| - j
  {
    if j == |s| || AsAt(s, j) then j else FindAs(s, j + 1)
  }

  /** `re.split(r"\s+as\s+", branch, maxsplit=1)[0]`. */
  function WithoutAlias(branch: string): string {
    RightStripIf(branch, FindAs(branch, 0))
  }

  function RightStripIf(s: string, j: nat): string
    requires j <= |s|
  {
    if j == |s| then s else RightStrip(s[..j])
  }

  function FindBrace(s: string): (i: nat)
    ensures i <= |s|
    ensures i < |s| ==> s[i] == '{'
  {
    if s == [] || s[0] == '{' then 0 else 1 + FindBrace(s[1..])
  }

  function WithoutColons(s: string): string {
    if |s| >= 2 && s[|s| - 2..] == "::" then s[..|s| - 2] else s
  }

  type Path = seq<string>

  /** `expanded_use_paths(tree, prefix)`. */
  function Expand(tree: string, prefix: Path): seq<Path>
    decreases |tree|, 2, 0
  {
    ExpandAll(Split(tree), prefix, |tree|)
  }

  function ExpandAll(branches: seq<string>, prefix: Path, n: nat): seq<Path>
    requires forall i :: 0 <= i < |branches| ==> |branches[i]| <= n
    decreases n, 1, |branches|
  {
    if branches == [] then []
    else ExpandBranch(branches[0], prefix) + ExpandAll(branches[1..], prefix, n)
  }

  function ExpandBranch(text: string, prefix: Path): seq<Path>
    decreases |text|, 0, 0
  {
    var branch := Strip(text);
    if branch == [] then []
    else
      var brace := FindBrace(branch);
      if brace < |branch| && branch[|branch| - 1] == '}' then
        Expand(branch[brace + 1..|branch| - 1],
               prefix + Parts(WithoutColons(Strip(branch[..brace]))))
      else [prefix + Parts(WithoutAlias(branch))]
  }

  // ---------------------------------------------------------------- splitting is undone by joining

  function Join(parts: seq<string>): string
    requires parts != []
  {
    if |parts| == 1 then parts[0] else parts[0] + "," + Join(parts[1..])
  }

  /** No comma of `s` stands at depth 0, when `s` starts at the given depth. */
  predicate NoCut(s: string, depth: int) {
    s == [] || (!(s[0] == ',' && depth == 0) && NoCut(s[1..], Step(depth, s[0])))
  }

  function Net(s: string, depth: int): int {
    if s == [] then depth else Net(s[1..], Step(depth, s[0]))
  }

  /** Parts that commas may join: none has a comma at depth 0, and each before the last closes its
      braces. */
  predicate AllWhole(parts: seq<string>)
    requires parts != []
  {
    && (forall i :: 0 <= i < |parts| ==> NoCut(parts[i], 0))
    && (forall i :: 0 <= i < |parts| - 1 ==> Net(parts[i], 0) == 0)
  }

  lemma {:induction false} JoinSplitFrom(t: string, start: nat, pos: nat, depth: int)
    requires start <= pos <= |t|
    ensures Join(SplitFrom(t, start, pos, depth)) == t[start..]
    decreases |t| - pos
  {
    if pos < |t| {
      if t[pos] == ',' && depth == 0 {
        JoinSplitFrom(t, pos + 1, pos + 1, 0);
        var rest := SplitFrom(t, pos + 1, pos + 1, 0);
        assert ([t[start..pos]] + rest)[1..] == rest;
        assert t[start..] == t[start..pos] + "," + t[pos + 1..];
      } else {
        JoinSplitFrom(t, start, pos + 1, Step(depth, t[pos]));
      }
    }
  }

  /** Joining the branches on commas gives back the text, whatever the text. */
  lemma JoinSplit(t: string)
    ensures Join(Split(t)) == t
  {
    JoinSplitFrom(t, 0, 0, 0);
    assert t[0..] == t;
  }

  lemma {:induction false} NoCutAppend(s: string, c: char, depth: int)
    requires NoCut(s, depth)
    ensures NoCut(s + [c], depth) <==> !(c == ',' && Net(s, depth) == 0)
    ensures Net(s + [c], depth) == Step(Net(s, depth), c)
  {
    if s == [] {
      assert s + [c] == [c];
      assert [c][1..] == [];
    } else {
      NoCutAppend(s[1..], c, Step(depth, s[0]));
      assert (s + [c])[1..] == s[1..] + [c];
    }
  }

  lemma {:induction false} SplitFromParts(t: string, start: nat, pos: nat, depth: int)
    requires start <= pos <= |t|
    requires NoCut(t[start..pos], 0) && Net(t[start..pos], 0) == depth
    ensures AllWhole(SplitFrom(t, start, pos, depth))
    decreases |t| - pos
  {
    if pos == |t| {
      assert t[start..] == t[start..pos];
    } else {
      NoCutAppend(t[start..pos], t[pos], 0);
      assert t[start..pos + 1] == t[start..pos] + [t[pos]];
      if t[pos] == ',' && depth == 0 {
        SplitFromParts(t, pos + 1, pos + 1, 0);
      } else {
        SplitFromParts(t, start, pos + 1, Step(depth, t[pos]));
      }
    }
  }

  /** Scanning a text without a cut only moves the depth. */
  lemma {:induction false} SplitSkips(t: string, start: nat, pos: nat, s: string, depth: int)
    requires start <= pos && pos + |s| <= |t| && t[pos..pos + |s|] == s && NoCut(s, depth)
    ensures SplitFrom(t, start, pos, depth) == SplitFrom(t, start, pos + |s|, Net(s, depth))
    decreases |s|
  {
    if s != [] {
      assert t[pos] == s[0];
      assert t[pos + 1..pos + |s|] == s[1..];
      SplitSkips(t, start, pos + 1, s[1..], Step(depth, s[0]));
    }
  }

  lemma {:induction false} SplitJoinFrom(t: string, pos: nat, parts: seq<string>)
    requires pos <= |t| && parts != [] && t[pos..] == Join(parts) && AllWhole(parts)
    ensures SplitFrom(t, pos, pos, 0) == parts
    decreases parts
  {
    var first := parts[0];
    if |parts| == 1 {
      assert t[pos..pos + |first|] == first;
      SplitSkips(t, pos, pos, first, 0);
      assert parts == [t[pos..]];
    } else {
      var rest := Join(parts[1..]);
      assert t[pos..] == first + ("," + rest);
      assert t[pos..pos + |first|] == first && t[pos + |first|] == ',';
      assert t[pos + |first| + 1..] == rest;
      SplitSkips(t, pos, pos, first, 0);
      SplitJoinFrom(t, pos + |first| + 1, parts[1..]);
      assert parts == [first] + parts[1..];
    }
  }

  /** Splitting a joined text gives back the parts exactly when no part has a comma at depth 0
      and every part but the last closes its braces. */
  lemma SplitJoin(parts: seq<string>)
    requires parts != []
    ensures Split(Join(parts)) == parts <==> AllWhole(parts)
  {
    var t := Join(parts);
    if AllWhole(parts) {
      assert t[0..] == t;
      SplitJoinFrom(t, 0, parts);
    }
    assert t[0..0] == [];
    SplitFromParts(t, 0, 0, 0);
  }
}
