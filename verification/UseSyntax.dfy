/** The concrete syntax of a `use` tree, with any white space, nested groups, aliases and empty
    items, and its meaning as a list of paths. Expanding the printed tree gives its meaning. */
module UseSyntax {
  import opened UseTree

  // ---------------------------------------------------------------- syntax

  /** One segment between double colons; the word is empty in a leading or trailing `::`. */
  datatype Segment = Segment(before: string, word: string, after: string)

  datatype Alias = NoAlias | As(gap: string, gap2: string, name: string)

  datatype Item =
    | Empty(gap: string)
    | Leaf(before: string, segments: seq<Segment>, alias: Alias, after: string)
    | Group(before: string, segments: seq<Segment>, items: seq<Item>, after: string)

  /** A name, `self`, `*` or a raw identifier. */
  predicate Word(s: string) {
    s != [] && forall i :: 0 <= i < |s| ==>
      !IsSpace(s[i]) && s[i] != ',' && s[i] != '{' && s[i] != '}' && s[i] != ':'
  }

  predicate ValidSegment(g: Segment) {
    Blank(g.before) && Blank(g.after) && (g.word == [] || (Word(g.word) && g.word != "as"))
  }

  /** The path starts with a visible character. */
  predicate StartsVisibly(g: seq<Segment>)
    requires g != []
  {
    g[0].before == [] && (g[0].word == [] ==> g[0].after == [])
  }

  predicate EndsVisibly(g: seq<Segment>)
    requires g != []
  {
    var last := g[|g| - 1];
    last.after == [] && (last.word == [] ==> last.before == [])
  }

  predicate ValidAlias(a: Alias) {
    a.As? ==> Blank(a.gap) && a.gap != [] && Blank(a.gap2) && a.gap2 != [] && Word(a.name)
  }

  predicate ValidSegments(g: seq<Segment>) {
    g != [] && StartsVisibly(g) && forall i :: 0 <= i < |g| ==> ValidSegment(g[i])
  }

  predicate Valid(t: Item)
    decreases t
  {
    match t
    case Empty(gap) => Blank(gap)
    case Leaf(before, segments, alias, after) =>
      && Blank(before) && Blank(after) && ValidSegments(segments) && ValidAlias(alias)
      && Words(segments) != [] && (alias.NoAlias? ==> EndsVisibly(segments))
    case Group(before, segments, items, after) =>
      && Blank(before) && Blank(after) && ValidSegments(segments)
      && items != [] && forall i :: 0 <= i < |items| ==> Valid(items[i])
  }

  predicate AllValid(items: seq<Item>) {
    forall i :: 0 <= i < |items| ==> Valid(items[i])
  }

  // ---------------------------------------------------------------- printing

  function SegmentText(g: Segment): string {
    g.before + g.word + g.after
  }

  function PathText(g: seq<Segment>): string
    requires g != []
  {
    if |g| == 1 then SegmentText(g[0]) else SegmentText(g[0]) + "::" + PathText(g[1..])
  }

  function AliasText(a: Alias): string {
    match a
    case NoAlias => []
    case As(gap, gap2, name) => gap + "as" + gap2 + name
  }

  function Core(t: Item): string
    requires Valid(t)
    decreases t, 0
  {
    match t
    case Empty(_) => []
    case Leaf(_, segments, alias, _) => PathText(segments) + AliasText(alias)
    case Group(_, segments, items, _) => PathText(segments) + "{" + Join(Texts(items)) + "}"
  }

  function Text(t: Item): string
    requires Valid(t)
    decreases t, 1
  {
    match t
    case Empty(gap) => gap
    case Leaf(before, _, _, after) => before + Core(t) + after
    case Group(before, _, _, after) => before + Core(t) + after
  }

  function Texts(items: seq<Item>): (r: seq<string>)
    requires AllValid(items)
    ensures |r| == |items|
    decreases items
  {
    if items == [] then [] else [Text(items[0])] + Texts(items[1..])
  }

  // ---------------------------------------------------------------- meaning

  function Words(g: seq<Segment>): Path {
    if g == [] then []
    else (if g[0].word == [] then [] else [g[0].word]) + Words(g[1..])
  }

  function Denote(t: Item, prefix: Path): seq<Path>
    decreases t
  {
    match t
    case Empty(_) => []
    case Leaf(_, segments, _, _) => [prefix + Words(segments)]
    case Group(_, segments, items, _) => DenoteAll(items, prefix + Words(segments))
  }

  function DenoteAll(items: seq<Item>, prefix: Path): seq<Path>
    decreases items
  {
    if items == [] then [] else Denote(items[0], prefix) + DenoteAll(items[1..], prefix)
  }

  // ---------------------------------------------------------------- stripping

  lemma {:induction false} LeftStripBlank(w: string, s: string)
    requires Blank(w)
    ensures LeftStrip(w + s) == LeftStrip(s)
  {
    if w == [] {
      assert w + s == s;
    } else {
      LeftStripBlank(w[1..], s);
      assert (w + s)[1..] == w[1..] + s;
    }
  }

  lemma {:induction false} RightStripBlank(s: string, w: string)
    requires Blank(w)
    ensures RightStrip(s + w) == RightStrip(s)
  {
    if w == [] {
      assert s + w == s;
    } else {
      var init := w[..|w| - 1];
      RightStripBlank(s, init);
      assert (s + w)[..|s + w| - 1] == s + init;
    }
  }

  /** Visible at both ends. */
  predicate Visible(s: string) {
    s != [] && !IsSpace(s[0]) && !IsSpace(s[|s| - 1])
  }

  lemma StripAround(before: string, s: string, after: string)
    requires Blank(before) && Blank(after) && (s == [] || Visible(s))
    ensures Strip(before + s + after) == s
  {
    assert before + s + after == before + (s + after);
    LeftStripBlank(before, s + after);
    if s == [] {
      assert s + after == after + [];
      LeftStripBlank(after, []);
    } else {
      assert LeftStrip(s + after) == s + after;
      RightStripBlank(s, after);
    }
  }

  // ---------------------------------------------------------------- paths

  lemma WordVisible(w: string)
    requires Word(w)
    ensures Visible(w)
  {
  }

  lemma {:induction false} NoColons(s: string, rest: string)
    requires ':' !in s
    ensures FindColons(s + "::" + rest) == |s|
    ensures FindColons(s) == |s|
  {
    var t := s + "::" + rest;
    if s == [] {
      assert t[0] == ':' && t[1] == ':';
    } else {
      NoColons(s[1..], rest);
      assert t[1..] == s[1..] + "::" + rest;
      assert t[0] == s[0];
    }
  }

  lemma SegmentPart(g: Segment)
    requires ValidSegment(g)
    ensures Strip(SegmentText(g)) == g.word && ':' !in SegmentText(g)
  {
    if g.word != [] { WordVisible(g.word); }
    StripAround(g.before, g.word, g.after);
  }

  predicate SegmentsOk(g: seq<Segment>) {
    g != [] && forall i :: 0 <= i < |g| ==> ValidSegment(g[i])
  }

  /** The parts of a printed path are its words. */
  lemma {:induction false} PathParts(g: seq<Segment>)
    requires SegmentsOk(g)
    ensures Parts(PathText(g)) == Words(g)
  {
    var first := SegmentText(g[0]);
    SegmentPart(g[0]);
    if |g| == 1 {
      NoColons(first, []);
      assert SplitColons(first) == [first];
      assert Words(g[1..]) == [] && Trimmed([first][1..]) == [];
    } else {
      var rest := PathText(g[1..]);
      var t := first + "::" + rest;
      PathParts(g[1..]);
      NoColons(first, rest);
      assert t[..|first|] == first && t[|first| + 2..] == rest;
      assert SplitColons(t) == [first] + SplitColons(rest);
      assert ([first] + SplitColons(rest))[1..] == SplitColons(rest);
    }
  }
}
