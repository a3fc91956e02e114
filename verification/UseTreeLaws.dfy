/** Printing a `use` tree and expanding the text returns exactly the paths the tree denotes. */
module UseTreeLaws {
  import opened UseTree
  import opened UseSyntax

  // ---------------------------------------------------------------- braces

  /** The depth never falls below 0. */
  predicate Stays(s: string, depth: int) {
    s == [] || (Step(depth, s[0]) >= 0 && Stays(s[1..], Step(depth, s[0])))
  }

  predicate Balanced(s: string) {
    Stays(s, 0) && Net(s, 0) == 0
  }

  predicate Flat(s: string) {
    forall i :: 0 <= i < |s| ==> s[i] != ',' && s[i] != '{' && s[i] != '}'
  }

  lemma {:induction false} FlatIsWhole(s: string, depth: nat)
    requires Flat(s)
    ensures NoCut(s, depth) && Net(s, depth) == depth && Stays(s, depth)
  {
    if s != [] { FlatIsWhole(s[1..], depth); }
  }

  lemma {:induction false} ConcatScan(a: string, b: string, depth: int)
    ensures Net(a + b, depth) == Net(b, Net(a, depth))
    ensures Stays(a + b, depth) <==> Stays(a, depth) && Stays(b, Net(a, depth))
    ensures NoCut(a + b, depth) <==> NoCut(a, depth) && NoCut(b, Net(a, depth))
  {
    if a == [] {
      assert a + b == b;
    } else {
      ConcatScan(a[1..], b, Step(depth, a[0]));
      assert (a + b)[1..] == a[1..] + b;
    }
  }

  /** Inside another group a balanced text has no comma at depth 0. */
  lemma {:induction false} Inside(s: string, depth: nat, outer: int)
    requires Stays(s, depth) && outer >= 1
    ensures NoCut(s, depth + outer) && Stays(s, depth + outer)
    ensures Net(s, depth + outer) == Net(s, depth) + outer
  {
    if s != [] { Inside(s[1..], Step(depth, s[0]), outer); }
  }

  lemma GroupWhole(head: string, inner: string, depth: nat)
    requires Flat(head) && Balanced(inner)
    ensures NoCut(head + "{" + inner + "}", depth) && Stays(head + "{" + inner + "}", depth)
    ensures Net(head + "{" + inner + "}", depth) == depth
  {
    FlatIsWhole(head, depth);
    ConcatScan(head, "{", depth);
    assert "{"[1..] == [] && "}"[1..] == [];
    ConcatScan(head + "{", inner, depth);
    Inside(inner, 0, depth + 1);
    ConcatScan(head + "{" + inner, "}", depth);
  }

  lemma SegmentFlat(g: Segment)
    requires ValidSegment(g)
    ensures Flat(SegmentText(g))
  {
  }

  lemma {:induction false} PathFlat(g: seq<Segment>)
    requires SegmentsOk(g)
    ensures Flat(PathText(g))
  {
    SegmentFlat(g[0]);
    if |g| > 1 { PathFlat(g[1..]); }
  }

  predicate Closed(s: string) {
    Balanced(s) && NoCut(s, 0)
  }

  lemma AroundClosed(before: string, core: string, after: string)
    requires Blank(before) && Blank(after) && Closed(core)
    ensures Closed(before + core + after)
  {
    FlatIsWhole(before, 0);
    FlatIsWhole(after, 0);
    ConcatScan(before, core, 0);
    ConcatScan(before + core, after, 0);
  }

  /** Every printed item is closed, so a comma after it separates items. */
  lemma {:induction false} TextClosed(t: Item)
    requires Valid(t)
    ensures Closed(Text(t))
    decreases t, 0
  {
    match t
    case Empty(gap) => FlatIsWhole(gap, 0);
    case Leaf(before, segments, alias, after) =>
      PathFlat(segments);
      FlatIsWhole(Core(t), 0);
      AroundClosed(before, Core(t), after);
    case Group(before, segments, items, after) =>
      JoinClosed(items);
      PathFlat(segments);
      GroupWhole(PathText(segments), Join(Texts(items)), 0);
      AroundClosed(before, Core(t), after);
  }

  lemma {:induction false} JoinClosed(items: seq<Item>)
    requires AllValid(items) && items != []
    ensures Balanced(Join(Texts(items))) && AllWhole(Texts(items))
    decreases items
  {
    TextClosed(items[0]);
    var first := Text(items[0]);
    if |items| == 1 {
      assert Texts(items) == [first];
    } else {
      JoinClosed(items[1..]);
      var rest := Texts(items[1..]);
      assert Texts(items) == [first] + rest && Texts(items)[1..] == rest;
      ConcatScan(first, ",", 0);
      assert ","[1..] == [];
      ConcatScan(first + ",", Join(rest), 0);
      forall i | 0 <= i < |items|
        ensures NoCut(Texts(items)[i], 0) && (i < |items| - 1 ==> Net(Texts(items)[i], 0) == 0)
      {
        assert i > 0 ==> Texts(items)[i] == rest[i - 1];
      }
    }
  }

  // ---------------------------------------------------------------- path heads

  lemma {:induction false} RightStripConcat(a: string, b: string)
    requires a != [] && !IsSpace(a[|a| - 1])
    ensures RightStrip(a + b) == a + RightStrip(b)
  {
    if b == [] {
      assert a + b == a;
    } else if IsSpace(b[|b| - 1]) {
      RightStripConcat(a, b[..|b| - 1]);
      assert (a + b)[..|a + b| - 1] == a + b[..|b| - 1];
    }
  }

  function TrimSegment(g: Segment): Segment {
    if g.word == [] then Segment([], [], []) else g.(after := [])
  }

  /** The path without white space at its end. */
  function TrimLast(g: seq<Segment>): seq<Segment>
    requires g != []
  {
    g[..|g| - 1] + [TrimSegment(g[|g| - 1])]
  }

  lemma SegmentRightStrip(g: Segment)
    requires ValidSegment(g)
    ensures RightStrip(SegmentText(g)) == SegmentText(TrimSegment(g))
  {
    if g.word == [] {
      assert SegmentText(g) == [] + (g.before + g.after);
      RightStripBlank([], g.before + g.after);
    } else {
      RightStripBlank(g.before + g.word, g.after);
      assert SegmentText(TrimSegment(g)) == g.before + g.word;
    }
  }

  lemma {:induction false} PathRightStrip(g: seq<Segment>)
    requires SegmentsOk(g)
    ensures RightStrip(PathText(g)) == PathText(TrimLast(g))
    ensures SegmentsOk(TrimLast(g)) && Words(TrimLast(g)) == Words(g)
  {
    if |g| == 1 {
      SegmentRightStrip(g[0]);
      assert TrimLast(g) == [TrimSegment(g[0])];
      assert TrimLast(g)[1..] == g[1..] == [];
    } else {
      var first := SegmentText(g[0]) + "::";
      PathRightStrip(g[1..]);
      RightStripConcat(first, PathText(g[1..]));
      assert TrimLast(g) == [g[0]] + TrimLast(g[1..]);
      assert TrimLast(g)[1..] == TrimLast(g[1..]);
    }
  }

  lemma {:induction false} PathAppend(g: seq<Segment>)
    requires |g| >= 2
    ensures PathText(g) == PathText(g[..|g| - 1]) + ("::" + SegmentText(g[|g| - 1]))
  {
    var init, last := g[..|g| - 1], g[|g| - 1];
    if |g| == 2 {
      assert g[1..] == [last] && init == [g[0]];
    } else {
      var first, end := SegmentText(g[0]) + "::", "::" + SegmentText(last);
      PathAppend(g[1..]);
      assert g[1..][..|g| - 2] == init[1..] && g[1..][|g| - 2] == last;
      assert PathText(g[1..]) == PathText(init[1..]) + end;
      assert PathText(init) == first + PathText(init[1..]);
      assert first + (PathText(init[1..]) + end) == (first + PathText(init[1..])) + end;
    }
  }

  lemma {:induction false} WordsAppend(g: seq<Segment>)
    requires |g| >= 1 && g[|g| - 1].word == []
    ensures Words(g[..|g| - 1]) == Words(g)
  {
    if |g| > 1 {
      WordsAppend(g[1..]);
      assert g[..|g| - 1][1..] == g[1..][..|g| - 2];
    } else {
      assert g[1..] == [];
    }
  }

  /** Dropping a last `::` from a path that ends visibly keeps its words. */
  lemma ColonsDropped(h: seq<Segment>)
    requires SegmentsOk(h) && EndsVisibly(h)
    ensures Parts(WithoutColons(PathText(h))) == Words(h)
  {
    var head, last := PathText(h), h[|h| - 1];
    PathParts(h);
    if last.word == [] && |h| >= 2 {
      var init := h[..|h| - 1];
      PathAppend(h);
      assert SegmentText(last) == [];
      assert head == PathText(init) + "::";
      PathParts(init);
      WordsAppend(h);
    } else {
      LastCharacter(h);
    }
  }

  lemma LastCharacter(h: seq<Segment>)
    requires SegmentsOk(h) && EndsVisibly(h) && (h[|h| - 1].word != [] || |h| == 1)
    ensures PathText(h) == [] || PathText(h)[|PathText(h)| - 1] != ':'
  {
    var last := h[|h| - 1];
    assert last.word != [] ==> SegmentText(last)[|SegmentText(last)| - 1] == last.word[|last.word| - 1];
    if |h| >= 2 { PathAppend(h); }
  }

  /** The head of a group loses its white space and its last `::`, and its parts are its words. */
  lemma HeadParts(g: seq<Segment>)
    requires ValidSegments(g)
    ensures Parts(WithoutColons(Strip(PathText(g)))) == Words(g)
  {
    StartVisible(g);
    PathRightStrip(g);
    ColonsDropped(TrimLast(g));
  }

  lemma StartVisible(g: seq<Segment>)
    requires ValidSegments(g)
    ensures LeftStrip(PathText(g)) == PathText(g)
  {
    var text, first := PathText(g), SegmentText(g[0]);
    if g[0].word != [] {
      assert text[0] == first[0] == g[0].word[0];
    } else {
      assert first == [];
      assert |g| > 1 ==> text[0] == ':';
    }
  }

  // ---------------------------------------------------------------- aliases

  /** Nothing in a segment reads as ` as `, whatever stands around it. */
  lemma NoAsInSegment(prefix: string, g: Segment, tail: string, j: nat)
    requires ValidSegment(g)
    requires prefix == [] || prefix[|prefix| - 1] == ':'
    requires tail == [] || tail[0] == ':' || IsSpace(tail[0])
    requires |prefix| <= j < |prefix| + |SegmentText(g)|
    ensures !AsAt(prefix + SegmentText(g) + tail, j)
  {
    var t, k := prefix + SegmentText(g) + tail, j - |prefix|;
    assert t[j] == SegmentText(g)[k];
    var i := k - |g.before|;
    if i < 0 {
      assert t[j] == g.before[k];
    } else if i >= |g.word| {
      assert t[j] == g.after[i - |g.word|];
    } else if i > 0 {
      assert t[j - 1] == SegmentText(g)[k - 1] == g.word[i - 1];
    } else if |g.word| > 2 {
      assert t[j + 2] == SegmentText(g)[k + 2] == g.word[2];
    } else if |g.word| == 2 {
      assert t[j + 1] == SegmentText(g)[k + 1] == g.word[1];
      assert g.word == [t[j], t[j + 1]];
    } else if g.after != [] {
      assert t[j + 1] == SegmentText(g)[k + 1] == g.after[0];
    } else if tail != [] {
      assert t[j + 1] == tail[0];
    }
  }

  lemma {:induction false} NoAsInPath(prefix: string, g: seq<Segment>, tail: string, j: nat)
    requires SegmentsOk(g)
    requires prefix == [] || prefix[|prefix| - 1] == ':'
    requires tail == [] || tail[0] == ':' || IsSpace(tail[0])
    requires |prefix| <= j < |prefix| + |PathText(g)|
    ensures !AsAt(prefix + PathText(g) + tail, j)
    decreases g
  {
    var first := SegmentText(g[0]);
    if |g| == 1 {
      NoAsInSegment(prefix, g[0], tail, j);
    } else {
      var rest := PathText(g[1..]);
      var prefix' := prefix + first + "::";
      Regroup(prefix, first, rest, tail);
      if j < |prefix| + |first| {
        NoAsInSegment(prefix, g[0], "::" + rest + tail, j);
      } else if j >= |prefix'| {
        NoAsInPath(prefix', g[1..], tail, j);
      }
    }
  }

  lemma Regroup(prefix: string, first: string, rest: string, tail: string)
    ensures var t := prefix + (first + "::" + rest) + tail;
            && t == prefix + first + ("::" + rest + tail)
            && t == (prefix + first + "::") + rest + tail
            && (forall j :: |prefix| + |first| <= j < |prefix| + |first| + 2 ==> t[j] == ':')
  {
  }

  lemma AliasAt(path: string, gap: string, rest: string, j: nat)
    requires Blank(gap) && gap != []
    requires |rest| >= 3 && rest[0] == 'a' && rest[1] == 's' && IsSpace(rest[2])
    requires |path| <= j <= |path| + |gap|
    ensures AsAt(path + gap + rest, j) <==> j == |path| + |gap|
  {
    var t, at := path + gap + rest, |path| + |gap|;
    if j < at {
      assert t[j] == gap[j - |path|];
    } else {
      assert t[at] == rest[0] && t[at + 1] == rest[1] && t[at + 2] == rest[2];
      assert t[at - 1] == gap[|gap| - 1];
    }
  }

  lemma AliasFound(path: string, gap: string, rest: string)
    requires Blank(gap) && gap != []
    requires |rest| >= 3 && rest[0] == 'a' && rest[1] == 's' && IsSpace(rest[2])
    requires var r := FindAs(path + gap + rest, 0); r >= |path|
    ensures WithoutAlias(path + gap + rest) == RightStrip(path)
  {
    var t, at := path + gap + rest, |path| + |gap|;
    var r := FindAs(t, 0);
    AliasAt(path, gap, rest, at);
    if r < at { AliasAt(path, gap, rest, r); }
    assert t[..at] == path + gap;
    RightStripBlank(path, gap);
  }

  lemma FirstAsAfterPath(g: seq<Segment>, tail: string)
    requires SegmentsOk(g) && (tail == [] || IsSpace(tail[0]))
    ensures FindAs(PathText(g) + tail, 0) >= |PathText(g)|
  {
    var r := FindAs(PathText(g) + tail, 0);
    if r < |PathText(g)| {
      assert [] + PathText(g) + tail == PathText(g) + tail;
      NoAsInPath([], g, tail, r);
    }
  }

  lemma PlainLeafParts(g: seq<Segment>)
    requires SegmentsOk(g)
    ensures Parts(WithoutAlias(PathText(g))) == Words(g)
  {
    assert PathText(g) + [] == PathText(g);
    FirstAsAfterPath(g, []);
    PathParts(g);
  }

  lemma AliasLeafParts(g: seq<Segment>, gap: string, rest: string)
    requires SegmentsOk(g) && Blank(gap) && gap != []
    requires |rest| >= 3 && rest[0] == 'a' && rest[1] == 's' && IsSpace(rest[2])
    ensures Parts(WithoutAlias(PathText(g) + gap + rest)) == Words(g)
  {
    assert PathText(g) + gap + rest == PathText(g) + (gap + rest);
    FirstAsAfterPath(g, gap + rest);
    AliasFound(PathText(g), gap, rest);
    PathRightStrip(g);
    PathParts(TrimLast(g));
  }

  /** The alias of a leaf is cut off, and the parts of what is left are its words. */
  lemma LeafParts(g: seq<Segment>, a: Alias)
    requires SegmentsOk(g) && ValidAlias(a)
    ensures Parts(WithoutAlias(PathText(g) + AliasText(a))) == Words(g)
  {
    match a
    case NoAlias =>
      assert PathText(g) + AliasText(a) == PathText(g);
      PlainLeafParts(g);
    case As(gap, gap2, name) =>
      var rest := "as" + (gap2 + name);
      assert PathText(g) + AliasText(a) == PathText(g) + gap + rest;
      AliasLeafParts(g, gap, rest);
  }

  // ---------------------------------------------------------------- the expansion

  lemma {:induction false} NoBrace(s: string, rest: string)
    requires '{' !in s
    ensures FindBrace(s) == |s| && FindBrace(s + "{" + rest) == |s|
  {
    var t := s + "{" + rest;
    if s == [] {
      assert t[0] == '{';
    } else {
      NoBrace(s[1..], rest);
      assert t[1..] == s[1..] + "{" + rest && t[0] == s[0];
    }
  }

  lemma VisibleJoin(a: string, b: string)
    requires a != [] && !IsSpace(a[0]) && b != [] && !IsSpace(b[|b| - 1])
    ensures Visible(a + b)
  {
  }

  lemma LeafVisible(g: seq<Segment>, a: Alias)
    requires ValidSegments(g) && ValidAlias(a) && Words(g) != []
    requires a.NoAlias? ==> EndsVisibly(g)
    ensures Visible(PathText(g) + AliasText(a)) && '{' !in PathText(g) + AliasText(a)
  {
    PathFlat(g);
    PathVisible(g);
    match a
    case NoAlias => assert PathText(g) + AliasText(a) == PathText(g);
    case As(gap, gap2, name) =>
      var front := PathText(g) + (gap + "as" + gap2);
      assert PathText(g) + AliasText(a) == front + name;
      assert front[0] == PathText(g)[0];
      VisibleJoin(front, name);
  }

  lemma PathVisible(g: seq<Segment>)
    requires ValidSegments(g) && Words(g) != []
    ensures PathText(g) != [] && !IsSpace(PathText(g)[0])
    ensures EndsVisibly(g) ==> !IsSpace(PathText(g)[|PathText(g)| - 1])
  {
    var first := SegmentText(g[0]);
    assert g[0].word != [] ==> first[0] == g[0].word[0];
    assert |g| > 1 ==> PathText(g) == first + ("::" + PathText(g[1..]));
    assert |g| == 1 ==> Words(g[1..]) == [];
    if EndsVisibly(g) { PathEndsVisibly(g); }
  }

  lemma PathEndsVisibly(g: seq<Segment>)
    requires SegmentsOk(g) && EndsVisibly(g) && PathText(g) != []
    ensures !IsSpace(PathText(g)[|PathText(g)| - 1])
  {
    var last := g[|g| - 1];
    if last.word != [] {
      assert SegmentText(last)[|SegmentText(last)| - 1] == last.word[|last.word| - 1];
    } else {
      assert SegmentText(last) == [];
    }
    if |g| > 1 { PathAppend(g); }
  }

  lemma GroupVisible(g: seq<Segment>, inner: string)
    requires ValidSegments(g)
    ensures var core := PathText(g) + "{" + inner + "}";
            && Visible(core) && FindBrace(core) == |PathText(g)|
            && core[..|PathText(g)|] == PathText(g)
            && core[|PathText(g)| + 1..|core| - 1] == inner && core[|core| - 1] == '}'
  {
    var path := PathText(g);
    var core := path + "{" + inner + "}";
    assert core == path + "{" + (inner + "}");
    PathFlat(g);
    NoBrace(path, inner + "}");
    StartVisible(g);
    assert path != [] ==> core[0] == path[0];
  }

  /** Expanding one printed item gives its meaning. */
  lemma {:induction false} ExpandItem(t: Item, prefix: Path)
    requires Valid(t)
    ensures ExpandBranch(Text(t), prefix) == Denote(t, prefix)
    decreases t, 0
  {
    match t
    case Empty(gap) =>
      assert gap == gap + [] + [];
      StripAround(gap, [], []);
    case Leaf(before, segments, alias, after) =>
      LeafVisible(segments, alias);
      StripAround(before, Core(t), after);
      NoBrace(Core(t), []);
      LeafParts(segments, alias);
    case Group(before, segments, items, after) =>
      ExpandGroup(before, segments, items, after, prefix);
  }

  lemma {:induction false} ExpandGroup(before: string, segments: seq<Segment>, items: seq<Item>,
                                       after: string, prefix: Path)
    requires Valid(Group(before, segments, items, after))
    ensures var t := Group(before, segments, items, after);
            ExpandBranch(Text(t), prefix) == Denote(t, prefix)
    decreases items
  {
    var t := Group(before, segments, items, after);
    GroupVisible(segments, Join(Texts(items)));
    StripAround(before, Core(t), after);
    HeadParts(segments);
    ExpandPrinted(items, prefix + Words(segments));
  }

  lemma {:induction false} ExpandItems(items: seq<Item>, prefix: Path, n: nat)
    requires AllValid(items)
    requires forall i :: 0 <= i < |items| ==> |Texts(items)[i]| <= n
    ensures ExpandAll(Texts(items), prefix, n) == DenoteAll(items, prefix)
    decreases items, 1
  {
    if items != [] {
      var rest := Texts(items[1..]);
      assert Texts(items) == [Text(items[0])] + rest;
      assert Texts(items)[1..] == rest;
      forall i | 0 <= i < |rest| ensures |rest[i]| <= n { assert rest[i] == Texts(items)[i + 1]; }
      ExpandItem(items[0], prefix);
      ExpandItems(items[1..], prefix, n);
    }
  }

  /** Printing the items of a tree and expanding the text under any prefix returns exactly the
      paths the items denote, in order. */
  lemma {:induction false} ExpandPrinted(items: seq<Item>, prefix: Path)
    requires AllValid(items) && items != []
    ensures Expand(Join(Texts(items)), prefix) == DenoteAll(items, prefix)
    decreases items, 2
  {
    JoinClosed(items);
    SplitJoin(Texts(items));
    ExpandItems(items, prefix, |Join(Texts(items))|);
  }
}
