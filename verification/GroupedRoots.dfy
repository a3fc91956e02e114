/** The crate-root names of grouped imports (`grouped_roots`), and how they relate to the expanded
    paths. The regular-expression class `\w` is the parameter `word`. */
module GroupedRoots {
  import opened CrateGroups
  import opened UseTree
  import opened UseSyntax
  import opened UseTreeLaws

  // ---------------------------------------------------------------- the scan

  predicate IdentStart(c: char) {
    'A' <= c <= 'Z' || 'a' <= c <= 'z' || c == '_'
  }

  function IdentEnd(word: char -> bool, s: string, i: nat): (r: nat)
    requires i <= |s|
    ensures i <= r <= |s|
    decreases |s| - i
  {
    if i < |s| && word(s[i]) then IdentEnd(word, s, i + 1) else i
  }

  /** The match of `[A-Za-z_]\w*` at the front of the stripped field, if any. */
  function Root(word: char -> bool, field: string): seq<string> {
    var f := Strip(field);
    if f != [] && IdentStart(f[0]) then [f[..IdentEnd(word, f, 1)]] else []
  }

  function RootOf(word: char -> bool): string -> seq<string> {
    (field: string) => Root(word, field)
  }

  /** The roots found from `pos` on, in a group whose current field starts at `start`. */
  function RootsFrom(root: string -> seq<string>, s: string, start: nat, pos: nat, depth: nat): seq<string>
    requires start <= pos <= |s|
    decreases |s| - pos
  {
    if pos == |s| then []
    else if s[pos] == '{' then RootsFrom(root, s, start, pos + 1, depth + 1)
    else if s[pos] == '}' then
      if depth == 0 then root(s[start..pos]) else RootsFrom(root, s, start, pos + 1, depth - 1)
    else if s[pos] == ',' && depth == 0 then
      root(s[start..pos]) + RootsFrom(root, s, pos + 1, pos + 1, 0)
    else RootsFrom(root, s, start, pos + 1, depth)
  }

  /** One group: the scan from just after its opening brace. */
  method GroupRoots(root: string -> seq<string>, source: string, start: nat) returns (roots: seq<string>)
    requires start <= |source|
    ensures roots == RootsFrom(root, source, start, start, 0)
  {
    roots := [];
    var depth, fieldStart, pos := 0, start, start;
    while pos < |source|
      invariant 0 <= fieldStart <= pos <= |source| && depth >= 0
      invariant roots + RootsFrom(root, source, fieldStart, pos, depth)
             == RootsFrom(root, source, start, start, 0)
    {
      var c := source[pos];
      if c == '{' {
        depth := depth + 1;
      } else if c == '}' {
        if depth == 0 {
          roots := roots + root(source[fieldStart..pos]);
          return;
        }
        depth := depth - 1;
      } else if c == ',' && depth == 0 {
        roots := roots + root(source[fieldStart..pos]);
        fieldStart := pos + 1;
      }
      pos := pos + 1;
    }
  }

  /** The roots of all groups, in order. */
  function AllRoots(root: string -> seq<string>, s: string, starts: seq<nat>): seq<string>
    requires forall i :: 0 <= i < |starts| ==> starts[i] <= |s|
  {
    if starts == [] then []
    else RootsFrom(root, s, starts[0], starts[0], 0) + AllRoots(root, s, starts[1..])
  }

  /** `grouped_roots(source)`: the roots of every group that a match of the pattern opens. */
  method GroupedRootsOf(word: char -> bool, source: string) returns (roots: seq<string>)
    ensures roots == AllRoots(RootOf(word), source, Starts(source, 0))
  {
    roots := [];
    var pos := 0;
    ghost var all := AllRoots(RootOf(word), source, Starts(source, 0));
    while pos < |source|
      invariant pos <= |source|
      invariant roots + AllRoots(RootOf(word), source, Starts(source, pos)) == all
    {
      var start := MatchEnd(source, pos);
      if start == 0 {
        pos := pos + 1;
      } else {
        var found := GroupRoots(RootOf(word), source, start);
        FirstGroup(RootOf(word), source, pos, roots);
        roots, pos := roots + found, start;
      }
    }
  }

  lemma FirstGroup(root: string -> seq<string>, s: string, pos: nat, roots: seq<string>)
    requires pos < |s| && MatchEnd(s, pos) != 0
    ensures var e := MatchEnd(s, pos);
            roots + AllRoots(root, s, Starts(s, pos))
            == roots + RootsFrom(root, s, e, e, 0) + AllRoots(root, s, Starts(s, e))
  {
    var e := MatchEnd(s, pos);
    assert Starts(s, pos)[1..] == Starts(s, e);
  }

  // ---------------------------------------------------------------- printed groups

  lemma {:induction false} RootsSkip(root: string -> seq<string>, s: string, start: nat, pos: nat, t: string,
                                     depth: nat)
    requires start <= pos && pos + |t| <= |s| && s[pos..pos + |t|] == t
    requires NoCut(t, depth) && Stays(t, depth)
    ensures Net(t, depth) >= 0
    ensures RootsFrom(root, s, start, pos, depth) == RootsFrom(root, s, start, pos + |t|, Net(t, depth))
    decreases |t|
  {
    if t != [] {
      assert s[pos] == t[0] && s[pos + 1..pos + |t|] == t[1..];
      RootsSkip(root, s, start, pos + 1, t[1..], Step(depth, t[0]));
    }
  }

  /** The roots of the printed items, one field after the other. */
  function FieldRoots(root: string -> seq<string>, texts: seq<string>): seq<string> {
    if texts == [] then [] else root(texts[0]) + FieldRoots(root, texts[1..])
  }

  ghost predicate AllClosed(texts: seq<string>) {
    forall i :: 0 <= i < |texts| ==> Closed(texts[i])
  }

  lemma {:induction false} RootsOfFields(root: string -> seq<string>, s: string, pos: nat, texts: seq<string>,
                                         end: string)
    requires texts != [] && AllClosed(texts) && end != [] && end[0] == '}'
    requires pos <= |s| && s[pos..] == Join(texts) + end
    ensures RootsFrom(root, s, pos, pos, 0) == FieldRoots(root, texts)
    decreases texts
  {
    var first := texts[0];
    if |texts| == 1 {
      FieldAt(s, pos, first, end);
      FieldScanned(root, s, pos, first);
      assert FieldRoots(root, texts[1..]) == [];
    } else {
      var rest := Join(texts[1..]) + end;
      Regrouped(first, Join(texts[1..]), end);
      FieldAt(s, pos, first, "," + rest);
      assert ("," + rest)[1..] == rest;
      FieldScanned(root, s, pos, first);
      RootsOfFields(root, s, pos + |first| + 1, texts[1..], end);
    }
  }

  lemma Regrouped(a: string, b: string, c: string)
    ensures a + "," + b + c == a + ("," + (b + c))
  {
  }

  lemma FieldScanned(root: string -> seq<string>, s: string, pos: nat, first: string)
    requires Closed(first) && pos + |first| < |s| && s[pos..pos + |first|] == first
    ensures var next := pos + |first|;
            && (s[next] == '}' ==> RootsFrom(root, s, pos, pos, 0) == root(first))
            && (s[next] == ',' ==> RootsFrom(root, s, pos, pos, 0)
                                   == root(first) + RootsFrom(root, s, next + 1, next + 1, 0))
  {
    RootsSkip(root, s, pos, pos, first, 0);
  }

  lemma FieldAt(s: string, pos: nat, first: string, rest: string)
    requires pos <= |s| && s[pos..] == first + rest && rest != []
    ensures var next := pos + |first|;
            next < |s| && s[pos..next] == first && s[next] == rest[0] && s[next + 1..] == rest[1..]
  {
    var t, next := s[pos..], pos + |first|;
    assert s[pos..next] == t[..|first|];
    assert s[next + 1..] == t[|first| + 1..];
  }

  // ---------------------------------------------------------------- named items

  ghost predicate WordClass(word: char -> bool) {
    !word(':') && !word('{') && forall c :: IsSpace(c) ==> !word(c)
  }

  predicate Identifier(word: char -> bool, w: string) {
    w != [] && IdentStart(w[0]) && forall i :: 1 <= i < |w| ==> word(w[i])
  }

  /** The item is empty or starts with an identifier. */
  predicate Named(word: char -> bool, t: Item) {
    t.Empty? || (t.segments != [] && Identifier(word, t.segments[0].word))
  }

  function Head(t: Item): string
    requires !t.Empty? && t.segments != []
  {
    t.segments[0].word
  }

  lemma {:induction false} IdentEndAt(word: char -> bool, s: string, i: nat, end: nat)
    requires i <= end <= |s| && (forall j :: i <= j < end ==> word(s[j]))
    requires end == |s| || !word(s[end])
    ensures IdentEnd(word, s, i) == end
    decreases end - i
  {
    if i < end { IdentEndAt(word, s, i + 1, end); }
  }

  /** What follows the first word of an item is not a word character. */
  lemma AfterFirstWord(word: char -> bool, t: Item)
    requires WordClass(word) && Valid(t) && !t.Empty? && Identifier(word, Head(t))
    ensures Head(t) <= Core(t)
    ensures |Core(t)| == |Head(t)| || !word(Core(t)[|Head(t)|])
  {
    PathHead(t.segments);
    var path := PathText(t.segments);
    match t
    case Leaf(_, _, alias, _) =>
      assert alias.As? ==> AliasText(alias)[0] == alias.gap[0];
      WordThen(word, Head(t), path, AliasText(alias));
    case Group(_, _, items, _) =>
      var rest := "{" + Join(Texts(items)) + "}";
      assert Core(t) == path + rest && rest[0] == '{';
      WordThen(word, Head(t), path, rest);
  }

  lemma WordThen(word: char -> bool, w: string, path: string, rest: string)
    requires WordClass(word) && w <= path
    requires |path| == |w| || path[|w|] == ':' || IsSpace(path[|w|])
    requires rest == [] || rest[0] == '{' || IsSpace(rest[0])
    ensures w <= path + rest && (|path + rest| == |w| || !word((path + rest)[|w|]))
  {
  }

  lemma PathHead(g: seq<Segment>)
    requires ValidSegments(g) && g[0].word != []
    ensures g[0].word <= PathText(g)
    ensures |PathText(g)| == |g[0].word| || PathText(g)[|g[0].word|] == ':'
            || IsSpace(PathText(g)[|g[0].word|])
  {
    var w, path := g[0].word, PathText(g);
    assert SegmentText(g[0]) == w + g[0].after;
    if |g| > 1 {
      assert path == w + (g[0].after + "::" + PathText(g[1..]));
    }
    assert g[0].after != [] ==> path[|w|] == g[0].after[0];
    assert g[0].after == [] && |g| > 1 ==> path[|w|] == ':';
  }

  lemma RootOfItem(word: char -> bool, t: Item)
    requires WordClass(word) && Valid(t) && Named(word, t)
    ensures Root(word, Text(t)) == if t.Empty? then [] else [Head(t)]
  {
    match t
    case Empty(gap) =>
      assert gap == gap + [] + [];
      StripAround(gap, [], []);
    case Leaf(before, segments, alias, after) =>
      LeafVisible(segments, alias);
      StripAround(before, Core(t), after);
      RootOfCore(word, t);
    case Group(before, segments, items, after) =>
      GroupVisible(segments, Join(Texts(items)));
      StripAround(before, Core(t), after);
      RootOfCore(word, t);
  }

  lemma RootOfCore(word: char -> bool, t: Item)
    requires WordClass(word) && Valid(t) && !t.Empty? && Identifier(word, Head(t))
    ensures Core(t) != [] && IdentStart(Core(t)[0])
    ensures Core(t)[..IdentEnd(word, Core(t), 1)] == Head(t)
  {
    AfterFirstWord(word, t);
    var core, w := Core(t), Head(t);
    assert core[..|w|] == w;
    forall j | 1 <= j < |w| ensures word(core[j]) { assert core[j] == w[j]; }
    IdentEndAt(word, core, 1, |w|);
  }

  function Heads(items: seq<Item>): seq<string>
    requires forall i :: 0 <= i < |items| && !items[i].Empty? ==> items[i].segments != []
  {
    if items == [] then []
    else (if items[0].Empty? then [] else [Head(items[0])]) + Heads(items[1..])
  }

  ghost predicate AllNamed(word: char -> bool, items: seq<Item>) {
    forall i :: 0 <= i < |items| ==> Named(word, items[i])
  }

  lemma {:induction false} RootsOfItems(word: char -> bool, items: seq<Item>)
    requires WordClass(word) && AllValid(items) && AllNamed(word, items)
    ensures FieldRoots(RootOf(word), Texts(items)) == Heads(items) && AllClosed(Texts(items))
    decreases items
  {
    if items != [] {
      var rest := Texts(items[1..]);
      assert Texts(items) == [Text(items[0])] + rest && Texts(items)[1..] == rest;
      RootOfItem(word, items[0]);
      TextClosed(items[0]);
      RootsOfItems(word, items[1..]);
      forall i | 0 <= i < |items|
        ensures Closed(Texts(items)[i])
      {
        assert i > 0 ==> Texts(items)[i] == rest[i - 1];
      }
    }
  }

  /** For a printed group whose items start with identifiers, the scan finds exactly the first
      words of its items, in order, wherever the group stands in the source. */
  lemma RootsOfGroup(word: char -> bool, source: string, start: nat, items: seq<Item>, tail: string)
    requires WordClass(word) && AllValid(items) && items != [] && AllNamed(word, items)
    requires start <= |source| && source[start..] == Join(Texts(items)) + ("}" + tail)
    ensures RootsFrom(RootOf(word), source, start, start, 0) == Heads(items)
  {
    RootsOfItems(word, items);
    RootsOfFields(RootOf(word), source, start, Texts(items), "}" + tail);
  }

  // ---------------------------------------------------------------- roots and expanded paths

  /** The item denotes some path: it is a leaf, or a group around such an item. */
  predicate Denotes(t: Item)
    decreases t
  {
    match t
    case Empty(_) => false
    case Leaf(_, _, _, _) => true
    case Group(_, _, items, _) => exists i :: 0 <= i < |items| && Denotes(items[i])
  }

  lemma {:induction false} WordsHead(g: seq<Segment>)
    requires g != [] && g[0].word != []
    ensures Words(g) != [] && Words(g)[0] == g[0].word
  {
  }

  /** Every path an item denotes extends the prefix by the words of the item. */
  lemma {:induction false} DenoteUnder(t: Item, prefix: Path, p: Path)
    requires p in Denote(t, prefix)
    ensures !t.Empty? && prefix + Words(t.segments) <= p
    decreases t
  {
    match t
    case Empty(_) =>
    case Leaf(_, segments, _, _) =>
    case Group(_, segments, items, _) =>
      var i := InSome(items, prefix + Words(segments), p);
      DenoteUnder(items[i], prefix + Words(segments), p);
  }

  /** A path of a list of items is a path of one of them. */
  lemma {:induction false} InSome(items: seq<Item>, prefix: Path, p: Path) returns (i: nat)
    requires p in DenoteAll(items, prefix)
    ensures i < |items| && p in Denote(items[i], prefix)
    decreases items
  {
    if p in Denote(items[0], prefix) {
      i := 0;
    } else {
      i := InSome(items[1..], prefix, p);
      i := i + 1;
    }
  }

  lemma {:induction false} InAll(items: seq<Item>, prefix: Path, i: nat, p: Path)
    requires i < |items| && p in Denote(items[i], prefix)
    ensures p in DenoteAll(items, prefix)
    decreases items
  {
    if i > 0 { InAll(items[1..], prefix, i - 1, p); }
  }

  lemma {:induction false} DenotesSome(t: Item, prefix: Path)
    ensures Denotes(t) <==> Denote(t, prefix) != []
    decreases t
  {
    if t.Group? {
      var inner := prefix + Words(t.segments);
      if Denotes(t) {
        var i :| 0 <= i < |t.items| && Denotes(t.items[i]);
        DenotesSome(t.items[i], inner);
        InAll(t.items, inner, i, Denote(t.items[i], inner)[0]);
      }
      if Denote(t, prefix) != [] {
        var i := InSome(t.items, inner, Denote(t, prefix)[0]);
        DenotesSome(t.items[i], inner);
      }
    }
  }

  /** `r` is the first name of an expanded path. */
  ghost predicate PathHeadOf(paths: seq<Path>, r: string) {
    exists p :: p in paths && p != [] && p[0] == r
  }

  ghost predicate NamesOf(items: seq<Item>, r: string) {
    exists i :: 0 <= i < |items| && !items[i].Empty? && items[i].segments != [] && Head(items[i]) == r
  }

  ghost predicate DenotedNameOf(items: seq<Item>, r: string) {
    exists i :: 0 <= i < |items| && Denotes(items[i]) && items[i].segments != [] && Head(items[i]) == r
  }

  lemma {:induction false} HeadsAre(items: seq<Item>, r: string)
    requires forall i :: 0 <= i < |items| && !items[i].Empty? ==> items[i].segments != []
    ensures r in Heads(items) <==> NamesOf(items, r)
    decreases items
  {
    if items != [] {
      HeadsAre(items[1..], r);
      if NamesOf(items[1..], r) {
        var rest := items[1..];
        var i :| 0 <= i < |rest| && !rest[i].Empty? && rest[i].segments != [] && Head(rest[i]) == r;
        assert items[i + 1] == rest[i];
      }
      if NamesOf(items, r) && !(r in Heads(items[..1])) {
        var i :| 0 <= i < |items| && !items[i].Empty? && items[i].segments != [] && Head(items[i]) == r;
        assert i > 0 ==> items[1..][i - 1] == items[i];
      }
    }
  }

  lemma HeadsOfPaths(word: char -> bool, items: seq<Item>, r: string)
    requires AllValid(items) && AllNamed(word, items)
    ensures PathHeadOf(DenoteAll(items, []), r) <==> DenotedNameOf(items, r)
  {
    var paths := DenoteAll(items, []);
    if PathHeadOf(paths, r) {
      var p :| p in paths && p != [] && p[0] == r;
      var i := InSome(items, [], p);
      DenoteUnder(items[i], [], p);
      DenotesSome(items[i], []);
      WordsHead(items[i].segments);
      assert [] + Words(items[i].segments) == Words(items[i].segments);
      assert Denotes(items[i]) && Head(items[i]) == r;
    }
    if DenotedNameOf(items, r) {
      var i :| 0 <= i < |items| && Denotes(items[i]) && items[i].segments != [] && Head(items[i]) == r;
      DenotesSome(items[i], []);
      var p := Denote(items[i], [])[0];
      DenoteUnder(items[i], [], p);
      WordsHead(items[i].segments);
      assert [] + Words(items[i].segments) == Words(items[i].segments);
      InAll(items, [], i, p);
    }
  }

  /** The roots that the scan finds and the first names of the expanded paths are the same names
      exactly when every named item shares its name with an item that denotes a path. An empty
      group such as `a::{}` is what separates the two: the scan reports `a`, and no path does. */
  lemma RootsAreHeads(word: char -> bool, source: string, start: nat, items: seq<Item>, tail: string)
    requires WordClass(word) && AllValid(items) && items != [] && AllNamed(word, items)
    requires start <= |source| && source[start..] == Join(Texts(items)) + ("}" + tail)
    ensures var roots := RootsFrom(RootOf(word), source, start, start, 0);
            var paths := Expand(Join(Texts(items)), []);
            && (forall r :: PathHeadOf(paths, r) ==> r in roots)
            && ((forall r :: r in roots ==> PathHeadOf(paths, r))
                <==> forall r :: NamesOf(items, r) ==> DenotedNameOf(items, r))
  {
    RootsOfGroup(word, source, start, items, tail);
    ExpandPrinted(items, []);
    forall r
      ensures r in Heads(items) <==> NamesOf(items, r)
      ensures PathHeadOf(DenoteAll(items, []), r) <==> DenotedNameOf(items, r)
      ensures DenotedNameOf(items, r) ==> NamesOf(items, r)
    {
      HeadsAre(items, r);
      HeadsOfPaths(word, items, r);
    }
  }

  /** Every match opens a printed group of named items. */
  ghost predicate Opened(word: char -> bool, source: string, starts: seq<nat>, groups: seq<seq<Item>>) {
    && |groups| == |starts|
    && (forall i :: 0 <= i < |starts| ==> starts[i] <= |source| && OpensGroup(word, source[starts[i]..], groups[i]))
  }

  ghost predicate OpensGroup(word: char -> bool, rest: string, items: seq<Item>) {
    && AllValid(items) && items != [] && AllNamed(word, items)
    && exists tail :: rest == Join(Texts(items)) + ("}" + tail)
  }

  ghost predicate NamesSome(groups: seq<seq<Item>>, r: string) {
    exists i :: 0 <= i < |groups| && NamesOf(groups[i], r)
  }

  ghost predicate DenotesSomeName(groups: seq<seq<Item>>, r: string) {
    exists i :: 0 <= i < |groups| && DenotedNameOf(groups[i], r)
  }

  /** The first names of all paths that the groups expand to. */
  ghost predicate HeadsSome(groups: seq<seq<Item>>, r: string)
    requires forall i :: 0 <= i < |groups| ==> AllValid(groups[i]) && groups[i] != []
  {
    exists i :: 0 <= i < |groups| && PathHeadOf(Expand(Join(Texts(groups[i])), []), r)
  }

  lemma GroupNames(word: char -> bool, source: string, start: nat, items: seq<Item>, r: string)
    requires WordClass(word) && start <= |source| && OpensGroup(word, source[start..], items)
    ensures r in RootsFrom(RootOf(word), source, start, start, 0) <==> NamesOf(items, r)
    ensures PathHeadOf(Expand(Join(Texts(items)), []), r) <==> DenotedNameOf(items, r)
  {
    var tail :| source[start..] == Join(Texts(items)) + ("}" + tail);
    RootsOfGroup(word, source, start, items, tail);
    ExpandPrinted(items, []);
    HeadsAre(items, r);
    HeadsOfPaths(word, items, r);
  }

  lemma {:induction false} RootsOfStarts(word: char -> bool, source: string, starts: seq<nat>,
                                         groups: seq<seq<Item>>, r: string)
    requires WordClass(word) && Opened(word, source, starts, groups)
    ensures r in AllRoots(RootOf(word), source, starts) <==> NamesSome(groups, r)
    decreases starts
  {
    if starts != [] {
      GroupNames(word, source, starts[0], groups[0], r);
      RootsOfStarts(word, source, starts[1..], groups[1..], r);
      assert NamesSome(groups, r) <==> NamesOf(groups[0], r) || NamesSome(groups[1..], r) by {
        if NamesSome(groups[1..], r) {
          var i :| 0 <= i < |groups[1..]| && NamesOf(groups[1..][i], r);
          assert groups[i + 1] == groups[1..][i];
        }
        if NamesSome(groups, r) && !NamesOf(groups[0], r) {
          var i :| 0 <= i < |groups| && NamesOf(groups[i], r);
          assert groups[1..][i - 1] == groups[i];
        }
      }
    }
  }

  /** For a whole source: what `grouped_roots` finds is every first word of an item of any group, and the
      heads of the expanded paths are the same names exactly if each is shared by an item, of any group,
      that denotes a path. */
  lemma RootsOfSource(word: char -> bool, source: string, groups: seq<seq<Item>>)
    requires WordClass(word) && Opened(word, source, Starts(source, 0), groups)
    ensures var roots := AllRoots(RootOf(word), source, Starts(source, 0));
            && (forall r :: r in roots <==> NamesSome(groups, r))
            && (forall r :: HeadsSome(groups, r) ==> r in roots)
            && ((forall r :: r in roots ==> HeadsSome(groups, r))
                <==> forall r :: NamesSome(groups, r) ==> DenotesSomeName(groups, r))
  {
    forall r
      ensures r in AllRoots(RootOf(word), source, Starts(source, 0)) <==> NamesSome(groups, r)
      ensures HeadsSome(groups, r) <==> DenotesSomeName(groups, r)
      ensures DenotesSomeName(groups, r) ==> NamesSome(groups, r)
    {
      RootsOfStarts(word, source, Starts(source, 0), groups, r);
      HeadsOfGroups(word, source, Starts(source, 0), groups, r);
    }
  }

  lemma HeadsOfGroups(word: char -> bool, source: string, starts: seq<nat>, groups: seq<seq<Item>>, r: string)
    requires WordClass(word) && Opened(word, source, starts, groups)
    ensures HeadsSome(groups, r) <==> DenotesSomeName(groups, r)
    ensures DenotesSomeName(groups, r) ==> NamesSome(groups, r)
  {
    forall i | 0 <= i < |groups|
      ensures PathHeadOf(Expand(Join(Texts(groups[i])), []), r) <==> DenotedNameOf(groups[i], r)
      ensures DenotedNameOf(groups[i], r) ==> NamesOf(groups[i], r)
    {
      GroupNames(word, source, starts[i], groups[i], r);
    }
  }

  const EMPTY_GROUP: Item :=
    Group([], [Segment([], "a", []), Segment([], [], [])], [Empty([])], [])

  lemma EmptyGroupText()
    ensures Valid(EMPTY_GROUP) && Text(EMPTY_GROUP) == "a::{}"
  {
    var segments, inner := EMPTY_GROUP.segments, EMPTY_GROUP.items;
    assert Words(segments) == ["a"] + Words(segments[1..]);
    assert Texts(inner) == [[]] && Join([[]]) == [];
    assert segments[1..] == [Segment([], [], [])];
    assert PathText(segments) == "a" + "::" + [];
    assert Core(EMPTY_GROUP) == PathText(segments) + "{" + [] + "}" == "a::{}";
    assert Text(EMPTY_GROUP) == [] + Core(EMPTY_GROUP) + [];
  }

  /** The smallest text that separates them: the group `{a::{}}` has the root `a` and no path. */
  lemma EmptyGroupSeparates(word: char -> bool)
    requires WordClass(word)
    ensures RootsFrom(RootOf(word), "a::{}}", 0, 0, 0) == ["a"]
    ensures Expand("a::{}", []) == []
  {
    var items := [EMPTY_GROUP];
    EmptyGroupText();
    assert Texts(items) == ["a::{}"] && items[1..] == [];
    var source := "a::{}}";
    assert source[0..] == "a::{}" + ("}" + []);
    RootsOfGroup(word, source, 0, items, []);
    ExpandPrinted(items, []);
    assert EMPTY_GROUP.items[1..] == [];
  }
}
