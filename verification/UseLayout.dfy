/** White space as a list of code points, and the layout of grouped imports: written over many lines a
    tree has the same paths and roots as on one. */
module UseLayout {
  import opened Letters
  import opened UseTree
  import opened UseSyntax
  import opened UseTreeLaws
  import opened GroupedRoots

  /** The white space of Python's strings. */
  const SPACES: seq<int> :=
    [0x09, 0x0A, 0x0B, 0x0C, 0x0D, 0x1C, 0x1D, 0x1E, 0x1F, 0x20, 0x85, 0xA0, 0x1680,
     0x2000, 0x2001, 0x2002, 0x2003, 0x2004, 0x2005, 0x2006, 0x2007, 0x2008, 0x2009, 0x200A,
     0x2028, 0x2029, 0x202F, 0x205F, 0x3000]

  lemma SpacesAre(c: char)
    ensures IsSpace(c) <==> c as int in SPACES
  {
    var n, all := c as int, SPACES;
    if 0x09 <= n <= 0x0D {
      assert n == all[n - 0x09];
    } else if 0x1C <= n <= 0x20 {
      assert n == all[n - 0x1C + 5];
    } else if 0x2000 <= n <= 0x200A {
      assert n == all[n - 0x2000 + 13];
    } else if IsSpace(c) {
      assert n in [all[10], all[11], all[12], all[24], all[25], all[26], all[27], all[28]];
    }
  }

  lemma IdentStartsAre(c: char)
    ensures IdentStart(c) <==> c in CAPITALS || c in SMALL || c == '_'
  {
    CapitalsAre(c);
    SmallAre(c);
  }

  // ---------------------------------------------------------------- layout

  /** Line breaks, tabs and blanks. */
  predicate Layout(gap: string) {
    forall i :: 0 <= i < |gap| ==> gap[i] in ['\n', '\r', '\t', ' ']
  }

  lemma LayoutIsBlank(gap: string)
    requires Layout(gap)
    ensures Blank(gap)
  {
  }

  /** The item with the gap before and after it, and so with every item inside it. */
  function Loosen(t: Item, gap: string): Item
    decreases t, 0
  {
    match t
    case Empty(g) => Empty(gap + g)
    case Leaf(before, segments, alias, after) => Leaf(gap + before, segments, alias, after + gap)
    case Group(before, segments, items, after) => Group(gap + before, segments, LoosenAll(items, gap), after + gap)
  }

  function LoosenAll(items: seq<Item>, gap: string): (loose: seq<Item>)
    ensures |loose| == |items|
    decreases items
  {
    if items == [] then [] else [Loosen(items[0], gap)] + LoosenAll(items[1..], gap)
  }

  lemma {:induction false} LooseAt(items: seq<Item>, gap: string, i: nat)
    requires i < |items|
    ensures LoosenAll(items, gap)[i] == Loosen(items[i], gap)
    decreases items
  {
    if i > 0 {
      LooseAt(items[1..], gap, i - 1);
    }
  }

  lemma BlankConcat(a: string, b: string)
    requires Blank(a) && Blank(b)
    ensures Blank(a + b)
  {
  }

  lemma {:induction false} LooseValid(t: Item, gap: string)
    requires Valid(t) && Blank(gap)
    ensures Valid(Loosen(t, gap))
    decreases t
  {
    match t
    case Empty(g) => BlankConcat(gap, g);
    case Leaf(before, _, _, after) => BlankConcat(gap, before); BlankConcat(after, gap);
    case Group(before, _, items, after) =>
      BlankConcat(gap, before);
      BlankConcat(after, gap);
      forall i | 0 <= i < |items| ensures Valid(LoosenAll(items, gap)[i]) {
        LooseAt(items, gap, i);
        LooseValid(items[i], gap);
      }
  }

  lemma LooseAllValid(items: seq<Item>, gap: string)
    requires AllValid(items) && Blank(gap)
    ensures AllValid(LoosenAll(items, gap))
  {
    forall i | 0 <= i < |items| ensures Valid(LoosenAll(items, gap)[i]) {
      LooseAt(items, gap, i);
      LooseValid(items[i], gap);
    }
  }

  lemma {:induction false} LooseDenotes(t: Item, gap: string, prefix: Path)
    ensures Denote(Loosen(t, gap), prefix) == Denote(t, prefix)
    decreases t, 0
  {
    if t.Group? {
      LooseDenoteAll(t.items, gap, prefix + Words(t.segments));
    }
  }

  lemma {:induction false} LooseDenoteAll(items: seq<Item>, gap: string, prefix: Path)
    ensures DenoteAll(LoosenAll(items, gap), prefix) == DenoteAll(items, prefix)
    decreases items
  {
    if items != [] {
      LooseDenotes(items[0], gap, prefix);
      LooseDenoteAll(items[1..], gap, prefix);
      assert LoosenAll(items, gap)[1..] == LoosenAll(items[1..], gap);
    }
  }

  /** A tree written over lines, with line breaks, tabs and blanks around every item at every depth, has
      the paths of the tree without them. */
  lemma ExpandLaidOut(items: seq<Item>, gap: string, prefix: Path)
    requires AllValid(items) && items != [] && Layout(gap)
    ensures AllValid(LoosenAll(items, gap))
    ensures Expand(Join(Texts(LoosenAll(items, gap))), prefix) == Expand(Join(Texts(items)), prefix)
  {
    LayoutIsBlank(gap);
    LooseAllValid(items, gap);
    ExpandPrinted(LoosenAll(items, gap), prefix);
    ExpandPrinted(items, prefix);
    LooseDenoteAll(items, gap, prefix);
  }

  lemma {:induction false} LooseHeads(word: char -> bool, items: seq<Item>, gap: string)
    requires AllNamed(word, items) && AllValid(items)
    ensures AllNamed(word, LoosenAll(items, gap)) && Heads(LoosenAll(items, gap)) == Heads(items)
    decreases items
  {
    if items != [] {
      LooseHeads(word, items[1..], gap);
      var loose := LoosenAll(items, gap);
      assert loose[1..] == LoosenAll(items[1..], gap);
      assert loose[0] == Loosen(items[0], gap);
    }
  }

  /** And its roots. */
  lemma RootsLaidOut(word: char -> bool, source: string, start: nat, items: seq<Item>, gap: string, tail: string)
    requires WordClass(word) && AllValid(items) && items != [] && AllNamed(word, items) && Layout(gap)
    requires AllValid(LoosenAll(items, gap)) && start <= |source|
    requires source[start..] == Join(Texts(LoosenAll(items, gap))) + ("}" + tail)
    ensures RootsFrom(RootOf(word), source, start, start, 0) == Heads(items)
  {
    LooseHeads(word, items, gap);
    RootsOfGroup(word, source, start, LoosenAll(items, gap), tail);
  }
}
