/** The body of a function in masked source: the text between its first brace and the one that
    closes it. */
module RustBody {
  import opened Options
  import opened RustMask
  import opened UseTree
  import opened UseTreeLaws

  /** The brace at `end` closes the one at `start`: the text between them is balanced. */
  predicate Encloses(s: string, start: nat, end: nat) {
    start < end < |s| && s[start] == '{' && s[end] == '}' && Balanced(s[start + 1..end])
  }

  /** At the end of text that never closes its brace, one more character. */
  lemma StaysAppend(s: string, c: char)
    ensures Stays(s + [c], 0) <==> Stays(s, 0) && Stays([c], Net(s, 0))
    ensures Net(s + [c], 0) == Step(Net(s, 0), c)
  {
    ConcatScan(s, [c], 0);
  }

  /** Only one brace closes it. */
  lemma EnclosesUnique(s: string, start: nat, a: nat, b: nat)
    requires Encloses(s, start, a) && Encloses(s, start, b)
    ensures a == b
  {
    if a < b {
      ClosedBefore(s, start, a, b);
    } else if b < a {
      ClosedBefore(s, start, b, a);
    }
  }

  /** Beyond the closing brace the text is not balanced any more. */
  lemma ClosedBefore(s: string, start: nat, a: nat, b: nat)
    requires Encloses(s, start, a) && a < b < |s|
    ensures !Stays(s[start + 1..b], 0)
  {
    var body, rest := s[start + 1..a], s[a + 1..b];
    assert s[start + 1..b] == body + (['}'] + rest);
    ConcatScan(body, ['}'] + rest, 0);
    ConcatScan(['}'], rest, 0);
  }

  /** `rust_function_body` from the end `from` of the matched signature. */
  method FunctionBody(source: string, from: nat) returns (body: Option<string>, ghost end: nat)
    requires from <= |source|
    ensures body.Some? ==> var start := FindChar(source, '{', from);
                           Encloses(source, start, end) && body.value == source[start + 1..end]
    ensures body == None ==> forall p :: !Encloses(source, FindChar(source, '{', from), p)
  {
    end := 0;
    var start := FindChar(source, '{', from);
    if start == |source| {
      return None, end;
    }
    var depth, pos := 1, start + 1;
    while pos < |source|
      invariant start < pos <= |source| && depth >= 1
      invariant Stays(source[start + 1..pos], 0) && depth == 1 + Net(source[start + 1..pos], 0)
      invariant forall p :: start < p < pos ==> !Encloses(source, start, p)
    {
      StaysAppend(source[start + 1..pos], source[pos]);
      assert source[start + 1..pos + 1] == source[start + 1..pos] + [source[pos]];
      if source[pos] == '{' {
        depth := depth + 1;
      } else if source[pos] == '}' {
        depth := depth - 1;
        if depth == 0 {
          return Some(source[start + 1..pos]), pos;
        }
      }
      pos := pos + 1;
    }
    return None, end;
  }
}
