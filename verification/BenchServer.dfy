/** The benchmark's fixture server: a directory behind optimistic concurrency. A mutation carries the
    revision it was based on in If-Match and commits only while that is still the revision. */
module BenchServer {
  import opened Bytes
  import opened Options

  type Name = Bytes

  const ADMIN: Name := Ascii("admin")
  const ADMIN_ID: Name := Ascii("admin-id")

  datatype State = State(requests: nat, revision: nat, groups: nat,
                         accounts: map<Name, Name>, directory: map<Name, set<Name>>)

  const FRESH: State := State(0, 1, 0, map[ADMIN := ADMIN_ID], map[])

  datatype Mutation = CreateUser(username: Name) | CreateGroup(name: Name) | AddMember(group: Name, username: Name)

  /** A mutating request as `commit_mutation` sees it. */
  datatype Call = Call(authorized: bool, keyed: bool, ifMatch: Option<Bytes>, change: Mutation)

  /** The entity tag of a revision, in double quotes. */
  function Tag(revision: nat): Bytes {
    [34] + Dec(revision) + [34]
  }

  lemma TagInjective(m: nat, n: nat)
    requires Tag(m) == Tag(n)
    ensures m == n
  {
    assert Tag(m)[1..|Tag(m)| - 1] == Dec(m) && Tag(n)[1..|Tag(n)| - 1] == Dec(n);
    DecInjective(m, n);
  }

  /** The tag as text: the canonical decimal between two double quotes. */
  lemma TagText(revision: nat)
    ensures var t := Tag(revision);
            && |t| >= 3 && t[0] == 34 && t[|t| - 1] == 34
            && CanonicalDec(t[1..|t| - 1]) && DecValue(t[1..|t| - 1]) == revision
  {
    DecRoundTrip(revision);
    assert Tag(revision)[1..|Tag(revision)| - 1] == Dec(revision);
  }

  function Id(username: Name): Name {
    if username == ADMIN then ADMIN_ID else Ascii("id-") + username
  }

  lemma IdInjective(u: Name, v: Name)
    requires Id(u) == Id(v)
    ensures u == v
  {
    if u != ADMIN {
      assert Id(u)[0] == 105 && ADMIN_ID[0] == 97;
      assert Id(u)[3..] == u;
    }
    if v != ADMIN {
      assert Id(v)[0] == 105 && ADMIN_ID[0] == 97;
      assert Id(v)[3..] == v;
    }
  }

  // ---------------------------------------------------------------- one mutation

  /** What the mutation does to the directory, with its status. */
  function Apply(s: State, m: Mutation): (r: (State, int))
    ensures r.1 != 200 ==> r.0 == s
    ensures r.0.revision == s.revision && r.0.requests == s.requests
  {
    match m
    case CreateUser(u) =>
      if u in s.accounts then (s, 409) else (s.(accounts := s.accounts[u := Ascii("id-") + u]), 200)
    case CreateGroup(name) =>
      if name in s.directory then (s, 409)
      else (s.(directory := s.directory[name := {}], groups := s.groups + 1), 200)
    case AddMember(group, u) =>
      if group !in s.directory || u !in s.accounts then (s, 404)
      else (s.(directory := s.directory[group := s.directory[group] + {s.accounts[u]}]), 200)
  }

  function Commit(s: State, c: Call): (State, int) {
    if !c.authorized then (s, 401)
    else if !c.keyed || c.ifMatch == None then (s, 428)
    else if c.ifMatch.value != Tag(s.revision) then (s, 409)
    else
      var (t, status) := Apply(s, c.change);
      if status == 200 then (t.(revision := t.revision + 1), 200) else (t, status)
  }

  /** The mutation clashes with a name that is taken. */
  predicate Taken(s: State, m: Mutation) {
    match m
    case CreateUser(u) => u in s.accounts
    case CreateGroup(name) => name in s.directory
    case AddMember(_, _) => false
  }

  predicate Missing(s: State, m: Mutation) {
    m.AddMember? && (m.group !in s.directory || m.username !in s.accounts)
  }

  /** The mutation is based on the current revision. */
  predicate Current(s: State, c: Call) {
    c.ifMatch == Some(Ascii("\"") + Dec(s.revision) + Ascii("\""))
  }

  /** Which status answers which request; every refusal leaves the state alone. */
  lemma CommitStatuses(s: State, c: Call)
    ensures var (t, status) := Commit(s, c);
            && (status == 401 <==> !c.authorized)
            && (status == 428 <==> c.authorized && (!c.keyed || c.ifMatch == None))
            && (status == 409 <==> c.authorized && c.keyed && c.ifMatch.Some?
                                   && (!Current(s, c) || Taken(s, c.change)))
            && (status == 404 <==> c.authorized && c.keyed && Current(s, c) && Missing(s, c.change))
            && (status == 200 <==> c.authorized && c.keyed && Current(s, c)
                                   && !Taken(s, c.change) && !Missing(s, c.change))
            && t.revision == s.revision + (if status == 200 then 1 else 0) && (status != 200 ==> t == s)
  {
    assert Ascii("\"") == [34];
  }

  // ---------------------------------------------------------------- every interleaving

  /** The atomic steps of the server's threads: a request is counted, a read takes its snapshot, a
      mutation is committed or refused. */
  datatype Step = Arrives | Reads | Commits(call: Call)

  function After(s: State, step: Step): State {
    match step
    case Arrives => s.(requests := s.requests + 1)
    case Reads => s.(requests := s.requests + 1)
    case Commits(call) => Commit(s, call).0
  }

  /** The state before step `n` of a run. */
  function At(s: State, steps: seq<Step>, n: nat): State
    requires n <= |steps|
  {
    if n == 0 then s else After(At(s, steps, n - 1), steps[n - 1])
  }

  predicate Committed(s: State, steps: seq<Step>, i: nat)
    requires i < |steps|
  {
    steps[i].Commits? && Commit(At(s, steps, i), steps[i].call).1 == 200
  }

  /** How many of the first `n` steps committed a mutation. */
  function Successes(s: State, steps: seq<Step>, n: nat): nat
    requires n <= |steps|
  {
    if n == 0 then 0 else Successes(s, steps, n - 1) + if Committed(s, steps, n - 1) then 1 else 0
  }

  lemma {:induction false} RevisionCounts(s: State, steps: seq<Step>, n: nat)
    requires n <= |steps|
    ensures At(s, steps, n).revision == s.revision + Successes(s, steps, n)
  {
    if n > 0 {
      RevisionCounts(s, steps, n - 1);
    }
  }

  lemma {:induction false} SuccessesGrow(s: State, steps: seq<Step>, i: nat, j: nat)
    requires i <= j <= |steps|
    ensures Successes(s, steps, i) <= Successes(s, steps, j)
  {
    if i < j {
      SuccessesGrow(s, steps, i, j - 1);
    }
  }

  lemma CommitsOn(s: State, c: Call)
    requires Commit(s, c).1 == 200
    ensures c.ifMatch == Some(Tag(s.revision)) && c.authorized && c.keyed
  {
  }

  /** The commits carry the revisions in order, without gap or repetition. */
  lemma {:induction false} CommitOrder(s: State, steps: seq<Step>, i: nat)
    requires i < |steps| && Committed(s, steps, i)
    ensures steps[i].call.ifMatch == Some(Tag(s.revision + Successes(s, steps, i)))
    ensures steps[i].call.authorized && steps[i].call.keyed
  {
    RevisionCounts(s, steps, i);
    CommitsOn(At(s, steps, i), steps[i].call);
  }

  /** No If-Match value commits twice, whatever the clients do. */
  lemma OncePerTag(s: State, steps: seq<Step>, i: nat, j: nat)
    requires i < j < |steps| && Committed(s, steps, i) && Committed(s, steps, j)
    ensures steps[i].call.ifMatch != steps[j].call.ifMatch
  {
    CommitOrder(s, steps, i);
    CommitOrder(s, steps, j);
    SuccessesGrow(s, steps, i + 1, j);
    if steps[i].call.ifMatch == steps[j].call.ifMatch {
      TagInjective(s.revision + Successes(s, steps, i), s.revision + Successes(s, steps, j));
    }
  }

  predicate SameDirectory(s: State, t: State) {
    s.accounts == t.accounts && s.directory == t.directory && s.groups == t.groups
  }

  /** While the revision stands still, so does the directory. */
  lemma {:induction false} RevisionGuards(s: State, steps: seq<Step>, h: nat, i: nat)
    requires h <= i <= |steps| && Successes(s, steps, h) == Successes(s, steps, i)
    ensures SameDirectory(At(s, steps, h), At(s, steps, i))
  {
    if h < i {
      SuccessesGrow(s, steps, h, i - 1);
      RevisionGuards(s, steps, h, i - 1);
    }
  }

  /** No lost update: a mutation based on the revision read at `h` commits only if the directory is
      still the one that was read. */
  lemma NoLostUpdate(s: State, steps: seq<Step>, h: nat, i: nat)
    requires h <= i < |steps| && Committed(s, steps, i)
    requires steps[i].call.ifMatch == Some(Tag(At(s, steps, h).revision))
    ensures SameDirectory(At(s, steps, h), At(s, steps, i))
  {
    CommitOrder(s, steps, i);
    RevisionCounts(s, steps, h);
    TagInjective(At(s, steps, h).revision, s.revision + Successes(s, steps, i));
    RevisionGuards(s, steps, h, i);
  }

  /** Accounts have their own identifiers, groups hold identifiers of accounts, and are counted. */
  ghost predicate Sound(s: State) {
    && ADMIN in s.accounts && s.groups == |s.directory|
    && (forall u :: u in s.accounts ==> s.accounts[u] == Id(u))
    && (forall g, x :: g in s.directory && x in s.directory[g] ==> exists u :: u in s.accounts && Id(u) == x)
  }

  lemma StepKeepsSound(s: State, step: Step)
    requires Sound(s)
    ensures Sound(After(s, step))
  {
    if step.Commits? && Commit(s, step.call).1 == 200 {
      ApplyKeepsSound(s, step.call.change);
    }
  }

  lemma ApplyKeepsSound(s: State, m: Mutation)
    requires Sound(s) && Apply(s, m).1 == 200
    ensures Sound(Apply(s, m).0)
  {
    var t := Apply(s, m).0;
    forall g, x | g in t.directory && x in t.directory[g] ensures exists u :: u in t.accounts && Id(u) == x {
      if m.AddMember? && g == m.group && x == s.accounts[m.username] {
        assert m.username in t.accounts && Id(m.username) == x;
      } else {
        assert g in s.directory && x in s.directory[g];
        var u :| u in s.accounts && Id(u) == x;
        assert u in t.accounts;
      }
    }
  }

  lemma {:induction false} RunKeepsSound(s: State, steps: seq<Step>, n: nat)
    requires n <= |steps| && Sound(s)
    ensures Sound(At(s, steps, n))
  {
    if n > 0 {
      RunKeepsSound(s, steps, n - 1);
      StepKeepsSound(At(s, steps, n - 1), steps[n - 1]);
    }
  }

  /** From the start: the revision is one more than the number of commits, and the directory is
      sound. */
  lemma FixtureRun(steps: seq<Step>)
    ensures At(FRESH, steps, |steps|).revision == 1 + Successes(FRESH, steps, |steps|)
    ensures Sound(At(FRESH, steps, |steps|))
  {
    RevisionCounts(FRESH, steps, |steps|);
    RunKeepsSound(FRESH, steps, |steps|);
  }

  // ---------------------------------------------------------------- the server

  class Server {
    var state: State

    constructor ()
      ensures state == FRESH
    {
      state := FRESH;
    }

    /** `commit_mutation` under the lock. */
    method CommitMutation(call: Call) returns (status: int)
      modifies this
      ensures (state, status) == Commit(old(state), call)
    {
      if !call.authorized {
        return 401;
      }
      if !call.keyed || call.ifMatch == None {
        return 428;
      }
      if call.ifMatch.value != Tag(state.revision) {
        return 409;
      }
      var applied := Apply(state, call.change);
      state, status := applied.0, applied.1;
      if status == 200 {
        state := state.(revision := state.revision + 1);
      }
    }

    /** The counting of a request, and for a read its snapshot. */
    method Count() returns (snapshot: State)
      modifies this
      ensures state == old(state).(requests := old(state).requests + 1) && snapshot == state
    {
      state := state.(requests := state.requests + 1);
      snapshot := state;
    }
  }
}
