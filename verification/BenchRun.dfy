/** The measured run: two passes of session reads, the background writer, and their request count. */
module BenchRun {
  import opened BenchServer
  import opened BenchPlan
  import opened BenchClient
  import opened BenchInstall

  function BenchName(k: nat): Name {
    BENCH_PREFIX + Number(k)
  }

  lemma BenchNameInjective(i: nat, j: nat)
    requires BenchName(i) == BenchName(j)
    ensures i == j
  {
    assert BenchName(i)[|BENCH_PREFIX|..] == Number(i) && BenchName(j)[|BENCH_PREFIX|..] == Number(j);
    NumberInjective(i, j);
  }

  /** None of the writer's names from `k` on is taken. */
  ghost predicate NamesFree(s: State, from: nat) {
    forall k: nat :: from <= k ==> BenchName(k) !in s.directory
  }

  /** The installed directory leaves the writer's names free. */
  lemma InstallLeavesNames(users: int, groups: int, s: State)
    requires DirectoryPlan(users, groups).Some? && s.directory == Installed(DirectoryPlan(users, groups).value)
    ensures NamesFree(s, 1)
  {
    forall k: nat | 1 <= k ensures BenchName(k) !in s.directory {
      assert BenchName(k)[4] == BENCH_PREFIX[4] == 98;
      forall g | g in DirectoryPlan(users, groups).value.groups ensures g != BenchName(k) {
        assert g[4] == GROUP_PREFIX[4] == 100;
      }
    }
  }

  datatype Writer = Writer(success: nat, conflict: nat, error: nat, posts: nat, refreshes: nat)

  /** One post of the writer. Alone, with the server's revision and a free name, it succeeds; with
      an older revision it is refused. */
  method PostGroup(c: Client, k: nat, revision: nat) returns (status: int)
    modifies c, c.server
    ensures c.issued == old(c.issued) + 1 && c.conflicts == old(c.conflicts)
    ensures c.reliable ==> status != 0
    ensures c.sole && status != 0 && revision == old(c.server.state.revision)
            && NamesFree(old(c.server.state), k) ==>
              status == 200 && c.server.state.revision == revision + 1 && NamesFree(c.server.state, k + 1)
    ensures c.sole && status != 0 && revision != old(c.server.state.revision) ==>
              status == 409 && Same(c.server.state, old(c.server.state))
  {
    status := c.Send(CreateGroup(BenchName(k)), revision);
    if c.sole && status != 0 {
      if revision != old(c.server.state.revision) && Tag(revision) == Tag(old(c.server.state.revision)) {
        TagInjective(revision, old(c.server.state.revision));
      }
      if revision == old(c.server.state.revision) && NamesFree(old(c.server.state), k) {
        forall j: nat | k + 1 <= j ensures BenchName(j) !in c.server.state.directory {
          if BenchName(j) == BenchName(k) {
            BenchNameInjective(j, k);
          }
        }
      }
    }
  }

  /** `group_writer`, stopped at any point. Its requests are one revision read, its posts and its
      refreshes, at most `1 + 2 * cap` whatever other clients do and whatever is lost. It keeps its
      revision after a success, so alone it is refused on every second post, and nothing else goes
      wrong. `started` says that the revision read succeeded. */
  method GroupWriter(c: Client, cap: nat) returns (w: Writer, started: bool)
    modifies c, c.server
    ensures c.issued == old(c.issued) + 1 + w.posts + w.refreshes && c.conflicts == old(c.conflicts)
    ensures w.posts <= cap && w.refreshes == w.conflict
    ensures started ==> w.success + w.conflict + w.error == w.posts
    ensures !started ==> w == Writer(0, 0, 1, 0, 0)
    ensures c.reliable ==> started
    ensures w.error <= 5
    ensures c.sole && c.reliable && NamesFree(old(c.server.state), 1) ==>
              && w.error == 0 && w.success == (w.posts + 1) / 2 && w.conflict == w.posts / 2
              && c.server.state.revision == old(c.server.state.revision) + w.success
  {
    var got, first := c.Read();
    started := got;
    if !got {
      w := Writer(0, 0, 1, 0, 0);
      return;
    }
    var revision, success, conflict, error, posts, refreshes := first.revision, 0, 0, 0, 0, 0;
    ghost var alone := c.sole && c.reliable && NamesFree(old(c.server.state), 1);
    while success < cap && posts < cap
      invariant c.issued == old(c.issued) + 1 + posts + refreshes && c.conflicts == old(c.conflicts)
      invariant posts <= cap && refreshes == conflict && success + conflict + error == posts && error < 5
      invariant alone ==> error == 0 && success == (posts + 1) / 2 && conflict == posts / 2
      invariant alone ==> NamesFree(c.server.state, posts + 1)
      invariant alone ==> c.server.state.revision == old(c.server.state.revision) + success
      invariant alone ==> revision == c.server.state.revision - posts % 2
      decreases cap - posts
    {
      var stopped: bool := *;
      if stopped {
        break;
      }
      var status := PostGroup(c, posts + 1, revision);
      posts := posts + 1;
      if status == 200 {
        success := success + 1;
      } else if status == 409 && refreshes < cap {
        conflict := conflict + 1;
        var current;
        got, current := c.Read();
        refreshes := refreshes + 1;
        if got {
          revision := current.revision;
        }
      } else {
        error := error + 1;
        if error >= 5 {
          break;
        }
      }
    }
    w := Writer(success, conflict, error, posts, refreshes);
  }

  /** `measured_pass`: warm-up reads, a metrics read, the measured reads, a metrics read. A failed
      warm-up and a metrics document that is not one end it; a failed measured read is counted. */
  method MeasuredPass(c: Client, iterations: nat, warmup: nat) returns (ok: bool, success: nat, samples: seq<int>)
    modifies c, c.server
    ensures c.issued <= old(c.issued) + warmup + iterations + 2 && c.conflicts == old(c.conflicts)
    ensures ok ==> c.issued == old(c.issued) + warmup + iterations + 2
    ensures ok ==> |samples| == iterations && success <= iterations
    ensures c.sole ==> Same(c.server.state, old(c.server.state))
  {
    success, samples := 0, [];
    for i := 0 to warmup
      invariant c.issued == old(c.issued) + i && c.conflicts == old(c.conflicts)
      invariant c.sole ==> Same(c.server.state, old(c.server.state))
    {
      ok := ReadWell(c);
      if !ok {
        return;
      }
    }
    ok := ReadWell(c);
    if !ok {
      return;
    }
    for i := 0 to iterations
      invariant c.issued == old(c.issued) + warmup + 1 + i && c.conflicts == old(c.conflicts)
      invariant |samples| == i && success <= i
      invariant c.sole ==> Same(c.server.state, old(c.server.state))
    {
      var well := ReadWell(c);
      var elapsed: int := *;
      samples := samples + [elapsed];
      if well {
        success := success + 1;
      }
    }
    ok := ReadWell(c);
  }

  /** A read whose answer is or is not the expected document. */
  method ReadWell(c: Client) returns (well: bool)
    modifies c, c.server
    ensures c.issued == old(c.issued) + 1 && c.conflicts == old(c.conflicts)
    ensures c.sole ==> Same(c.server.state, old(c.server.state))
  {
    var got, snapshot := c.Read();
    well := *;
    well := well && got;
  }

  /** How far a run that went through stays below the estimate: the posts and the refreshes that its
      writer did not use, and half of the allowance for the writes, less two requests for each conflict. */
  function Unused(w: Writer, cap: nat, writes: nat, conflicts: nat): int {
    (cap - w.posts) + (cap - w.refreshes) + (if writes > 0 then writes - 2 * conflicts else 0)
  }

  /** The requests after the login, for any plan. */
  method RunPlan(server: Server, sole: bool, reliable: bool, iterations: nat, warmup: nat, cap: nat, plan: Plan)
    returns (ok: bool, ghost total: nat, ghost conflicts: nat, ghost w: Writer)
    requires Admissible(plan)
    requires sole ==> server.state.accounts == Accounts([]) && server.state.directory == map[]
    modifies server
    ensures sole ==> conflicts == 0
    ensures 2 * conflicts <= plan.Writes() ==> total <= Estimated(iterations, warmup, cap, plan.Writes())
    ensures ok ==>
              total + Unused(w, cap, plan.Writes(), conflicts) == Estimated(iterations, warmup, cap, plan.Writes())
  {
    var reader := new Client(server, sole, reliable);
    var writer := new Client(server, sole, reliable);
    ok := ReadWell(reader);
    total, conflicts, w := 1, 0, Writer(0, 0, 0, 0, 0);
    if !ok {
      return;
    }
    if plan.Writes() > 0 {
      ok := InstallDirectory(reader, plan);
      total, conflicts := reader.issued, reader.conflicts;
      if !ok {
        return;
      }
    }
    var success, samples;
    ok, success, samples := MeasuredPass(reader, iterations, warmup);
    total := reader.issued;
    if !ok {
      return;
    }
    var counted, started := GroupWriter(writer, cap);
    w := counted;
    ok, success, samples := MeasuredPass(reader, iterations, warmup);
    total := reader.issued + writer.issued;
  }

  lemma FreshAccounts()
    ensures FRESH.accounts == Accounts([]) && FRESH.directory == map[]
  {
  }

  /** The general requests of `run_slice` for a shape that `validate_shape` accepted. Without foreign
      mutations they never exceed the estimate, hence never 500; with them, while the conflicts are no
      more than half the writes. Lost requests do not change that. */
  method RunSlice(server: Server, sole: bool, reliable: bool, iterations: nat, warmup: nat, cap: nat,
                  users: nat, groups: nat)
    returns (ok: bool, ghost total: nat, ghost conflicts: nat, ghost w: Writer)
    requires ValidateShape(iterations, warmup, cap, users, groups).Some?
    requires sole ==> server.state == FRESH
    modifies server
    ensures sole ==> conflicts == 0
    ensures 2 * conflicts <= Writes(users, groups) ==>
              total <= ValidateShape(iterations, warmup, cap, users, groups).value <= 500
    ensures ok ==> ValidateShape(iterations, warmup, cap, users, groups).value
                   == total + Unused(w, cap, Writes(users, groups), conflicts)
  {
    var plan := DirectoryPlan(users, groups);
    ShapePlan(iterations, warmup, cap, users, groups);
    FreshAccounts();
    ok, total, conflicts, w := RunPlan(server, sole, reliable, iterations, warmup, cap, plan.value);
  }
}
