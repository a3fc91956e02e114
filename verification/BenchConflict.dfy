/** Runs of the installation in which foreign mutations commit between its requests, and what they
    cost. */
module BenchConflict {
  import opened Options
  import opened BenchServer
  import opened BenchPlan
  import opened BenchInstall

  /** A write, and the foreign mutation that commits just before its first attempt, if any. */
  datatype Turn = Turn(change: Mutation, foreign: Option<Mutation>)

  /** The server, the revision the client tracks, the requests it issued, and whether it goes on. */
  datatype Progress = Progress(state: State, revision: nat, requests: nat, ok: bool)

  function Based(revision: nat, m: Mutation): Call {
    Call(true, true, Some(Tag(revision)), m)
  }

  function Meanwhile(s: State, foreign: Option<Mutation>): State {
    if foreign == None then s else Commit(s, Based(s.revision, foreign.value)).0
  }

  /** `bound_write` in such a run. */
  function Write(p: Progress, t: Turn): Progress {
    if !p.ok then p
    else
      var s := Meanwhile(p.state, t.foreign);
      var first := Commit(s, Based(p.revision, t.change));
      if first.1 == 200 then Progress(first.0, p.revision + 1, p.requests + 1, true)
      else if first.1 != 409 then Progress(first.0, p.revision, p.requests + 1, false)
      else
        var second := Commit(s, Based(s.revision, t.change));
        Progress(second.0, s.revision + 1, p.requests + 3, second.1 == 200)
  }

  function WriteAll(p: Progress, turns: seq<Turn>): Progress
    decreases turns
  {
    if turns == [] then p else WriteAll(Write(p, turns[0]), turns[1..])
  }

  function Changes(turns: seq<Turn>): (changes: seq<Mutation>)
    ensures |changes| == |turns|
  {
    seq(|turns|, i requires 0 <= i < |turns| => turns[i].change)
  }

  /** The writes of a plan, in order. */
  function PlannedWrites(p: Plan): seq<Mutation> {
    seq(|p.usernames|, i requires 0 <= i < |p.usernames| => CreateUser(p.usernames[i]))
    + seq(|p.groups|, i requires 0 <= i < |p.groups| => CreateGroup(p.groups[i]))
    + seq(|p.memberships|, i requires 0 <= i < |p.memberships| => AddMember(p.memberships[i].0, p.memberships[i].1))
  }

  /** The state after a mutation that applies was committed. */
  function Next(s: State, m: Mutation): State {
    Apply(s, m).0.(revision := s.revision + 1)
  }

  lemma WriteUndisturbed(p: Progress, m: Mutation)
    requires p.ok && p.revision == p.state.revision && Apply(p.state, m).1 == 200
    ensures Write(p, Turn(m, None)) == Progress(Next(p.state, m), p.revision + 1, p.requests + 1, true)
  {
  }

  /** A foreign commit in between makes one write cost three requests. */
  lemma WriteDisturbed(p: Progress, m: Mutation, f: Mutation)
    requires p.ok && p.revision == p.state.revision && Apply(p.state, f).1 == 200
    requires Apply(Next(p.state, f), m).1 == 200
    ensures Write(p, Turn(m, Some(f)))
            == Progress(Next(Next(p.state, f), m), p.revision + 2, p.requests + 3, true)
  {
    var s := Next(p.state, f);
    ForeignWriteConflicts(p.state, Based(p.revision, f), Based(p.revision, m));
    assert Meanwhile(p.state, Some(f)) == s;
    assert Commit(s, Based(s.revision, m)) == (Next(s, m), 200);
  }

  /** One write and one conflict: eight requests, where seven are allowed. */
  lemma OneWriteOver(x: Name)
    ensures var p := DirectoryPlan(1, 0).value;
            var turns := [Turn(CreateUser(p.usernames[0]), Some(CreateGroup(x)))];
            var end := WriteAll(Progress(FRESH, 1, 2, true), turns);
            && Changes(turns) == PlannedWrites(p) && end.ok
            && end.requests + 3 == 8 && Allowance(p.Writes()) == 7
  {
    PlanAdmissible(1, 0);
    var p := DirectoryPlan(1, 0).value;
    var u := p.usernames[0];
    assert u in p.usernames;
    var start, turn := Progress(FRESH, 1, 2, true), Turn(CreateUser(u), Some(CreateGroup(x)));
    WriteDisturbed(start, CreateUser(u), CreateGroup(x));
    assert WriteAll(start, [turn]) == WriteAll(Write(start, turn), []);
    assert p.memberships == [] && p.groups == [];
    assert PlannedWrites(p) == [CreateUser(u)];
  }

  /** The run of `TwoGroupsOver`: the foreign client adds the administrator to groups that exist. */
  function Disturbed(g: Name, h: Name): seq<Turn> {
    [Turn(CreateGroup(g), None), Turn(CreateGroup(h), Some(AddMember(g, ADMIN))),
     Turn(AddMember(g, ADMIN), Some(AddMember(g, ADMIN))), Turn(AddMember(h, ADMIN), Some(AddMember(h, ADMIN)))]
  }

  lemma DisturbedEnd(g: Name, h: Name)
    requires g != h
    ensures var end := WriteAll(Progress(FRESH, 1, 2, true), Disturbed(g, h));
            && end.ok && end.requests == 12
            && end.state.directory == map[g := {ADMIN_ID}, h := {ADMIN_ID}]
            && end.state.accounts == FRESH.accounts
  {
    var turns := Disturbed(g, h);
    var p0 := Progress(FRESH, 1, 2, true);
    WriteUndisturbed(p0, CreateGroup(g));
    var p1 := Write(p0, turns[0]);
    assert p1.state.directory == map[g := {}] && p1.state.accounts == map[ADMIN := ADMIN_ID];
    assert {} + {ADMIN_ID} == {ADMIN_ID};
    assert Next(p1.state, AddMember(g, ADMIN)).directory == map[g := {ADMIN_ID}];
    WriteDisturbed(p1, CreateGroup(h), AddMember(g, ADMIN));
    var p2 := Write(p1, turns[1]);
    assert p2.state.directory == map[g := {ADMIN_ID}, h := {}];
    WriteDisturbed(p2, AddMember(g, ADMIN), AddMember(g, ADMIN));
    var p3 := Write(p2, turns[2]);
    assert p3.state.directory == p2.state.directory;
    WriteDisturbed(p3, AddMember(h, ADMIN), AddMember(h, ADMIN));
    FourTurns(p0, turns);
  }

  lemma FourTurns(p: Progress, turns: seq<Turn>)
    requires |turns| == 4
    ensures WriteAll(p, turns) == Write(Write(Write(Write(p, turns[0]), turns[1]), turns[2]), turns[3])
  {
    var p1 := Write(p, turns[0]);
    var p2 := Write(p1, turns[1]);
    var p3 := Write(p2, turns[2]);
    assert turns[1..][1..] == turns[2..] && turns[2..][1..] == turns[3..] && turns[3..][1..] == [];
    assert WriteAll(p3, turns[3..]) == WriteAll(Write(p3, turns[3]), []);
    assert WriteAll(p2, turns[2..]) == WriteAll(p3, turns[3..]);
    assert WriteAll(p1, turns[1..]) == WriteAll(p2, turns[2..]);
  }

  /** An installation of two groups that succeeds, on exactly the planned directory, with fifteen
      requests, where thirteen are allowed. */
  lemma TwoGroupsOver()
    ensures var p := DirectoryPlan(0, 2).value;
            var turns := Disturbed(p.groups[0], p.groups[1]);
            var end := WriteAll(Progress(FRESH, 1, 2, true), turns);
            && Changes(turns) == PlannedWrites(p) && end.ok && end.state.directory == Installed(p)
            && end.requests + 3 == 15 && Allowance(p.Writes()) == 13
  {
    PlanAdmissible(0, 2);
    var p := DirectoryPlan(0, 2).value;
    var g, h := p.groups[0], p.groups[1];
    assert p.usernames == [] && p.groups == [g, h];
    TwoMemberships(g, h);
    DisturbedEnd(g, h);
    assert Id(ADMIN) == ADMIN_ID && [ADMIN] + p.usernames == [ADMIN];
    assert Everyone(p) == {ADMIN_ID};
  }

  lemma TwoMemberships(g: Name, h: Name)
    ensures Memberships([g, h], [ADMIN]) == [(g, ADMIN), (h, ADMIN)]
  {
    assert [g, h][1..] == [h] && [h][1..] == [];
    assert Memberships([h], [ADMIN]) == [(h, ADMIN)];
  }
}
