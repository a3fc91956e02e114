/** `install_directory`: the directory is written, read back, and required to match the plan. */
module BenchInstall {
  import opened Options
  import opened BenchServer
  import opened BenchPlan
  import opened BenchClient

  // ---------------------------------------------------------------- what is to be installed

  function Accounts(usernames: seq<Name>): map<Name, Name> {
    map u | u in [ADMIN] + usernames :: Id(u)
  }

  /** The identifiers that some memberships give a group. */
  function Held(memberships: seq<(Name, Name)>, g: Name): set<Name> {
    set m | m in memberships && m.0 == g :: Id(m.1)
  }

  function HeldAll(groups: seq<Name>, memberships: seq<(Name, Name)>): map<Name, set<Name>> {
    map g | g in groups :: Held(memberships, g)
  }

  /** Everybody: the administrator and all extra users. */
  function Everyone(p: Plan): set<Name> {
    set u | u in [ADMIN] + p.usernames :: Id(u)
  }

  /** The directory a plan is for: every group holds everybody. */
  function Installed(p: Plan): map<Name, set<Name>> {
    map g | g in p.groups :: Everyone(p)
  }

  lemma MembershipsInstall(p: Plan)
    requires Admissible(p)
    ensures HeldAll(p.groups, p.memberships) == Installed(p)
  {
    forall g | g in p.groups ensures Held(p.memberships, g) == Everyone(p) {
      forall x | x in Everyone(p) ensures x in Held(p.memberships, g) {
        var u :| u in [ADMIN] + p.usernames && Id(u) == x;
        assert (g, u) in p.memberships;
      }
      forall x | x in Held(p.memberships, g) ensures x in Everyone(p) {
        var m :| m in p.memberships && m.0 == g && Id(m.1) == x;
        assert (g, m.1) in p.memberships;
      }
    }
  }

  /** Everybody is one more than the extra users: no two share an identifier. */
  lemma EveryoneCounts(p: Plan)
    requires Admissible(p)
    ensures |Everyone(p)| == |p.usernames| + 1
  {
    DistinctConcat([ADMIN], p.usernames);
    var members := [ADMIN] + p.usernames;
    IdsCount(members);
    assert Everyone(p) == set u | u in members :: Id(u);
  }

  lemma {:induction false} IdsCount(names: seq<Name>)
    requires Distinct(names)
    ensures |set u | u in names :: Id(u)| == |names|
  {
    if names == [] {
      assert (set u | u in names :: Id(u)) == {};
    } else {
      var rest := names[1..];
      IdsCount(rest);
      var ids := set u | u in rest :: Id(u);
      if Id(names[0]) in ids {
        var u :| u in rest && Id(u) == Id(names[0]);
        IdInjective(u, names[0]);
      }
      assert (set u | u in names :: Id(u)) == ids + {Id(names[0])};
    }
  }

  lemma HeldMore(memberships: seq<(Name, Name)>, i: nat, g: Name)
    requires i < |memberships|
    ensures Held(memberships[..i + 1], g) ==
            Held(memberships[..i], g) + (if memberships[i].0 == g then {Id(memberships[i].1)} else {})
  {
    assert memberships[..i + 1] == memberships[..i] + [memberships[i]];
  }

  lemma AccountsMore(usernames: seq<Name>, i: nat)
    requires i < |usernames|
    ensures Accounts(usernames[..i + 1]) == Accounts(usernames[..i])[usernames[i] := Id(usernames[i])]
  {
    assert usernames[..i + 1] == usernames[..i] + [usernames[i]];
  }

  lemma GroupsMore(groups: seq<Name>, i: nat)
    requires i < |groups|
    ensures HeldAll(groups[..i + 1], []) == HeldAll(groups[..i], [])[groups[i] := {}]
  {
    assert groups[..i + 1] == groups[..i] + [groups[i]];
    assert Held([], groups[i]) == {};
  }

  lemma HeldAllMore(groups: seq<Name>, ms: seq<(Name, Name)>, i: nat)
    requires i < |ms| && ms[i].0 in groups
    ensures HeldAll(groups, ms[..i + 1]) ==
            HeldAll(groups, ms[..i])[ms[i].0 := HeldAll(groups, ms[..i])[ms[i].0] + {Id(ms[i].1)}]
  {
    var left := HeldAll(groups, ms[..i + 1]);
    var right := HeldAll(groups, ms[..i])[ms[i].0 := Held(ms[..i], ms[i].0) + {Id(ms[i].1)}];
    assert left.Keys == right.Keys;
    forall g | g in groups ensures left[g] == right[g] {
      HeldMore(ms, i, g);
    }
  }

  // ---------------------------------------------------------------- the writes

  /** What some writes cost: one request each, and two more for every conflict. */
  ghost predicate Paid(c: Client, issued: nat, conflicts: nat, writes: nat)
    reads c
  {
    conflicts <= c.conflicts && c.issued == issued + writes + 2 * (c.conflicts - conflicts)
  }

  /** No more than that, when the last of the writes failed. */
  ghost predicate Within(c: Client, issued: nat, conflicts: nat, writes: nat)
    reads c
  {
    conflicts <= c.conflicts && c.issued <= issued + writes + 2 * (c.conflicts - conflicts)
  }

  method WriteUser(c: Client, u: Name, revision: nat) returns (r: Option<nat>, id: Name)
    requires u != ADMIN && (c.sole ==> revision == c.server.state.revision && u !in c.server.state.accounts)
    modifies c, c.server
    ensures Within(c, old(c.issued), old(c.conflicts), 1)
    ensures r.Some? ==> Paid(c, old(c.issued), old(c.conflicts), 1)
    ensures r.Some? ==> id == Id(u)
    ensures c.sole ==> c.conflicts == old(c.conflicts) && (c.reliable ==> r.Some?)
    ensures c.sole && r.Some? ==> r == Some(c.server.state.revision)
    ensures c.sole && r.Some? ==> c.server.state.accounts == old(c.server.state.accounts)[u := Id(u)]
    ensures c.sole && r.Some? ==> c.server.state.directory == old(c.server.state.directory)
  {
    id := [];
    r := c.BoundWrite(CreateUser(u), revision);
    if r.Some? {
      id := c.server.state.accounts[u];
    }
  }

  method WriteGroup(c: Client, name: Name, revision: nat) returns (r: Option<nat>)
    requires c.sole ==> revision == c.server.state.revision && name !in c.server.state.directory
    modifies c, c.server
    ensures Within(c, old(c.issued), old(c.conflicts), 1)
    ensures r.Some? ==> Paid(c, old(c.issued), old(c.conflicts), 1)
    ensures c.sole ==> c.conflicts == old(c.conflicts) && (c.reliable ==> r.Some?)
    ensures c.sole && r.Some? ==> r == Some(c.server.state.revision)
    ensures c.sole && r.Some? ==> c.server.state.directory == old(c.server.state.directory)[name := {}]
    ensures c.sole && r.Some? ==> c.server.state.accounts == old(c.server.state.accounts)
  {
    r := c.BoundWrite(CreateGroup(name), revision);
  }

  /** A membership whose response must show the member. */
  method WriteMember(c: Client, group: Name, u: Name, id: Name, revision: nat) returns (r: Option<nat>)
    requires c.sole ==> revision == c.server.state.revision && group in c.server.state.directory
    requires c.sole ==> u in c.server.state.accounts && c.server.state.accounts[u] == id
    modifies c, c.server
    ensures Within(c, old(c.issued), old(c.conflicts), 1)
    ensures r.Some? ==> Paid(c, old(c.issued), old(c.conflicts), 1)
    ensures c.sole ==> c.conflicts == old(c.conflicts) && (c.reliable ==> r.Some?)
    ensures c.sole && r.Some? ==> r == Some(c.server.state.revision)
    ensures c.sole && r.Some? ==>
              c.server.state.directory ==
              old(c.server.state.directory)[group := old(c.server.state.directory)[group] + {id}]
    ensures c.sole && r.Some? ==> c.server.state.accounts == old(c.server.state.accounts)
  {
    r := c.BoundWrite(AddMember(group, u), revision);
    if r.Some? && id !in c.server.state.directory[group] {
      r := None;
    }
  }

  method CreateUsers(c: Client, usernames: seq<Name>, revision: nat)
    returns (r: Option<nat>, ids: map<Name, Name>, ghost writes: nat)
    requires Distinct(usernames) && ADMIN !in usernames
    requires c.sole ==> c.server.state.accounts == Accounts([]) && revision == c.server.state.revision
    modifies c, c.server
    ensures writes <= |usernames| && Within(c, old(c.issued), old(c.conflicts), writes)
    ensures r.Some? ==> ids == Accounts(usernames) && Paid(c, old(c.issued), old(c.conflicts), |usernames|)
    ensures c.sole ==> c.conflicts == old(c.conflicts) && (c.reliable ==> r.Some?)
    ensures c.sole && r.Some? ==> r == Some(c.server.state.revision)
    ensures c.sole && r.Some? ==> c.server.state.accounts == Accounts(usernames)
    ensures c.sole && r.Some? ==> c.server.state.directory == old(c.server.state.directory)
  {
    r, ids, writes := Some(revision), map[ADMIN := ADMIN_ID], 0;
    for i := 0 to |usernames|
      invariant r.Some? && ids == Accounts(usernames[..i]) && writes == i
      invariant Paid(c, old(c.issued), old(c.conflicts), i)
      invariant c.sole ==> r == Some(c.server.state.revision) && c.conflicts == old(c.conflicts)
      invariant c.sole ==> c.server.state.accounts == Accounts(usernames[..i])
      invariant c.sole ==> c.server.state.directory == old(c.server.state.directory)
    {
      var id;
      assert usernames[i] !in usernames[..i];
      AccountsMore(usernames, i);
      r, id := WriteUser(c, usernames[i], r.value);
      writes := writes + 1;
      if r == None {
        return;
      }
      ids := ids[usernames[i] := id];
    }
    assert usernames[..|usernames|] == usernames;
  }

  method CreateGroups(c: Client, groups: seq<Name>, revision: nat) returns (r: Option<nat>, ghost writes: nat)
    requires Distinct(groups)
    requires c.sole ==> c.server.state.directory == map[] && revision == c.server.state.revision
    modifies c, c.server
    ensures writes <= |groups| && Within(c, old(c.issued), old(c.conflicts), writes)
    ensures r.Some? ==> Paid(c, old(c.issued), old(c.conflicts), |groups|)
    ensures c.sole ==> c.conflicts == old(c.conflicts) && (c.reliable ==> r.Some?)
    ensures c.sole && r.Some? ==> r == Some(c.server.state.revision)
    ensures c.sole && r.Some? ==> c.server.state.accounts == old(c.server.state.accounts)
    ensures c.sole && r.Some? ==> c.server.state.directory == HeldAll(groups, [])
  {
    r, writes := Some(revision), 0;
    for i := 0 to |groups|
      invariant r.Some? && writes == i && Paid(c, old(c.issued), old(c.conflicts), i)
      invariant c.sole ==> r == Some(c.server.state.revision) && c.conflicts == old(c.conflicts)
      invariant c.sole ==> c.server.state.accounts == old(c.server.state.accounts)
      invariant c.sole ==> c.server.state.directory == HeldAll(groups[..i], [])
    {
      assert groups[i] !in groups[..i];
      GroupsMore(groups, i);
      r := WriteGroup(c, groups[i], r.value);
      writes := writes + 1;
      if r == None {
        return;
      }
    }
    assert groups[..|groups|] == groups;
  }

  /** The memberships, with the members that each group is then expected to have. */
  method AddMembers(c: Client, p: Plan, ids: map<Name, Name>, revision: nat)
    returns (r: Option<nat>, expected: map<Name, set<Name>>, ghost writes: nat)
    requires Admissible(p) && ids == Accounts(p.usernames)
    requires c.sole ==> c.server.state.accounts == ids && revision == c.server.state.revision
    requires c.sole ==> c.server.state.directory == HeldAll(p.groups, [])
    modifies c, c.server
    ensures writes <= |p.memberships| && Within(c, old(c.issued), old(c.conflicts), writes)
    ensures r.Some? ==> expected == HeldAll(p.groups, p.memberships)
    ensures r.Some? ==> Paid(c, old(c.issued), old(c.conflicts), |p.memberships|)
    ensures c.sole ==> c.conflicts == old(c.conflicts) && (c.reliable ==> r.Some?)
    ensures c.sole && r.Some? ==> r == Some(c.server.state.revision)
    ensures c.sole && r.Some? ==> c.server.state.accounts == ids
    ensures c.sole && r.Some? ==> c.server.state.directory == HeldAll(p.groups, p.memberships)
  {
    var ms := p.memberships;
    r, expected, writes := Some(revision), HeldAll(p.groups, []), 0;
    for i := 0 to |ms|
      invariant r.Some? && expected == HeldAll(p.groups, ms[..i]) && writes == i
      invariant Paid(c, old(c.issued), old(c.conflicts), i)
      invariant c.sole ==> r == Some(c.server.state.revision) && c.conflicts == old(c.conflicts)
      invariant c.sole ==> c.server.state.accounts == ids
      invariant c.sole ==> c.server.state.directory == HeldAll(p.groups, ms[..i])
    {
      var group, u := ms[i].0, ms[i].1;
      assert (group, u) in p.memberships;
      HeldAllMore(p.groups, ms, i);
      r := WriteMember(c, group, u, ids[u], r.value);
      writes := writes + 1;
      if r == None {
        return;
      }
      expected := expected[group := expected[group] + {ids[u]}];
    }
    assert ms[..|ms|] == ms;
  }

  // ---------------------------------------------------------------- the installation

  /** The groups of the administrator's session. */
  function SessionGroups(s: State): set<Name> {
    set g | g in s.directory && ADMIN_ID in s.directory[g]
  }

  /** Two lists sort to the same list exactly if they are the same multiset. */
  predicate SortsAlike(names: set<Name>, list: seq<Name>) {
    multiset(names) == multiset(list)
  }

  lemma DistinctSorts(list: seq<Name>)
    requires Distinct(list)
    ensures SortsAlike((set x | x in list), list)
  {
    var names := set x | x in list;
    forall x ensures multiset(list)[x] == multiset(names)[x] {
      OccursOnce(list, x);
    }
  }

  lemma {:induction false} OccursOnce(list: seq<Name>, x: Name)
    requires Distinct(list)
    ensures multiset(list)[x] == if x in list then 1 else 0
  {
    if list != [] {
      OccursOnce(list[1..], x);
      assert list == [list[0]] + list[1..];
    }
  }

  lemma InstalledSession(p: Plan, s: State)
    requires s.directory == Installed(p)
    ensures SessionGroups(s) == set g | g in p.groups
  {
    assert ([ADMIN] + p.usernames)[0] == ADMIN;
    assert Id(ADMIN) in Everyone(p);
  }

  /** What is read back matches the plan. */
  method ReadBack(c: Client, p: Plan, expected: map<Name, set<Name>>) returns (ok: bool)
    requires Admissible(p) && expected == Installed(p)
    modifies c, c.server
    ensures ok ==> c.server.state.directory == Installed(p)
    ensures c.conflicts == old(c.conflicts) && c.issued <= old(c.issued) + 3
    ensures ok ==> c.issued == old(c.issued) + 3
    ensures c.sole ==> Same(c.server.state, old(c.server.state))
    ensures (&& c.sole && c.reliable && old(c.server.state.accounts) == Accounts(p.usernames)
             && old(c.server.state.directory) == Installed(p))
            ==> ok
  {
    var got, me := c.Read();
    if !got || !SortsAlike(SessionGroups(me), p.groups) {
      assert me.directory == Installed(p) ==> SortsAlike(SessionGroups(me), p.groups) by {
        if me.directory == Installed(p) {
          InstalledSession(p, me);
          DistinctSorts(p.groups);
        }
      }
      return false;
    }
    var users;
    got, users := c.Read();
    if !got || !SortsAlike(users.accounts.Keys, [ADMIN] + p.usernames) {
      assert users.accounts == Accounts(p.usernames) ==> SortsAlike(users.accounts.Keys, [ADMIN] + p.usernames) by {
        DistinctConcat([ADMIN], p.usernames);
        DistinctSorts([ADMIN] + p.usernames);
        assert Accounts(p.usernames).Keys == set u | u in [ADMIN] + p.usernames;
      }
      return false;
    }
    var groups;
    got, groups := c.Read();
    ok := got && groups.directory == expected;
  }

  /** `install_directory`. If it returns, every planned group holds exactly the administrator and all
      extra users. Alone on a fresh directory it never conflicts, and unless a request is lost it does
      return. Its requests are one for each write and five reads, and two more for every conflict, so
      it keeps its allowance exactly while the conflicts are no more than half the writes. */
  method InstallDirectory(c: Client, p: Plan) returns (ok: bool)
    requires Admissible(p)
    requires c.sole ==> c.server.state.accounts == Accounts([]) && c.server.state.directory == map[]
    modifies c, c.server
    ensures ok ==> c.server.state.directory == Installed(p)
    ensures c.sole ==> c.conflicts == old(c.conflicts) && (c.reliable ==> ok)
    ensures c.sole && ok ==> c.server.state.accounts == Accounts(p.usernames)
    ensures ok ==> SessionGroups(c.server.state) == set g | g in p.groups
    ensures old(c.conflicts) <= c.conflicts
    ensures c.issued <= old(c.issued) + 5 + p.Writes() + 2 * (c.conflicts - old(c.conflicts))
    ensures ok ==> c.issued == old(c.issued) + 5 + p.Writes() + 2 * (c.conflicts - old(c.conflicts))
    ensures ok ==> (c.issued - old(c.issued) <= Allowance(p.Writes()) <==>
                    2 * (c.conflicts - old(c.conflicts)) <= p.Writes())
  {
    MembershipsInstall(p);
    var got, me := c.Read();
    if !got || SessionGroups(me) != {} {
      return false;
    }
    var start;
    got, start := c.Read();
    if !got {
      return false;
    }
    var ids, expected;
    ghost var written;
    var r: Option<nat>;
    r, ids, written := CreateUsers(c, p.usernames, start.revision);
    if r == None {
      return false;
    }
    r, written := CreateGroups(c, p.groups, r.value);
    if r == None {
      return false;
    }
    r, expected, written := AddMembers(c, p, ids, r.value);
    if r == None {
      return false;
    }
    ok := ReadBack(c, p, expected);
    if ok {
      InstalledSession(p, c.server.state);
    }
  }

  // ---------------------------------------------------------------- conflicts

  /** How a conflict comes about: once a foreign mutation has committed, any write that is based on
      the revision before it is refused. */
  lemma ForeignWriteConflicts(s: State, foreign: Call, own: Call)
    requires Commit(s, foreign).1 == 200
    requires own.authorized && own.keyed && own.ifMatch == Some(Tag(s.revision))
    ensures Commit(Commit(s, foreign).0, own) == (Commit(s, foreign).0, 409)
  {
    if Tag(s.revision) == Tag(s.revision + 1) {
      TagInjective(s.revision, s.revision + 1);
    }
  }
}
