/** What a benchmark run plans: the directory it installs and the requests it may issue. */
module BenchPlan {
  import opened Bytes
  import opened Options
  import opened BenchServer

  const DIRECTORY_USERS_MAX := 32
  const DIRECTORY_GROUPS_MAX := 32
  const BUDGET_MAX := 500
  const INDEX_PAGE_ROWS := 128

  // ---------------------------------------------------------------- names

  /** `{i:04d}`. */
  function Number(i: nat): (r: Bytes)
    ensures AllDigits(r)
  {
    if i < 10000 then Padded(i, 4) else Dec(i)
  }

  lemma NumberInjective(i: nat, j: nat)
    requires Number(i) == Number(j)
    ensures i == j
  {
    NumberValue(i);
    NumberValue(j);
  }

  lemma NumberValue(i: nat)
    ensures DecValue(Number(i)) == i
  {
    if i < 10000 {
      assert Pow10(4) == 10000 by {
        assert Pow10(2) == 100;
        assert Pow10(3) == 1000;
      }
      PaddedRoundTrip(i, 4);
    } else {
      DecRoundTrip(i);
    }
  }

  /** The names with a prefix, numbered from one. */
  function Numbered(prefix: Name, count: nat): (names: seq<Name>)
    ensures |names| == count
  {
    seq(count, i requires 0 <= i < count => prefix + Number(i + 1))
  }

  ghost predicate Distinct<T(!new)>(s: seq<T>) {
    forall i, j :: 0 <= i < j < |s| ==> s[i] != s[j]
  }

  lemma NumberedDistinct(prefix: Name, count: nat)
    ensures Distinct(Numbered(prefix, count))
  {
    var names := Numbered(prefix, count);
    forall i, j | 0 <= i < j < count ensures names[i] != names[j] {
      NumbersDiffer(prefix, i + 1, j + 1);
    }
  }

  lemma NumbersDiffer(prefix: Name, i: nat, j: nat)
    requires i != j
    ensures prefix + Number(i) != prefix + Number(j)
  {
    var a, b := Number(i), Number(j);
    if prefix + a == prefix + b {
      assert (prefix + a)[|prefix|..] == a && (prefix + b)[|prefix|..] == b;
      NumberInjective(i, j);
    }
  }

  const USER_PREFIX: Name := Ascii("q09-user-")
  const GROUP_PREFIX: Name := Ascii("q09-dir-")
  const BENCH_PREFIX: Name := Ascii("q09-bench-")

  // ---------------------------------------------------------------- the directory

  datatype Plan = Plan(usernames: seq<Name>, groups: seq<Name>, memberships: seq<(Name, Name)>) {
    function Writes(): nat {
      |usernames| + |groups| + |memberships|
    }
  }

  function Memberships(groups: seq<Name>, members: seq<Name>): seq<(Name, Name)> {
    if groups == [] then []
    else seq(|members|, i requires 0 <= i < |members| => (groups[0], members[i])) + Memberships(groups[1..], members)
  }

  function DirectoryPlan(users: int, groups: int): (plan: Option<Plan>)
    ensures plan.Some? <==> 0 <= users <= DIRECTORY_USERS_MAX && 0 <= groups <= DIRECTORY_GROUPS_MAX
  {
    if users < 0 || groups < 0 || users > DIRECTORY_USERS_MAX || groups > DIRECTORY_GROUPS_MAX then None
    else
      var extra := Numbered(USER_PREFIX, users);
      var names := Numbered(GROUP_PREFIX, groups);
      Some(Plan(extra, names, Memberships(names, [ADMIN] + extra)))
  }

  lemma {:induction false} MembershipCount(groups: seq<Name>, members: seq<Name>)
    ensures |Memberships(groups, members)| == |groups| * |members|
  {
    if groups != [] {
      MembershipCount(groups[1..], members);
      assert |groups| * |members| == |members| + (|groups| - 1) * |members|;
    }
  }

  lemma {:induction false} MembershipMeaning(groups: seq<Name>, members: seq<Name>, g: Name, u: Name)
    ensures (g, u) in Memberships(groups, members) <==> g in groups && u in members
  {
    if groups != [] {
      MembershipMeaning(groups[1..], members, g, u);
      var first := seq(|members|, i requires 0 <= i < |members| => (groups[0], members[i]));
      assert (g, u) in first <==> g == groups[0] && u in members by {
        if u in members && g == groups[0] {
          var i :| 0 <= i < |members| && members[i] == u;
          assert first[i] == (g, u);
        }
      }
      assert groups == [groups[0]] + groups[1..];
    }
  }

  lemma {:induction false} MembershipDistinct(groups: seq<Name>, members: seq<Name>)
    requires Distinct(groups) && Distinct(members)
    ensures Distinct(Memberships(groups, members))
  {
    if groups != [] {
      var rest := Memberships(groups[1..], members);
      MembershipDistinct(groups[1..], members);
      var first := seq(|members|, i requires 0 <= i < |members| => (groups[0], members[i]));
      forall i, j | 0 <= i < |first| && 0 <= j < |rest| ensures first[i] != rest[j] {
        MembershipMeaning(groups[1..], members, rest[j].0, rest[j].1);
        assert rest[j] in rest;
        var k :| 0 <= k < |groups[1..]| && groups[1..][k] == rest[j].0;
        assert groups[0] != groups[k + 1];
      }
      DistinctConcat(first, rest);
    }
  }

  lemma DistinctConcat<T(!new)>(a: seq<T>, b: seq<T>)
    requires Distinct(a) && Distinct(b)
    requires forall i, j :: 0 <= i < |a| && 0 <= j < |b| ==> a[i] != b[j]
    ensures Distinct(a + b)
  {
  }

  /** A plan that can be installed: users other than the administrator, all names distinct, and every
      member in every group exactly once. */
  ghost predicate Admissible(p: Plan) {
    && Distinct(p.usernames) && ADMIN !in p.usernames && Distinct(p.groups) && Distinct(p.memberships)
    && forall g, u :: (g, u) in p.memberships <==> g in p.groups && u in [ADMIN] + p.usernames
  }

  /** Every plan is admissible, and its memberships number groups * (users + 1). */
  lemma PlanAdmissible(users: int, groups: int)
    requires DirectoryPlan(users, groups).Some?
    ensures var p := DirectoryPlan(users, groups).value;
            && Admissible(p) && |p.usernames| == users && |p.groups| == groups
            && |p.memberships| == groups * (users + 1)
  {
    var p := DirectoryPlan(users, groups).value;
    var members := [ADMIN] + p.usernames;
    NumberedDistinct(USER_PREFIX, users);
    NumberedDistinct(GROUP_PREFIX, groups);
    assert ADMIN[0] == 97;
    forall i | 0 <= i < |p.usernames| ensures p.usernames[i] != ADMIN {
      assert p.usernames[i][0] == USER_PREFIX[0] == 113;
    }
    DistinctConcat([ADMIN], p.usernames);
    MembershipCount(p.groups, members);
    MembershipDistinct(p.groups, members);
    forall g, u ensures (g, u) in p.memberships <==> g in p.groups && u in members {
      MembershipMeaning(p.groups, members, g, u);
    }
  }

  // ---------------------------------------------------------------- the request budget

  function Writes(users: int, groups: int): int {
    users + groups + groups * (users + 1)
  }

  /** What is allowed for the directory: a revision read, two requests for each write, and the four reads
      that verify it. */
  function Allowance(writes: int): int {
    (1 + writes) + writes + 4
  }

  /** `estimated_general_requests`. */
  function Estimated(iterations: int, warmup: int, cap: int, writes: int): int {
    1 + 4 + 2 * warmup + 2 * iterations + (1 + cap) + cap + (if writes > 0 then Allowance(writes) else 0)
  }

  /** `validate_shape`. */
  function ValidateShape(iterations: int, warmup: int, cap: int, users: int, groups: int): (estimate: Option<int>)
    ensures estimate.Some? <==>
              && iterations >= 1 && warmup >= 0 && cap >= 1
              && 0 <= users <= 32 && 0 <= groups <= 32
              && Estimated(iterations, warmup, cap, Writes(users, groups)) <= 500
    ensures estimate.Some? ==> estimate.value == Estimated(iterations, warmup, cap, Writes(users, groups))
  {
    if iterations < 1 || warmup < 0 || cap < 1 then None
    else
      var plan := DirectoryPlan(users, groups);
      if plan == None then None
      else
        PlanAdmissible(users, groups);
        var estimate := Estimated(iterations, warmup, cap, plan.value.Writes());
        if estimate > BUDGET_MAX then None
        else if groups > INDEX_PAGE_ROWS then None
        else Some(estimate)
  }

  /** An accepted shape has an admissible plan, and the estimate is the one for its writes. */
  lemma ShapePlan(iterations: int, warmup: int, cap: int, users: int, groups: int)
    requires ValidateShape(iterations, warmup, cap, users, groups).Some?
    ensures var plan := DirectoryPlan(users, groups);
            && plan.Some? && Admissible(plan.value) && plan.value.Writes() == Writes(users, groups)
            && ValidateShape(iterations, warmup, cap, users, groups).value
               == Estimated(iterations, warmup, cap, plan.value.Writes()) <= BUDGET_MAX
  {
    PlanAdmissible(users, groups);
  }
}
