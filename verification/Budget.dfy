/** The deadline budget of the browser demo: one alarm bounds all blocking work, and nested `limit`
    scopes narrow the deadline while they are open. Time is real-valued; the clock, the free space
    and the points at which an alarm is delivered are arbitrary. */
module Budget {
  import opened Options

  const STOP_FREE_BYTES: int := 17 * 1024 * 1024 * 1024 / 2
  const PENDING_SECONDS: real := 180.0

  /** A deadline and the tag it is reported under. */
  type Deadline = (real, string)

  // ---------------------------------------------------------------- deadlines

  /** The order of Python's strings. */
  predicate StringLess(a: string, b: string) {
    b != [] && (a == [] || a[0] < b[0] || (a[0] == b[0] && StringLess(a[1..], b[1..])))
  }

  /** The order of Python's pairs, which `min` uses. */
  predicate Before(a: Deadline, b: Deadline) {
    a.0 < b.0 || (a.0 == b.0 && StringLess(a.1, b.1))
  }

  lemma {:induction false} StringLessAsymmetric(a: string, b: string)
    requires StringLess(a, b)
    ensures !StringLess(b, a)
  {
    if a != [] && a[0] == b[0] {
      StringLessAsymmetric(a[1..], b[1..]);
    }
  }

  lemma Irreflexive(a: string)
    ensures !StringLess(a, a)
  {
    if StringLess(a, a) {
      StringLessAsymmetric(a, a);
    }
  }

  lemma {:induction false} StringLessTransitive(a: string, b: string, c: string)
    requires StringLess(a, b) && StringLess(b, c)
    ensures StringLess(a, c)
  {
    if a != [] && a[0] == b[0] && b[0] == c[0] {
      StringLessTransitive(a[1..], b[1..], c[1..]);
    }
  }

  lemma {:induction false} StringLessTotal(a: string, b: string)
    ensures a == b || StringLess(a, b) || StringLess(b, a)
  {
    if a != [] && b != [] && a[0] == b[0] {
      StringLessTotal(a[1..], b[1..]);
      assert a == [a[0]] + a[1..] && b == [b[0]] + b[1..];
    }
  }

  lemma NotBeforeTransitive(a: Deadline, b: Deadline, c: Deadline)
    requires !Before(a, b) && !Before(b, c)
    ensures !Before(a, c)
  {
    if a.0 == b.0 == c.0 && StringLess(a.1, c.1) {
      StringLessTotal(a.1, b.1);
      StringLessTotal(b.1, c.1);
      if StringLess(b.1, a.1) {
        StringLessTransitive(b.1, a.1, c.1);
      }
    }
  }

  ghost predicate Minimal(ds: seq<Deadline>, d: Deadline) {
    d in ds && forall i :: 0 <= i < |ds| ==> !Before(ds[i], d)
  }

  /** The tag is that of the least deadline, and that has passed. */
  ghost predicate Blames(ds: seq<Deadline>, tag: string, now: real) {
    exists at :: Minimal(ds, (at, tag)) && at <= now
  }

  /** `min(deadlines)`: the first of the least pairs. */
  method Least(ds: seq<Deadline>) returns (least: Deadline)
    requires ds != []
    ensures Minimal(ds, least)
    ensures forall i :: 0 <= i < |ds| ==> least.0 <= ds[i].0
  {
    least := ds[0];
    Irreflexive(least.1);
    for k := 1 to |ds|
      invariant least in ds
      invariant forall i :: 0 <= i < k ==> !Before(ds[i], least)
    {
      if Before(ds[k], least) {
        Smaller(ds, k, least);
        least := ds[k];
      }
    }
  }

  lemma Smaller(ds: seq<Deadline>, k: nat, least: Deadline)
    requires k < |ds| && Before(ds[k], least)
    requires forall i :: 0 <= i < k ==> !Before(ds[i], least)
    ensures forall i :: 0 <= i <= k ==> !Before(ds[i], ds[k])
  {
    if StringLess(ds[k].1, least.1) {
      StringLessAsymmetric(ds[k].1, least.1);
    }
    Irreflexive(ds[k].1);
    forall i | 0 <= i < k ensures !Before(ds[i], ds[k]) {
      NotBeforeTransitive(ds[i], least, ds[k]);
    }
  }

  // ---------------------------------------------------------------- the timer

  /** The timer's delay, from the clock reading it is computed with. */
  function Delay(least: real, readAt: real): real {
    if 1.0 < least - readAt then 1.0 else least - readAt
  }

  /** The timer runs from when it is set, not from the clock reading. It fires by the deadline if and
      only if there was no lag, or the deadline was further off than a second and the lag. */
  lemma FiresInTime(least: real, readAt: real, setAt: real)
    requires readAt < least && readAt <= setAt
    ensures setAt + Delay(least, readAt) <= least <==> setAt == readAt || setAt + 1.0 <= least
    ensures setAt + Delay(least, readAt) <= least + (setAt - readAt)
  {
  }

  /** Half a second of lag with a quarter of a second left. */
  lemma FiresLate()
    ensures 0.5 + Delay(0.25, 0.0) > 0.25
  {
  }

  // ---------------------------------------------------------------- open scopes

  /** The scope that governs: the least deadline of all open scopes, and of several that share it
      the outermost. With no scope open there is no phase deadline. */
  ghost predicate Governs(scopes: seq<Deadline>, deadline: Option<real>, tag: string) {
    if scopes == [] then deadline == None && tag == "fixture_deadline"
    else
      && deadline.Some?
      && (forall j :: 0 <= j < |scopes| ==> deadline.value <= scopes[j].0)
      && (exists k :: 0 <= k < |scopes| && scopes[k] == (deadline.value, tag) &&
                      forall j :: 0 <= j < k ==> deadline.value < scopes[j].0)
  }

  lemma GovernsUnique(scopes: seq<Deadline>, d: Option<real>, tag: string, d': Option<real>, tag': string)
    requires Governs(scopes, d, tag) && Governs(scopes, d', tag')
    ensures d == d' && tag == tag'
  {
    if scopes != [] {
      var k :| 0 <= k < |scopes| && scopes[k] == (d.value, tag) &&
               forall j :: 0 <= j < k ==> d.value < scopes[j].0;
      var k' :| 0 <= k' < |scopes| && scopes[k'] == (d'.value, tag') &&
                forall j :: 0 <= j < k' ==> d'.value < scopes[j].0;
      assert scopes[k].0 == scopes[k'].0;
    }
  }

  /** Opening a scope: it governs exactly if it ends strictly before all others. */
  lemma Opens(scopes: seq<Deadline>, deadline: Option<real>, tag: string, at: real, name: string)
    requires Governs(scopes, deadline, tag)
    ensures if deadline == None || at < deadline.value then Governs(scopes + [(at, name)], Some(at), name)
            else Governs(scopes + [(at, name)], deadline, tag)
  {
    var more := scopes + [(at, name)];
    assert more[|scopes|] == (at, name);
    if deadline.Some? && deadline.value <= at {
      var k :| 0 <= k < |scopes| && scopes[k] == (deadline.value, tag) &&
               forall j :: 0 <= j < k ==> deadline.value < scopes[j].0;
      assert more[k] == scopes[k];
    }
  }

  /** The guard of `limit`: a scope that ends then narrows the phase deadline. */
  predicate Narrows(phase: Option<real>, ends: real) {
    phase == None || ends < phase.value
  }

  /** The deadline and the tag that `limit` keeps for some open scopes. */
  ghost function Governing(scopes: seq<Deadline>): (Option<real>, string) {
    if scopes == [] then (None, "fixture_deadline")
    else
      var outer, last := Governing(scopes[..|scopes| - 1]), scopes[|scopes| - 1];
      if Narrows(outer.0, last.0) then (Some(last.0), last.1) else outer
  }

  lemma GoverningOpened(scopes: seq<Deadline>, at: real, name: string)
    ensures var outer := Governing(scopes);
            Governing(scopes + [(at, name)]) == if Narrows(outer.0, at) then (Some(at), name) else outer
  {
    var more := scopes + [(at, name)];
    assert more[..|more| - 1] == scopes;
  }

  /** It is the minimum of all of them. */
  lemma {:induction false} GoverningIsLeast(scopes: seq<Deadline>)
    ensures Governs(scopes, Governing(scopes).0, Governing(scopes).1)
  {
    if scopes != [] {
      var outer, last := scopes[..|scopes| - 1], scopes[|scopes| - 1];
      GoverningIsLeast(outer);
      Opens(outer, Governing(outer).0, Governing(outer).1, last.0, last.1);
      assert outer + [last] == scopes;
    }
  }

  ghost predicate Narrowed(phase: Option<real>, more: seq<Deadline>) {
    exists i :: 0 <= i < |more| && Narrows(phase, more[i].0)
  }

  /** Further scopes govern among themselves exactly if one of them narrows the deadline; otherwise
      nothing changes. */
  lemma GovernsMore(scopes: seq<Deadline>, d: Option<real>, tag: string,
                    more: seq<Deadline>, d': Option<real>, tag': string)
    requires Governs(scopes, d, tag) && Governs(scopes + more, d', tag')
    ensures if Narrowed(d, more) then d' != d && Governs(more, d', tag') else d' == d && tag' == tag
  {
    if Narrowed(d, more) {
      NarrowedGoverns(scopes, d, tag, more, d', tag');
    } else if scopes == [] {
      NoneNarrows(d, more);
      assert scopes + more == [];
    } else {
      NotNarrowedGoverns(scopes, d, tag, more);
      GovernsUnique(scopes + more, d, tag, d', tag');
    }
  }

  lemma GoverningMore(scopes: seq<Deadline>, more: seq<Deadline>)
    ensures var outer, all := Governing(scopes), Governing(scopes + more);
            if Narrowed(outer.0, more) then all.0 != outer.0 && all == Governing(more) else all == outer
  {
    var outer, all, own := Governing(scopes), Governing(scopes + more), Governing(more);
    GoverningIsLeast(scopes);
    GoverningIsLeast(scopes + more);
    GoverningIsLeast(more);
    GovernsMore(scopes, outer.0, outer.1, more, all.0, all.1);
    if Narrowed(outer.0, more) {
      GovernsUnique(more, all.0, all.1, own.0, own.1);
    }
  }

  lemma NoneNarrows(d: Option<real>, more: seq<Deadline>)
    requires d == None && !Narrowed(d, more)
    ensures more == []
  {
    assert more != [] ==> Narrows(d, more[0].0);
  }

  lemma NotNarrowedGoverns(scopes: seq<Deadline>, d: Option<real>, tag: string, more: seq<Deadline>)
    requires Governs(scopes, d, tag) && scopes != [] && !Narrowed(d, more)
    ensures Governs(scopes + more, d, tag)
  {
    var all := scopes + more;
    forall j | 0 <= j < |all| ensures d.value <= all[j].0 {
      assert j >= |scopes| ==> !Narrows(d, more[j - |scopes|].0);
    }
    var k :| 0 <= k < |scopes| && scopes[k] == (d.value, tag) && forall j :: 0 <= j < k ==> d.value < scopes[j].0;
    assert all[k] == scopes[k];
  }

  lemma AfterNarrower(scopes: seq<Deadline>, d: Option<real>, more: seq<Deadline>, i: nat, k: nat)
    requires i < |more| && Narrows(d, more[i].0) && k < |scopes + more|
    requires scopes != [] ==> d.Some? && forall j :: 0 <= j < |scopes| ==> d.value <= scopes[j].0
    requires (scopes + more)[k].0 <= more[i].0
    ensures k >= |scopes|
  {
  }

  lemma NarrowedGoverns(scopes: seq<Deadline>, d: Option<real>, tag: string,
                        more: seq<Deadline>, d': Option<real>, tag': string)
    requires Governs(scopes, d, tag) && Governs(scopes + more, d', tag') && Narrowed(d, more)
    ensures d' != d && Governs(more, d', tag')
  {
    var all := scopes + more;
    var i :| 0 <= i < |more| && Narrows(d, more[i].0);
    assert all[|scopes| + i] == more[i];
    var k :| 0 <= k < |all| && all[k] == (d'.value, tag') && forall j :: 0 <= j < k ==> d'.value < all[j].0;
    AfterNarrower(scopes, d, more, i, k);
    forall j | 0 <= j < |more| ensures d'.value <= more[j].0 && (j < k - |scopes| ==> d'.value < more[j].0) {
      assert all[|scopes| + j] == more[j];
    }
    assert more[k - |scopes|] == all[k];
  }

  // ---------------------------------------------------------------- the budget

  /** Work under the budget. `Catch` stands for the handlers of `Failure`; a halt passes through. */
  datatype Work =
    | Wait                                             // any blocking or computing step
    | Check                                            // `budget.tick()`
    | Fail                                             // an exception other than a halt
    | Then(first: Work, second: Work)
    | Limit(seconds: real, name: string, body: Work, tear: Tear)   // `with budget.limit(seconds, name)`
    | Catch(body: Work, handler: Work)
    | Begin                                            // the pending deadline is set
    | Consume                                          // the pending deadline is dropped

  datatype Outcome = Normal | Failed | Halted(tag: string)

  /** Where a halt can fall in `limit` outside its `try`: while the scope opens, with the new deadline
      stored and the tag stored or not, or in the `finally`, with the old deadline restored or not. */
  datatype Tear = NoTear | Opening(tagStored: bool) | Closing(deadlineRestored: bool)

  /** A halt may fall so in an outermost scope of the work. */
  predicate Torn(work: Work) {
    match work
    case Then(first, second) => Torn(first) || Torn(second)
    case Catch(body, handler) => Torn(body) || Torn(handler)
    case Limit(_, _, _, tear) => tear != NoTear
    case _ => false
  }

  /** The scope itself is stuck, and before those inside it, which are none unless one was torn. */
  ghost predicate Keeps(stuck: seq<Deadline>, own: Deadline, body: Work) {
    stuck != [] && stuck[0] == own && (!Torn(body) ==> stuck == [own])
  }

  /** This scope is torn, and none inside it. */
  predicate Alone(tear: Tear, body: Work) {
    tear.Opening? || (tear.Closing? && !Torn(body))
  }

  /** The scope itself joins those stuck inside it. */
  lemma OwnStuck(before: seq<Deadline>, own: Deadline, inner: seq<Deadline>, body: Work)
    requires !Torn(body) ==> inner == []
    ensures before + [own] + inner == before + ([own] + inner) && before + [] == before
    ensures Keeps([own] + inner, own, body)
  {
  }

  lemma OneStuck(d: Option<real>, own: Deadline)
    ensures Narrowed(d, [own]) <==> Narrows(d, own.0)
    ensures Governing([own]) == (Some(own.0), own.1)
    ensures !Narrowed(d, [])
  {
    assert [own][0] == own;
    GoverningOpened([], own.0, own.1);
    assert [] + [own] == [own];
  }

  class Budget {
    const deadline: real
    var phaseDeadline: Option<real>
    var phaseTag: string
    var pendingDeadline: Option<real>
    var samples: nat
    var minimumFree: Option<int>

    var now: real            // the monotonic clock
    var armed: Option<real>  // when the alarm will fire

    ghost var scopes: seq<Deadline>  // the open `limit` scopes, outermost first
    ghost var armedAt: real          // when the timer was set
    ghost var lag: real              // time between reading the clock and setting the timer
    ghost var seen: seq<int>         // every free-space sample
    ghost var stuck: seq<Deadline>     // left scopes whose deadline was not taken back, by a halt
    ghost var stuckTag: seq<Deadline>  // left scopes whose tag was not taken back

    ghost function Active(): seq<Deadline>
      reads `phaseDeadline, `phaseTag, `pendingDeadline
    {
      [(deadline, "fixture_deadline")]
      + (if phaseDeadline.Some? then [(phaseDeadline.value, phaseTag)] else [])
      + (if pendingDeadline.Some? then [(pendingDeadline.value, "pending_deadline")] else [])
    }

    /** No timer lies beyond a second or, but for the lag, beyond the fixture's, the pending and this
        phase deadline. */
    ghost predicate BoundedBy(phase: Option<real>)
      reads `armed, `armedAt, `lag, `now, `pendingDeadline
    {
      armed.Some? ==>
        && armedAt <= now && 0.0 <= lag && armed.value <= armedAt + 1.0
        && armed.value - lag <= deadline
        && (phase.Some? ==> armed.value - lag <= phase.value)
        && (pendingDeadline.Some? ==> armed.value - lag <= pendingDeadline.value)
    }

    ghost predicate Sampled()
      reads `samples, `minimumFree, `seen
    {
      && samples == |seen|
      && (minimumFree == None <==> seen == [])
      && (minimumFree.Some? ==> minimumFree.value in seen && forall x :: x in seen ==> minimumFree.value <= x)
    }

    ghost predicate Valid()
      reads this
    {
      && (phaseDeadline, phaseTag) == Governing(scopes) && stuck == [] && stuckTag == []
      && BoundedBy(phaseDeadline) && Sampled()
    }

    /** The alarm is set and has not fired. */
    ghost predicate Live()
      reads `armed, `now
    {
      armed.Some? && now < armed.value
    }

    /** No active deadline was passed by more than the lag of the last arming. */
    ghost predicate InTime()
      reads this
    {
      && now < deadline + lag
      && (phaseDeadline.Some? ==> now < phaseDeadline.value + lag)
      && (pendingDeadline.Some? ==> now < pendingDeadline.value + lag)
    }

    /** The phase deadline is that of the open scopes and those stuck, and so is its tag. */
    ghost predicate Left()
      reads `phaseDeadline, `phaseTag, `scopes, `stuck, `stuckTag
    {
      phaseDeadline == Governing(scopes + stuck).0 && phaseTag == Governing(scopes + stuckTag).1
    }

    /** When the phase deadline and its tag are what they were: exactly if no scope that is stuck narrows
        the deadline or, for the tag, if the one that governs those stuck has the same tag. */
    ghost predicate Settled(d: Option<real>, tag: string)
      reads `phaseDeadline, `phaseTag, `stuck, `stuckTag
    {
      && (phaseDeadline == d <==> !Narrowed(d, stuck))
      && (phaseTag == tag <==> !Narrowed(d, stuckTag) || tag == Governing(stuckTag).1)
    }

    lemma Settles()
      requires Left()
      ensures Settled(Governing(scopes).0, Governing(scopes).1)
    {
      GoverningMore(scopes, stuck);
      GoverningMore(scopes, stuckTag);
    }

    constructor (started: real, seconds: real)
      ensures Valid() && deadline == started + seconds && now == started && scopes == [] && armed == None
    {
      deadline := started + seconds;
      phaseDeadline, phaseTag, pendingDeadline := None, "fixture_deadline", None;
      samples, minimumFree, seen := 0, None, [];
      now, armed := started, None;
      scopes, stuck, stuckTag := [], [], [];
    }

    method ReadClock() returns (t: real)
      modifies `now
      ensures t == now && old(now) <= now
    {
      t := *;
      if t < now {
        t := now;
      }
      now := t;
    }

    /** The free-space sample of `tick`; `None` if it is enough to go on. */
    method Sample() returns (refusal: Option<string>)
      requires Sampled()
      modifies `samples, `minimumFree, `seen
      ensures Sampled()
      ensures seen == old(seen) || (|seen| == |old(seen)| + 1 && seen[..|seen| - 1] == old(seen))
      ensures refusal == Some("disk_observation_failed") <==> seen == old(seen)
      ensures refusal == Some("disk_margin") <==> seen != old(seen) && seen[|seen| - 1] < STOP_FREE_BYTES
      ensures refusal == None <==> seen != old(seen) && STOP_FREE_BYTES <= seen[|seen| - 1]
    {
      var free: Option<int> := *;
      if free == None {
        return Some("disk_observation_failed");
      }
      samples := samples + 1;
      minimumFree := if minimumFree == None then free
                     else Some(if free.value < minimumFree.value then free.value else minimumFree.value);
      seen := seen + [free.value];
      refusal := if free.value < STOP_FREE_BYTES then Some("disk_margin") else None;
    }

    /** The least of the active deadlines, with its tag. */
    method LeastActive() returns (least: Deadline)
      ensures Minimal(Active(), least)
      ensures least.0 <= deadline
      ensures phaseDeadline.Some? ==> least.0 <= phaseDeadline.value
      ensures pendingDeadline.Some? ==> least.0 <= pendingDeadline.value
    {
      var deadlines := [(deadline, "fixture_deadline")];
      if phaseDeadline.Some? {
        deadlines := deadlines + [(phaseDeadline.value, phaseTag)];
      }
      if pendingDeadline.Some? {
        deadlines := deadlines + [(pendingDeadline.value, "pending_deadline")];
      }
      assert deadlines == Active();
      least := Least(deadlines);
      assert deadlines[0].0 == deadline;
      assert phaseDeadline.Some? ==> deadlines[1].0 == phaseDeadline.value;
      assert pendingDeadline.Some? ==> deadlines[|deadlines| - 1].0 == pendingDeadline.value;
    }

    /** The timer is set for the least deadline, or for a second. */
    method SetTimer(least: real, readAt: real)
      requires readAt <= now && readAt < least && least <= deadline
      requires phaseDeadline.Some? ==> least <= phaseDeadline.value
      requires pendingDeadline.Some? ==> least <= pendingDeadline.value
      modifies `now, `armed, `armedAt, `lag
      ensures old(now) <= now && BoundedBy(phaseDeadline) && Live()
      ensures lag == armedAt - readAt && armed == Some(armedAt + Delay(least, readAt))
    {
      var setAt := ReadClock();
      FiresInTime(least, readAt, setAt);
      armed, armedAt, lag := Some(setAt + Delay(least, readAt)), setAt, setAt - readAt;
    }

    /** The timer is what it was, or the alarm has fired. */
    twostate predicate TimerLeft()
      reads this
    {
      armed == None || (armed == old(armed) && armedAt == old(armedAt) && lag == old(lag))
    }

    /** What `tick` decides before it sets the timer: it halts, or there is time to the least deadline. */
    method Aim() returns (r: Outcome, least: real, readAt: real)
      requires Sampled()
      modifies `now, `samples, `minimumFree, `seen
      ensures Sampled() && old(now) <= now && r != Failed
      ensures r.Halted? ==> r.tag in {"disk_observation_failed", "disk_margin"} || Blames(Active(), r.tag, now)
      ensures r.Normal? ==> readAt <= now && readAt < least <= deadline
      ensures r.Normal? && phaseDeadline.Some? ==> least <= phaseDeadline.value
      ensures r.Normal? && pendingDeadline.Some? ==> least <= pendingDeadline.value
    {
      least, readAt := 0.0, 0.0;
      var refusal := Sample();
      if refusal.Some? {
        r := Halted(refusal.value);
        return;
      }
      readAt := ReadClock();
      var first := LeastActive();
      least := first.0;
      r := Normal;
      if readAt >= first.0 {
        assert Minimal(Active(), (first.0, first.1));
        r := Halted(first.1);
      }
    }

    /** `tick`, during which the alarm may fire, at most `alarms` times, before the timer is set anew. */
    method TickAmid(alarms: nat) returns (r: Outcome)
      requires Sampled()
      modifies `now, `armed, `armedAt, `lag, `samples, `minimumFree, `seen
      ensures Sampled() && old(now) <= now && r != Failed
      ensures r.Normal? ==> BoundedBy(phaseDeadline) && Live()
      ensures r.Halted? ==> TimerLeft()
      ensures r.Halted? ==> r.tag in {"disk_observation_failed", "disk_margin"} || Blames(Active(), r.tag, now)
      decreases alarms
    {
      var least, readAt;
      r, least, readAt := Aim();
      if r.Halted? {
        return;
      }
      if alarms > 0 && armed.Some? {
        armed := None;
        r := TickAmid(alarms - 1);
        if r.Halted? {
          return;
        }
      }
      SetTimer(least, readAt);
      return Normal;
    }

    /** `tick`. It arms the timer, to a time still to come, or halts and sets no timer. When it halts on
        a deadline, the tag is that of the least active deadline, and that has passed. */
    method Tick() returns (r: Outcome)
      requires Sampled()
      modifies `now, `armed, `armedAt, `lag, `samples, `minimumFree, `seen
      ensures Sampled() && old(now) <= now && r != Failed
      ensures r.Normal? ==> BoundedBy(phaseDeadline) && Live()
      ensures r.Halted? ==> TimerLeft()
      ensures r.Halted? ==> r.tag in {"disk_observation_failed", "disk_margin"} || Blames(Active(), r.tag, now)
    {
      var alarms: int := *;
      r := TickAmid(if alarms < 0 then 0 else alarms);
    }

    /** Time passes; if the alarm fires meanwhile, its handler is `tick`, and a signal may halt the work. */
    method Pass() returns (r: Outcome)
      requires Valid() && Live()
      modifies `now, `armed, `armedAt, `lag, `samples, `minimumFree, `seen
      ensures Valid() && old(now) <= now && r != Failed
      ensures r.Normal? ==> Live()
    {
      var t := ReadClock();
      var signalled: bool := *;
      if signalled {
        r := Strike();
      } else if armed.value <= t {
        armed := None;
        r := Tick();
      } else {
        r := Normal;
      }
    }

    /** Any work, with `limit` scopes nested to any depth. Every recursive call starts from `Valid`:
        at each point of the work the least of all open scopes governs and the timer is bounded.
        However the work ends, the phase deadline and its tag are what they were, unless a halt fell in
        the opening or the `finally` of an outermost scope of the work; then they are those of the scopes
        that are stuck. Unless it was halted the alarm is still to come, so no active deadline was passed
        by more than the lag. `handling` says that an exception is being handled around the work. */
    method Run(work: Work, handling: bool) returns (r: Outcome)
      requires Valid() && Live()
      modifies this
      ensures old(now) <= now
      ensures scopes == old(scopes) && Sampled() && BoundedBy(old(phaseDeadline)) && Left()
      ensures !r.Halted? || !Torn(work) ==> stuck == [] && stuckTag == []
      ensures !r.Halted? || !Torn(work) ==> phaseDeadline == old(phaseDeadline) && phaseTag == old(phaseTag)
      ensures !r.Halted? ==> Live() && InTime()
      decreases work, 0
    {
      assert scopes + [] == scopes;
      match work
      case Wait => r := Pass();
      case Check => r := Tick();
      case Fail => r := Failed;
      case Then(first, second) =>
        r := Run(first, handling);
        if r.Normal? {
          r := Run(second, handling);
        }
      case Limit(seconds, name, body, tear) =>
        ghost var ends, entered;
        r, ends, entered := Scope(seconds, name, body, handling, tear);
      case Catch(body, handler) =>
        r := Run(body, handling);
        if r.Failed? {
          r := Run(handler, true);
        }
      case Begin => r := SetPending();
      case Consume =>
        pendingDeadline := None;
        r := Normal;
    }

    method SetPending() returns (r: Outcome)
      requires Valid() && Live()
      modifies this
      ensures old(now) <= now
      ensures Valid() && scopes == old(scopes) && phaseDeadline == old(phaseDeadline) && phaseTag == old(phaseTag)
      ensures r != Failed && (r.Normal? ==> Live() && pendingDeadline.Some?)
      ensures r.Normal? ==> old(now) + PENDING_SECONDS <= pendingDeadline.value <= now + PENDING_SECONDS
    {
      r := Pass();
      if r.Normal? {
        pendingDeadline := Some(now + PENDING_SECONDS);
        r := Tick();
      }
    }

    /** `with limit(seconds, name): body`. On the way out there is no `tick` while an exception is
        propagating or being handled. Without a halt in this very scope's opening or `finally` the phase
        deadline and its tag are restored on every exit, and what a halt left of scopes inside is
        repaired. With one they are restored exactly if this scope, which ends at `ends`, and those stuck
        inside it do not narrow the deadline, or for the tag have the same one. */
    method Scope(seconds: real, name: string, body: Work, handling: bool, tear: Tear)
      returns (r: Outcome, ghost ends: real, ghost entered: bool)
      requires Valid() && Live()
      modifies this
      ensures old(now) <= now && (entered ==> old(now) + seconds <= ends <= now + seconds)
      ensures scopes == old(scopes) && Sampled() && BoundedBy(old(phaseDeadline)) && Left()
      ensures Settled(old(phaseDeadline), old(phaseTag))
      ensures tear == NoTear || !entered ==> stuck == [] && stuckTag == []
      ensures tear != NoTear ==> r.Halted?
      ensures entered && tear.Opening? ==>
                stuck == [(ends, name)] && stuckTag == if tear.tagStored then [(ends, name)] else []
      ensures entered && tear.Closing? ==> Keeps(stuckTag, (ends, name), body)
      ensures entered && tear.Closing? ==>
                if tear.deadlineRestored then stuck == [] else Keeps(stuck, (ends, name), body)
      ensures entered && Alone(tear, body) && tear != Closing(true) ==>
                (phaseDeadline == old(phaseDeadline) <==> !Narrows(old(phaseDeadline), ends))
      ensures entered && tear == Closing(true) ==> phaseDeadline == old(phaseDeadline)
      ensures entered && tear == Opening(false) ==> phaseTag == old(phaseTag)
      ensures entered && tear != Opening(false) && Alone(tear, body) ==>
                (phaseTag == old(phaseTag) <==> !Narrows(old(phaseDeadline), ends) || name == old(phaseTag))
      ensures !r.Halted? ==> Live()
      decreases body, 5
    {
      r, ends, entered := Limited(seconds, name, body, handling, tear);
      Settles();
      OneStuck(old(phaseDeadline), (ends, name));
    }

    /** The same, but for when that is. */
    method Limited(seconds: real, name: string, body: Work, handling: bool, tear: Tear)
      returns (r: Outcome, ghost ends: real, ghost entered: bool)
      requires Valid() && Live()
      modifies this
      ensures old(now) <= now && (entered ==> old(now) + seconds <= ends <= now + seconds)
      ensures scopes == old(scopes) && Sampled() && BoundedBy(old(phaseDeadline)) && Left()
      ensures tear == NoTear || !entered ==> stuck == [] && stuckTag == []
      ensures tear != NoTear ==> r.Halted?
      ensures entered && tear.Opening? ==>
                stuck == [(ends, name)] && stuckTag == if tear.tagStored then [(ends, name)] else []
      ensures entered && tear.Closing? ==> Keeps(stuckTag, (ends, name), body)
      ensures entered && tear.Closing? ==>
                if tear.deadlineRestored then stuck == [] else Keeps(stuck, (ends, name), body)
      ensures !r.Halted? ==> Live()
      decreases body, 4
    {
      assert scopes + [] == scopes;
      r := Pass();
      ends, entered := now + seconds, r.Normal?;
      if r.Normal? {
        match tear
        case NoTear => r := Whole(seconds, name, body, handling);
        case Opening(tagStored) => r := Unopened(seconds, name, tagStored);
        case Closing(deadlineRestored) => r := Unclosed(seconds, name, body, handling, deadlineRestored);
      }
    }

    /** A scope that no halt tears. */
    method Whole(seconds: real, name: string, body: Work, handling: bool) returns (r: Outcome)
      requires Valid() && Live()
      modifies this
      ensures old(now) <= now
      ensures scopes == old(scopes) && Sampled() && BoundedBy(old(phaseDeadline))
      ensures stuck == [] && stuckTag == [] && phaseDeadline == old(phaseDeadline) && phaseTag == old(phaseTag)
      ensures !r.Halted? ==> Live()
      decreases body, 3
    {
      var oldDeadline, oldTag := phaseDeadline, phaseTag;
      r := Inside(seconds, name, body, handling);
      Leave(oldDeadline, oldTag, old(scopes));
      if r.Normal? && !handling {
        r := Tick();
      }
    }

    /** A scope whose `finally` is halted. */
    method Unclosed(seconds: real, name: string, body: Work, handling: bool, deadlineRestored: bool)
      returns (r: Outcome)
      requires Valid() && Live()
      modifies this
      ensures old(now) <= now
      ensures scopes == old(scopes) && Sampled() && BoundedBy(old(phaseDeadline)) && Left() && r.Halted?
      ensures Keeps(stuckTag, (old(now) + seconds, name), body)
      ensures if deadlineRestored then stuck == [] else Keeps(stuck, (old(now) + seconds, name), body)
      decreases body, 3
    {
      var oldDeadline := phaseDeadline;
      r := InsideStruck(seconds, name, body, handling);
      StoreClosing(oldDeadline, deadlineRestored, old(scopes), (old(now) + seconds, name), body);
    }

    /** The `try` block, and then a halt. */
    method InsideStruck(seconds: real, name: string, body: Work, handling: bool) returns (r: Outcome)
      requires Valid() && Live()
      modifies this
      ensures old(now) <= now
      ensures Sampled() && BoundedBy(old(phaseDeadline)) && r.Halted?
      ensures scopes == old(scopes) + [(old(now) + seconds, name)] && Left()
      ensures !Torn(body) ==> stuck == [] && stuckTag == []
      decreases body, 2
    {
      r := Inside(seconds, name, body, handling);
      r := Strike();
    }

    /** A scope that is halted while it opens. */
    method Unopened(seconds: real, name: string, tagStored: bool) returns (r: Outcome)
      requires Valid()
      modifies `phaseDeadline, `phaseTag, `stuck, `stuckTag, `armed
      ensures BoundedBy(old(phaseDeadline)) && Left() && r.Halted?
      ensures stuck == [(now + seconds, name)]
      ensures stuckTag == if tagStored then [(now + seconds, name)] else []
    {
      r := Struck();
      StoreOpening(now + seconds, name, tagStored);
    }

    /** The `try` block: the scope is open. */
    method Inside(seconds: real, name: string, body: Work, handling: bool) returns (r: Outcome)
      requires Valid() && Live()
      modifies this
      ensures old(now) <= now
      ensures Sampled() && BoundedBy(old(phaseDeadline))
      ensures scopes == old(scopes) + [(old(now) + seconds, name)] && Left()
      ensures !Torn(body) ==> stuck == [] && stuckTag == []
      ensures !r.Halted? ==> Live()
      decreases body, 1
    {
      r := Enter(seconds, name);
      assert scopes + [] == scopes;
      if r.Normal? {
        r := Run(body, handling);
      }
    }

    /** A halt, by the alarm or by a signal. */
    method Strike() returns (r: Outcome)
      modifies `armed
      ensures r.Halted? && (armed == None || armed == old(armed))
    {
      var fired: bool, tag: string := *, *;
      if fired {
        armed := None;
      }
      r := Halted(tag);
    }

    /** A halt that leaves a valid budget. */
    method Struck() returns (r: Outcome)
      requires Valid()
      modifies `armed
      ensures Valid() && r.Halted?
    {
      r := Strike();
    }

    /** What an opening scope stores before its `try`: its deadline, and its tag or not yet. */
    method StoreOpening(ends: real, name: string, tagStored: bool)
      requires (phaseDeadline, phaseTag) == Governing(scopes)
      modifies `phaseDeadline, `phaseTag, `stuck, `stuckTag
      ensures Left() && stuck == [(ends, name)] && stuckTag == if tagStored then [(ends, name)] else []
    {
      GoverningOpened(scopes, ends, name);
      assert scopes + [] == scopes;
      stuck, stuckTag := [(ends, name)], if tagStored then [(ends, name)] else [];
      if Narrows(phaseDeadline, ends) {
        phaseDeadline := Some(ends);
        if tagStored {
          phaseTag := name;
        }
      }
    }

    /** What the `finally` restores before it is halted: the deadline, or nothing. */
    method StoreClosing(oldDeadline: Option<real>, deadlineRestored: bool,
                        ghost before: seq<Deadline>, ghost own: Deadline, ghost body: Work)
      requires Left() && scopes == before + [own] && oldDeadline == Governing(before).0
      requires !Torn(body) ==> stuck == [] && stuckTag == []
      modifies `phaseDeadline, `stuck, `stuckTag, `scopes
      ensures Left() && scopes == before && Keeps(stuckTag, own, body)
      ensures if deadlineRestored then stuck == [] else Keeps(stuck, own, body)
    {
      OwnStuck(before, own, stuck, body);
      OwnStuck(before, own, stuckTag, body);
      stuck, stuckTag, scopes := [own] + stuck, [own] + stuckTag, before;
      if deadlineRestored {
        phaseDeadline := oldDeadline;
        stuck := [];
      }
    }

    /** The scope opens, to end `seconds` after the clock reading, and `tick` runs. If that halts, the
        timer is what it was or none. */
    method Enter(seconds: real, name: string) returns (r: Outcome)
      requires Valid() && Live()
      modifies this
      ensures old(now) <= now
      ensures scopes == old(scopes) + [(old(now) + seconds, name)] && stuck == [] && stuckTag == []
      ensures (phaseDeadline, phaseTag) == Governing(scopes) && Sampled() && r != Failed
      ensures r.Normal? ==> Valid() && Live()
      ensures old(phaseDeadline).Some? ==> phaseDeadline.Some? && phaseDeadline.value <= old(phaseDeadline).value
      ensures r.Halted? ==> BoundedBy(old(phaseDeadline))
    {
      var ends := now + seconds;
      GoverningOpened(scopes, ends, name);
      if Narrows(phaseDeadline, ends) {
        phaseDeadline, phaseTag := Some(ends), name;
      }
      scopes := scopes + [(ends, name)];
      r := Tick();
    }

    method Leave(oldDeadline: Option<real>, oldTag: string, ghost before: seq<Deadline>)
      modifies `phaseDeadline, `phaseTag, `scopes, `stuck, `stuckTag
      ensures scopes == before && phaseDeadline == oldDeadline && phaseTag == oldTag
      ensures stuck == [] && stuckTag == []
    {
      phaseDeadline, phaseTag := oldDeadline, oldTag;
      scopes, stuck, stuckTag := before, [], [];
    }
  }
}
