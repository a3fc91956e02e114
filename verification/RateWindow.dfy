/** The fixed-window limiter behind the `http_rates` records. A record holds the start of the
    current 60-second window and the number of requests charged to it, in saturating unsigned
    64-bit and 32-bit arithmetic. Every request is charged; it is admitted when fewer than
    `limit` requests were charged to its window before it. */
module RateWindow {

  const U64_MAX: nat := 0xFFFF_FFFF_FFFF_FFFF
  const U32_MAX: nat := 0xFFFF_FFFF

  datatype Window = Window(start: nat, count: nat)

  function Min(a: nat, b: nat): nat {
    if a <= b then a else b
  }

  function Expiry(start: nat): nat {
    Min(start + 60, U64_MAX)
  }

  /** The window a request at `at` falls into, before the request is charged. */
  function Current(w: Window, at: nat): Window {
    if Expiry(w.start) > at then w else Window(at, 0)
  }

  function Charge(w: Window, at: nat): Window {
    var c := Current(w, at);
    Window(c.start, Min(c.count + 1, U32_MAX))
  }

  predicate Admits(w: Window, at: nat, limit: nat) {
    Current(w, at).count < limit
  }

  // ---------------------------------------------------------------- runs

  function After(w: Window, ts: seq<nat>): Window
    decreases ts
  {
    if ts == [] then w else After(Charge(w, ts[0]), ts[1..])
  }

  /** How many requests of the run are admitted at a time in `[lo, hi]`. */
  function AdmittedIn(w: Window, ts: seq<nat>, limit: nat, lo: nat, hi: nat): nat
    decreases ts
  {
    if ts == [] then 0
    else
      (if lo <= ts[0] <= hi && Admits(w, ts[0], limit) then 1 else 0)
      + AdmittedIn(Charge(w, ts[0]), ts[1..], limit, lo, hi)
  }

  /** How many requests of the run are admitted into the stored window that starts at `s`. */
  function AdmittedTo(w: Window, ts: seq<nat>, limit: nat, s: nat): nat
    decreases ts
  {
    if ts == [] then 0
    else
      (if Current(w, ts[0]).start == s && Admits(w, ts[0], limit) then 1 else 0)
      + AdmittedTo(Charge(w, ts[0]), ts[1..], limit, s)
  }

  /** Times do not decrease, from the stored start on. */
  predicate Ordered(w: Window, ts: seq<nat>) {
    && w.count >= 1
    && (forall i :: 0 <= i < |ts| ==> w.start <= ts[i] <= U64_MAX)
    && (forall i, j :: 0 <= i < j < |ts| ==> ts[i] <= ts[j])
  }

  lemma OrderedStep(w: Window, ts: seq<nat>)
    requires Ordered(w, ts) && ts != []
    ensures Ordered(Charge(w, ts[0]), ts[1..])
    ensures w.start <= Charge(w, ts[0]).start <= ts[0]
  {
  }

  function Spare(w: Window, limit: nat): nat {
    if w.count < limit then limit - w.count else 0
  }

  /** No stored window that starts before the last second admits more than `limit` requests. */
  lemma {:induction false} WindowBound(w: Window, ts: seq<nat>, limit: nat, s: nat)
    requires Ordered(w, ts) && limit <= U32_MAX && s < U64_MAX
    ensures AdmittedTo(w, ts, limit, s) <= limit
    ensures s < w.start ==> AdmittedTo(w, ts, limit, s) == 0
    ensures s == w.start ==> AdmittedTo(w, ts, limit, s) <= Spare(w, limit)
    decreases ts
  {
    if ts != [] {
      OrderedStep(w, ts);
      WindowBound(Charge(w, ts[0]), ts[1..], limit, s);
    }
  }

  /** Up to the end of the current window only its spare capacity is admitted. */
  lemma {:induction false} WithinWindow(w: Window, ts: seq<nat>, limit: nat, lo: nat, hi: nat)
    requires Ordered(w, ts) && limit <= U32_MAX
    requires hi < Expiry(w.start)
    ensures AdmittedIn(w, ts, limit, lo, hi) <= Spare(w, limit)
    decreases ts
  {
    if ts != [] {
      OrderedStep(w, ts);
      var w' := Charge(w, ts[0]);
      if ts[0] <= hi {
        WithinWindow(w', ts[1..], limit, lo, hi);
      } else {
        NoneLater(w', ts[1..], limit, lo, hi);
      }
    }
  }

  lemma {:induction false} NoneLater(w: Window, ts: seq<nat>, limit: nat, lo: nat, hi: nat)
    requires forall i :: 0 <= i < |ts| ==> ts[i] > hi
    ensures AdmittedIn(w, ts, limit, lo, hi) == 0
    decreases ts
  {
    if ts != [] { NoneLater(Charge(w, ts[0]), ts[1..], limit, lo, hi); }
  }

  /** Within two window lengths of a start at most one further window opens. */
  lemma {:induction false} WithinTwoWindows(w: Window, ts: seq<nat>, limit: nat, lo: nat, hi: nat)
    requires Ordered(w, ts) && limit <= U32_MAX
    requires hi < w.start + 120 && hi < U64_MAX
    ensures AdmittedIn(w, ts, limit, lo, hi) <= Spare(w, limit) + limit
    decreases ts
  {
    if ts != [] {
      OrderedStep(w, ts);
      var w' := Charge(w, ts[0]);
      if ts[0] > hi {
        NoneLater(w', ts[1..], limit, lo, hi);
      } else if ts[0] < Expiry(w.start) {
        WithinTwoWindows(w', ts[1..], limit, lo, hi);
      } else {
        WithinWindow(w', ts[1..], limit, lo, hi);
      }
    }
  }

  /** Over every run of requests, at most `2 * limit` are admitted between any second and the
      sixtieth after it, both included, and at most `2 * limit - 1` in any 60 seconds, as long as
      the span ends before the last second. */
  lemma {:induction false} SpanBound(w: Window, ts: seq<nat>, limit: nat, lo: nat, hi: nat)
    requires Ordered(w, ts) && limit <= U32_MAX && hi <= lo + 60 && hi < U64_MAX
    ensures AdmittedIn(w, ts, limit, lo, hi) <= 2 * limit
    ensures 1 <= limit && hi < lo + 60 ==> AdmittedIn(w, ts, limit, lo, hi) <= 2 * limit - 1
    decreases ts
  {
    if ts != [] {
      OrderedStep(w, ts);
      var w' := Charge(w, ts[0]);
      if ts[0] < lo {
        SpanBound(w', ts[1..], limit, lo, hi);
      } else if ts[0] > hi {
        NoneLater(w', ts[1..], limit, lo, hi);
      } else if ts[0] < Expiry(w.start) {
        WithinTwoWindows(w, ts, limit, lo, hi);
      } else {
        WithinTwoWindows(w', ts[1..], limit, lo, hi);
        if hi < lo + 60 {
          WithinWindow(w', ts[1..], limit, lo, hi);
        }
      }
    }
  }

  // ---------------------------------------------------------------- the last second

  /** How many requests of the run come at the last second. */
  function AtLast(ts: seq<nat>): nat {
    if ts == [] then 0 else (if ts[0] == U64_MAX then 1 else 0) + AtLast(ts[1..])
  }

  /** There the window end saturates: every request opens a new window and is admitted into it. */
  lemma {:induction false} LastSecondAdmits(w: Window, ts: seq<nat>, limit: nat)
    requires Ordered(w, ts)
    ensures AdmittedTo(w, ts, limit, U64_MAX) == if limit == 0 then 0 else AtLast(ts)
    decreases ts
  {
    if ts != [] {
      OrderedStep(w, ts);
      LastSecondAdmits(Charge(w, ts[0]), ts[1..], limit);
    }
  }

  /** Every stored window keeps the limit if and only if no more than `limit` requests come at the
      last second. */
  lemma WindowBoundExact(w: Window, ts: seq<nat>, limit: nat)
    requires Ordered(w, ts) && limit <= U32_MAX
    ensures (forall s: nat :: s <= U64_MAX ==> AdmittedTo(w, ts, limit, s) <= limit)
            <==> limit == 0 || AtLast(ts) <= limit
  {
    LastSecondAdmits(w, ts, limit);
    forall s: nat | s < U64_MAX ensures AdmittedTo(w, ts, limit, s) <= limit {
      WindowBound(w, ts, limit, s);
    }
  }

  /** A span that reaches the last second admits what it admits before it, and all requests at it. */
  lemma {:induction false} LastSecondSplits(w: Window, ts: seq<nat>, limit: nat, lo: nat, hi: nat)
    requires Ordered(w, ts) && lo <= U64_MAX <= hi
    ensures AdmittedIn(w, ts, limit, lo, hi)
            == AdmittedIn(w, ts, limit, lo, U64_MAX - 1) + if limit == 0 then 0 else AtLast(ts)
    decreases ts
  {
    if ts != [] {
      OrderedStep(w, ts);
      LastSecondSplits(Charge(w, ts[0]), ts[1..], limit, lo, hi);
    }
  }

  lemma {:induction false} AdmittedNarrower(w: Window, ts: seq<nat>, limit: nat, lo: nat, lo': nat, hi: nat)
    requires lo <= lo'
    ensures AdmittedIn(w, ts, limit, lo', hi) <= AdmittedIn(w, ts, limit, lo, hi)
    decreases ts
  {
    if ts != [] {
      AdmittedNarrower(Charge(w, ts[0]), ts[1..], limit, lo, lo', hi);
    }
  }

  /** Every span from a second to the sixtieth after it keeps the bound if and only if the last such
      span does: what is admitted in its first 60 seconds and all requests at the last second. */
  lemma SpanBoundExact(w: Window, ts: seq<nat>, limit: nat)
    requires Ordered(w, ts) && limit <= U32_MAX
    ensures (forall lo: nat, hi: nat :: hi <= lo + 60 && hi <= U64_MAX ==>
               AdmittedIn(w, ts, limit, lo, hi) <= 2 * limit)
            <==> limit == 0 || AdmittedIn(w, ts, limit, U64_MAX - 60, U64_MAX - 1) + AtLast(ts) <= 2 * limit
  {
    LastSecondSplits(w, ts, limit, U64_MAX - 60, U64_MAX);
    SpanBound(w, ts, limit, U64_MAX - 60, U64_MAX - 1);
    forall lo: nat, hi: nat | hi <= lo + 60 && hi <= U64_MAX
      ensures hi < U64_MAX ==> AdmittedIn(w, ts, limit, lo, hi) <= 2 * limit
      ensures hi == U64_MAX ==>
                AdmittedIn(w, ts, limit, lo, hi) <= AdmittedIn(w, ts, limit, U64_MAX - 60, U64_MAX)
    {
      if hi < U64_MAX {
        SpanBound(w, ts, limit, lo, hi);
      } else {
        AdmittedNarrower(w, ts, limit, U64_MAX - 60, lo, U64_MAX);
      }
    }
  }

  /** One request at the last second breaks nothing; more than `2 * limit` there break the bound. */
  lemma SpanBoundByCount(w: Window, ts: seq<nat>, limit: nat)
    requires Ordered(w, ts) && 1 <= limit <= U32_MAX
    ensures AtLast(ts) <= 1 ==> forall lo: nat, hi: nat :: hi <= lo + 60 && hi <= U64_MAX ==>
              AdmittedIn(w, ts, limit, lo, hi) <= 2 * limit
    ensures AtLast(ts) > 2 * limit ==> AdmittedIn(w, ts, limit, U64_MAX - 60, U64_MAX) > 2 * limit
  {
    SpanBoundExact(w, ts, limit);
    SpanBound(w, ts, limit, U64_MAX - 60, U64_MAX - 1);
    LastSecondSplits(w, ts, limit, U64_MAX - 60, U64_MAX);
  }

  // ---------------------------------------------------------------- both bounds are attained

  function Repeat(t: nat, n: nat): (r: seq<nat>)
    ensures |r| == n && forall i :: 0 <= i < n ==> r[i] == t
  {
    seq(n, i => t)
  }

  lemma {:induction false} RepeatAdmitted(w: Window, t: nat, n: nat, limit: nat, lo: nat, hi: nat, rest: seq<nat>)
    requires lo <= t <= hi && t < Expiry(w.start) && w.count + n <= limit <= U32_MAX
    ensures AdmittedIn(w, Repeat(t, n) + rest, limit, lo, hi)
            == n + AdmittedIn(Window(w.start, w.count + n), rest, limit, lo, hi)
    decreases n
  {
    if n == 0 {
      assert Repeat(t, 0) + rest == rest;
    } else {
      RepeatAdmitted(Charge(w, t), t, n - 1, limit, lo, hi, rest);
      assert (Repeat(t, n) + rest)[1..] == Repeat(t, n - 1) + rest;
    }
  }

  lemma OpenedAdmitted(w: Window, t: nat, n: nat, limit: nat, lo: nat, hi: nat, rest: seq<nat>)
    requires lo <= t <= hi && Expiry(w.start) <= t && t + 60 <= U64_MAX
    requires 1 <= n <= limit <= U32_MAX
    ensures AdmittedIn(w, Repeat(t, n) + rest, limit, lo, hi)
            == n + AdmittedIn(Window(t, n), rest, limit, lo, hi)
  {
    var ts := Repeat(t, n) + rest;
    assert ts[0] == t && ts[1..] == Repeat(t, n - 1) + rest;
    assert Charge(w, t) == Window(t, 1);
    RepeatAdmitted(Window(t, 1), t, n - 1, limit, lo, hi, rest);
  }

  /** Two full windows in a row admit `2 * limit` requests between a second and the sixtieth
      after it, so that bound of `SpanBound` cannot be lowered. */
  lemma SpanBoundTight(w: Window, limit: nat, t: nat)
    requires 1 <= limit <= U32_MAX && w.count >= 1 && Expiry(w.start) <= t && t + 120 <= U64_MAX
    ensures var ts := Repeat(t, limit) + (Repeat(t + 60, limit) + []);
            Ordered(w, ts) && AdmittedIn(w, ts, limit, t, t + 60) == 2 * limit
  {
    OpenedAdmitted(w, t, limit, limit, t, t + 60, Repeat(t + 60, limit) + []);
    OpenedAdmitted(Window(t, limit), t + 60, limit, limit, t, t + 60, []);
  }

  /** A window opened by one early request and otherwise filled at its end lets 60 seconds hold
      `2 * limit - 1` requests, so that bound cannot be lowered either. */
  lemma MinuteBoundTight(w: Window, limit: nat, t: nat)
    requires 1 <= limit <= U32_MAX && w.count >= 1 && Expiry(w.start) <= t && t + 120 <= U64_MAX
    ensures var ts := [t] + (Repeat(t + 59, limit - 1) + (Repeat(t + 60, limit) + []));
            Ordered(w, ts) && AdmittedIn(w, ts, limit, t + 1, t + 60) == 2 * limit - 1
  {
    var last := Repeat(t + 60, limit) + [];
    var rest := Repeat(t + 59, limit - 1) + last;
    var ts := [t] + rest;
    assert ts[1..] == rest && Charge(w, t) == Window(t, 1);
    RepeatAdmitted(Window(t, 1), t + 59, limit - 1, limit, t + 1, t + 60, last);
    OpenedAdmitted(Window(t, limit), t + 60, limit, limit, t + 1, t + 60, []);
  }

  /** At the last second the window end saturates and every request opens a new window, so no
      bound holds there: any number of requests is admitted into one stored start. */
  lemma {:induction false} LastSecondUnbounded(w: Window, n: nat, limit: nat)
    requires limit >= 1
    ensures AdmittedIn(w, Repeat(U64_MAX, n), limit, U64_MAX, U64_MAX) == n
    ensures AdmittedTo(w, Repeat(U64_MAX, n), limit, U64_MAX) == n
    decreases n
  {
    if n > 0 {
      LastSecondUnbounded(Charge(w, U64_MAX), n - 1, limit);
      assert Repeat(U64_MAX, n)[1..] == Repeat(U64_MAX, n - 1);
    }
  }
}
