/** Comparison of two snapshots by category of key (`refusal_snapshot_counts`). */
module SnapshotDiff {
  import opened Bytes
  import opened Options
  import opened Snapshot

  datatype Label =
    | HttpRates
    | HttpRateExpiry
    | HttpRateCount
    | MaintenanceCursors
    | MaintenanceBounds
    | ProtectedOrOther

  const RATES := Ascii("http_rates/")
  const RATE_EXPIRY := Ascii("index_expiry_http_rates/")
  const RATE_COUNT := Ascii("index_counts/http_rates")
  const CURSORS := Ascii("maintenance_cursors/")
  const BOUNDS := Ascii("maintenance_bounds/")

  function Category(key: Bytes): Label {
    if StartsWith(key, RATES) then HttpRates
    else if StartsWith(key, RATE_EXPIRY) then HttpRateExpiry
    else if key == RATE_COUNT then HttpRateCount
    else if StartsWith(key, CURSORS) then MaintenanceCursors
    else if StartsWith(key, BOUNDS) then MaintenanceBounds
    else ProtectedOrOther
  }

  /** Each category holds the keys its name says, and the last one all others. */
  lemma CategoryKeys(key: Bytes)
    ensures Category(key) == HttpRates <==> StartsWith(key, Ascii("http_rates/"))
    ensures Category(key) == HttpRateExpiry <==> StartsWith(key, Ascii("index_expiry_http_rates/"))
    ensures Category(key) == HttpRateCount <==> key == Ascii("index_counts/http_rates")
    ensures Category(key) == MaintenanceCursors <==> StartsWith(key, Ascii("maintenance_cursors/"))
    ensures Category(key) == MaintenanceBounds <==> StartsWith(key, Ascii("maintenance_bounds/"))
  {
    assert RATES[0] == 104 && RATE_EXPIRY[0] == RATE_COUNT[0] == 105 && CURSORS[0] == BOUNDS[0] == 109;
    assert RATE_EXPIRY[6] == 101 && RATE_COUNT[6] == 99;
    assert CURSORS[12] == 99 && BOUNDS[12] == 98;
  }

  datatype Counts = Counts(before: nat, after: nat, added: nat, changed: nat, removed: nat)

  type Table = map<Label, Counts>

  const ZERO := Counts(0, 0, 0, 0, 0)

  const EMPTY_TABLE: Table :=
    map[HttpRates := ZERO, HttpRateExpiry := ZERO, HttpRateCount := ZERO,
        MaintenanceCursors := ZERO, MaintenanceBounds := ZERO, ProtectedOrOther := ZERO]

  lemma EmptyTable(l: Label)
    ensures l in EMPTY_TABLE && EMPTY_TABLE[l] == ZERO
  {
    match l {
      case HttpRates =>
      case HttpRateExpiry =>
      case HttpRateCount =>
      case MaintenanceCursors =>
      case MaintenanceBounds =>
      case ProtectedOrOther =>
    }
  }

  // ---------------------------------------------------------------- what the counts mean

  function Select(f: Bytes -> Label, s: set<Bytes>, l: Label): set<Bytes> {
    set k | k in s && f(k) == l
  }

  /** The keys of `s` that both sides hold with different values. */
  function Differing(s: set<Bytes>, b: Rows, a: Rows): set<Bytes> {
    set k | k in s && k in b && k in a && a[k] != b[k]
  }

  /** The counts of one category, as sizes of sets of keys. */
  function Meaning(f: Bytes -> Label, b: Rows, a: Rows, l: Label): Counts {
    Counts(|Select(f, b.Keys, l)|, |Select(f, a.Keys, l)|,
           |Select(f, a.Keys - b.Keys, l)|,
           |Select(f, Differing(b.Keys, b, a), l)|,
           |Select(f, b.Keys - a.Keys, l)|)
  }

  lemma SelectInsert(f: Bytes -> Label, s: set<Bytes>, x: Bytes, l: Label)
    requires x !in s
    ensures |Select(f, s + {x}, l)| == |Select(f, s, l)| + (if f(x) == l then 1 else 0)
  {
    if f(x) == l {
      assert Select(f, s + {x}, l) == Select(f, s, l) + {x};
    } else {
      assert Select(f, s + {x}, l) == Select(f, s, l);
    }
  }

  lemma SelectUnion(f: Bytes -> Label, s: set<Bytes>, t: set<Bytes>, l: Label)
    requires s !! t
    ensures |Select(f, s + t, l)| == |Select(f, s, l)| + |Select(f, t, l)|
  {
    assert Select(f, s + t, l) == Select(f, s, l) + Select(f, t, l);
  }

  // ---------------------------------------------------------------- the counting loops

  /** The counts of a category when the first loop has visited the keys of `done`. */
  function FirstAt(f: Bytes -> Label, done: set<Bytes>, b: Rows, a: Rows, l: Label): Counts {
    Counts(|Select(f, done, l)|, 0, 0,
           |Select(f, Differing(done, b, a), l)|, |Select(f, done - a.Keys, l)|)
  }

  /** The counts of a category when the second loop has visited the keys of `done`. */
  function SecondAt(f: Bytes -> Label, done: set<Bytes>, b: Rows, a: Rows, l: Label): Counts {
    FirstAt(f, b.Keys, b, a, l).(after := |Select(f, done, l)|, added := |Select(f, done - b.Keys, l)|)
  }

  ghost predicate FirstTable(f: Bytes -> Label, table: Table, done: set<Bytes>, b: Rows, a: Rows) {
    forall l :: l in table && table[l] == FirstAt(f, done, b, a, l)
  }

  ghost predicate SecondTable(f: Bytes -> Label, table: Table, done: set<Bytes>, b: Rows, a: Rows) {
    forall l :: l in table && table[l] == SecondAt(f, done, b, a, l)
  }

  function FirstVisit(c: Counts, key: Bytes, b: Rows, a: Rows): Counts
    requires key in b
  {
    var c' := c.(before := c.before + 1);
    if key !in a then c'.(removed := c.removed + 1)
    else if a[key] != b[key] then c'.(changed := c.changed + 1)
    else c'
  }

  function SecondVisit(c: Counts, key: Bytes, b: Rows): Counts {
    var c' := c.(after := c.after + 1);
    if key !in b then c'.(added := c.added + 1) else c'
  }

  lemma FirstStep(f: Bytes -> Label, done: set<Bytes>, key: Bytes, b: Rows, a: Rows, l: Label)
    requires key in b && key !in done
    ensures FirstAt(f, done + {key}, b, a, l)
            == if f(key) == l then FirstVisit(FirstAt(f, done, b, a, l), key, b, a)
               else FirstAt(f, done, b, a, l)
  {
    SelectInsert(f, done, key, l);
    if key in a {
      assert done + {key} - a.Keys == done - a.Keys;
    } else {
      SelectInsert(f, done - a.Keys, key, l);
      assert done + {key} - a.Keys == done - a.Keys + {key};
    }
    if key in a && a[key] != b[key] {
      SelectInsert(f, Differing(done, b, a), key, l);
      assert Differing(done + {key}, b, a) == Differing(done, b, a) + {key};
    } else {
      assert Differing(done + {key}, b, a) == Differing(done, b, a);
    }
  }

  lemma SecondStep(f: Bytes -> Label, done: set<Bytes>, key: Bytes, b: Rows, a: Rows, l: Label)
    requires key !in done
    ensures SecondAt(f, done + {key}, b, a, l)
            == if f(key) == l then SecondVisit(SecondAt(f, done, b, a, l), key, b)
               else SecondAt(f, done, b, a, l)
  {
    SelectInsert(f, done, key, l);
    if key in b {
      assert done + {key} - b.Keys == done - b.Keys;
    } else {
      SelectInsert(f, done - b.Keys, key, l);
      assert done + {key} - b.Keys == done - b.Keys + {key};
    }
  }

  lemma NothingSelected(f: Bytes -> Label, b: Rows, a: Rows, l: Label)
    ensures Select(f, {}, l) == {}
    ensures FirstAt(f, {}, b, a, l) == ZERO
    ensures SecondAt(f, {}, b, a, l) == FirstAt(f, b.Keys, b, a, l)
    ensures SecondAt(f, a.Keys, b, a, l) == Meaning(f, b, a, l)
  {
    assert Differing({}, b, a) == {} && {} - a.Keys == {} && {} - b.Keys == {};
    assert Select(f, {}, l) == {};
  }

  lemma FirstTableStep(f: Bytes -> Label, table: Table, done: set<Bytes>, key: Bytes, b: Rows, a: Rows)
    requires FirstTable(f, table, done, b, a) && key in b && key !in done
    ensures f(key) in table
    ensures FirstTable(f, table[f(key) := FirstVisit(table[f(key)], key, b, a)],
                       done + {key}, b, a)
  {
    forall l
      ensures FirstAt(f, done + {key}, b, a, l)
              == if f(key) == l then FirstVisit(table[l], key, b, a) else table[l]
    {
      FirstStep(f, done, key, b, a, l);
    }
  }

  lemma SecondTableStep(f: Bytes -> Label, table: Table, done: set<Bytes>, key: Bytes, b: Rows, a: Rows)
    requires SecondTable(f, table, done, b, a) && key !in done
    ensures f(key) in table
    ensures SecondTable(f, table[f(key) := SecondVisit(table[f(key)], key, b)],
                        done + {key}, b, a)
  {
    forall l
      ensures SecondAt(f, done + {key}, b, a, l)
              == if f(key) == l then SecondVisit(table[l], key, b) else table[l]
    {
      SecondStep(f, done, key, b, a, l);
    }
  }

  lemma FirstTableStart(f: Bytes -> Label, b: Rows, a: Rows)
    ensures FirstTable(f, EMPTY_TABLE, b.Keys - b.Keys, b, a)
  {
    assert b.Keys - b.Keys == {};
    forall l ensures l in EMPTY_TABLE && EMPTY_TABLE[l] == FirstAt(f, {}, b, a, l) {
      NothingSelected(f, b, a, l);
      EmptyTable(l);
    }
  }

  lemma SecondTableStart(f: Bytes -> Label, table: Table, b: Rows, a: Rows)
    requires FirstTable(f, table, b.Keys, b, a)
    ensures SecondTable(f, table, a.Keys - a.Keys, b, a)
  {
    assert a.Keys - a.Keys == {};
    forall l ensures SecondAt(f, {}, b, a, l) == FirstAt(f, b.Keys, b, a, l) {
      NothingSelected(f, b, a, l);
    }
  }

  lemma SecondTableEnd(f: Bytes -> Label, table: Table, b: Rows, a: Rows)
    requires SecondTable(f, table, a.Keys - {}, b, a)
    ensures forall l :: l in table && table[l] == Meaning(f, b, a, l)
  {
    assert a.Keys - {} == a.Keys;
    forall l ensures SecondAt(f, a.Keys, b, a, l) == Meaning(f, b, a, l) {
      NothingSelected(f, b, a, l);
    }
  }

  /** The loop over the old records. */
  method CountBefore(f: Bytes -> Label, b: Rows, a: Rows) returns (table: Table)
    ensures FirstTable(f, table, b.Keys, b, a)
  {
    table := EMPTY_TABLE;
    FirstTableStart(f, b, a);
    var todo := b.Keys;
    while todo != {}
      invariant todo <= b.Keys
      invariant FirstTable(f, table, b.Keys - todo, b, a)
      decreases todo
    {
      var key :| key in todo;
      FirstTableStep(f, table, b.Keys - todo, key, b, a);
      assert b.Keys - (todo - {key}) == b.Keys - todo + {key};
      table := table[f(key) := FirstVisit(table[f(key)], key, b, a)];
      todo := todo - {key};
    }
    assert b.Keys - todo == b.Keys;
  }

  /** Both counting loops: every category gets the sizes of its key sets. */
  method CountRows(f: Bytes -> Label, b: Rows, a: Rows) returns (table: Table)
    ensures forall l :: l in table && table[l] == Meaning(f, b, a, l)
  {
    table := CountBefore(f, b, a);
    SecondTableStart(f, table, b, a);
    var todo := a.Keys;
    while todo != {}
      invariant todo <= a.Keys
      invariant SecondTable(f, table, a.Keys - todo, b, a)
      decreases todo
    {
      var key :| key in todo;
      SecondTableStep(f, table, a.Keys - todo, key, b, a);
      assert a.Keys - (todo - {key}) == a.Keys - todo + {key};
      table := table[f(key) := SecondVisit(table[f(key)], key, b)];
      todo := todo - {key};
    }
    SecondTableEnd(f, table, b, a);
  }

  /** `refusal_snapshot_counts(before, after)`: a table exactly when both texts are snapshots. */
  method SnapshotCounts(before: Bytes, after: Bytes)
    returns (table: Option<Table>, ghost b: seq<Row>, ghost a: seq<Row>)
    ensures table.Some? <==> (exists x :: Accepts(before, x)) && exists y :: Accepts(after, y)
    ensures table.Some? ==>
              && Accepts(before, b) && Accepts(after, a)
              && forall l :: l in table.value && table.value[l] == Meaning(Category, ToMap(b), ToMap(a), l)
  {
    var x, y;
    x, b := Read(before);
    y, a := Read(after);
    if x.None? || y.None? {
      return None, b, a;
    }
    var counted := CountRows(Category, x.value, y.value);
    table := Some(counted);
  }

  // ---------------------------------------------------------------- what the counts conserve

  /** Records of a category are conserved: what is there afterwards was there before, less what
      was removed, plus what was added; and a record is not both changed and removed. */
  lemma Conserved(f: Bytes -> Label, b: Rows, a: Rows, l: Label)
    ensures var c := Meaning(f, b, a, l);
            c.after + c.removed == c.before + c.added && c.changed + c.removed <= c.before
  {
    var kept := b.Keys * a.Keys;
    SelectUnion(f, kept, b.Keys - a.Keys, l);
    SelectUnion(f, kept, a.Keys - b.Keys, l);
    assert kept + (b.Keys - a.Keys) == b.Keys && kept + (a.Keys - b.Keys) == a.Keys;
    var diff := Differing(b.Keys, b, a);
    SelectUnion(f, diff, kept - diff, l);
    assert diff + (kept - diff) == kept;
  }

  predicate NoDelta(c: Counts) {
    c.added == 0 && c.changed == 0 && c.removed == 0
  }

  /** All deltas are zero exactly when the two stores are equal. */
  lemma NoDeltaIsEqual(f: Bytes -> Label, b: Rows, a: Rows)
    ensures (forall l :: NoDelta(Meaning(f, b, a, l))) <==> b == a
  {
    if forall l :: NoDelta(Meaning(f, b, a, l)) {
      forall k
        ensures k in b <==> k in a
        ensures k in b && k in a ==> b[k] == a[k]
      {
        var l := f(k);
        assert NoDelta(Meaning(f, b, a, l));
        assert k !in Select(f, a.Keys - b.Keys, l);
        assert k !in Select(f, b.Keys - a.Keys, l);
        assert k !in Select(f, Differing(b.Keys, b, a), l);
      }
      assert b.Keys == a.Keys;
    }
    if b == a {
      assert Differing(b.Keys, b, a) == {} && b.Keys - a.Keys == {} && a.Keys - b.Keys == {};
      forall l ensures NoDelta(Meaning(f, b, a, l)) { NothingSelected(f, b, a, l); }
    }
  }
}
