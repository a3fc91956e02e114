/** The full-store snapshot of the edition-transition probe: one `hex(key)|hex(value)` line
    per record. `Read` is its strict parser and `Pack` its canonical printer. */
module Snapshot {
  import opened Bytes
  import opened Options

  const MAX_SNAPSHOT: nat := 8 * 1024 * 1024
  const MAX_ROWS: nat := 1_000_000
  const MAX_VALUE_HEX: nat := 2 * 1024 * 1024

  /** A record: its key, and its value still in hexadecimal. */
  datatype Row = Row(key: Bytes, hex: Bytes)

  type Rows = map<Bytes, Bytes>

  predicate ValidKey(key: Bytes) {
    && 1 <= |key| <= 4096
    && ValidUtf8(key)
    && key[0] != SLASH && SLASH in key
    && 0 !in key
  }

  predicate ValidHex(hex: Bytes) {
    |hex| <= 2097152 && |hex| % 2 == 0 && AllHex(hex)
  }

  predicate ValidRow(r: Row) {
    ValidKey(r.key) && ValidHex(r.hex)
  }

  function Line(r: Row): (l: Bytes)
    ensures |l| == 2 * |r.key| + |r.hex| + 2
  {
    Hex(r.key) + [BAR] + r.hex + [NL]
  }

  function Print(rows: seq<Row>): Bytes {
    if rows == [] then [] else Print(rows[..|rows| - 1]) + Line(rows[|rows| - 1])
  }

  ghost predicate AllValid(rows: seq<Row>) {
    forall i :: 0 <= i < |rows| ==> ValidRow(rows[i])
  }

  ghost predicate DistinctKeys(rows: seq<Row>) {
    forall i, j :: 0 <= i < j < |rows| ==> rows[i].key != rows[j].key
  }

  /** What the parser is for: the text is the printed form of these records. */
  ghost predicate Accepts(raw: Bytes, rows: seq<Row>) {
    && |raw| <= 8388608 && |rows| <= 1000000
    && AllValid(rows) && DistinctKeys(rows)
    && raw == Print(rows)
  }

  /** A dictionary filled in row order. */
  function ToMap(rows: seq<Row>): Rows {
    if rows == [] then map[]
    else ToMap(rows[..|rows| - 1])[rows[|rows| - 1].key := rows[|rows| - 1].hex]
  }

  // ---------------------------------------------------------------- one line

  /** The checks on the two halves of a line. */
  function RowFrom(keyHex: Bytes, valueHex: Bytes): (r: Option<Row>) {
    if !(2 <= |keyHex| <= 8192) || |keyHex| % 2 != 0 || |valueHex| > MAX_VALUE_HEX
       || |valueHex| % 2 != 0 || !AllHex(keyHex) || !AllHex(valueHex)
    then None
    else
      var key := Unhex(keyHex);
      if ValidUtf8(key) && key[0] != SLASH && SLASH in key && 0 !in key
      then Some(Row(key, valueHex)) else None
  }

  /** One line from the cursor, before its duplicate check. */
  function ReadRow(raw: Bytes, cursor: nat): (r: Option<Row>)
    requires cursor <= |raw|
  {
    var end := Find(raw, NL, cursor);
    var split := Find(raw, BAR, cursor);
    if end == |raw| || split >= end then None
    else RowFrom(raw[cursor..split], raw[split + 1..end])
  }

  lemma RowFromHex(r: Row)
    requires ValidRow(r)
    ensures RowFrom(Hex(r.key), r.hex) == Some(r)
  {
    UnhexHex(r.key);
  }

  lemma RowFromSound(keyHex: Bytes, valueHex: Bytes)
    requires RowFrom(keyHex, valueHex).Some?
    ensures var r := RowFrom(keyHex, valueHex).value;
            ValidRow(r) && Hex(r.key) == keyHex && r.hex == valueHex
  {
    HexUnhex(keyHex);
  }

  lemma HexFree(s: Bytes)
    requires AllHex(s)
    ensures NL !in s && BAR !in s
  {
  }

  /** `piece` stands in `raw` at the cursor. */
  predicate At(raw: Bytes, cursor: nat, piece: Bytes) {
    cursor + |piece| <= |raw| && raw[cursor..cursor + |piece|] == piece
  }

  lemma AtConcat(raw: Bytes, cursor: nat, a: Bytes, b: Bytes)
    ensures At(raw, cursor, a + b) <==> At(raw, cursor, a) && At(raw, cursor + |a|, b)
  {
    var ab := a + b;
    if At(raw, cursor, ab) {
      var w := raw[cursor..cursor + |ab|];
      assert raw[cursor..cursor + |a|] == w[..|a|] == a;
      assert raw[cursor + |a|..cursor + |a| + |b|] == w[|a|..] == b;
    }
    if At(raw, cursor, a) && At(raw, cursor + |a|, b) {
      assert raw[cursor..cursor + |ab|]
          == raw[cursor..cursor + |a|] + raw[cursor + |a|..cursor + |a| + |b|];
    }
  }

  /** A line stands at the cursor when its four pieces do. */
  lemma LineAt(raw: Bytes, cursor: nat, r: Row)
    ensures var split := cursor + 2 * |r.key|;
            At(raw, cursor, Line(r)) <==>
            && At(raw, cursor, Hex(r.key)) && At(raw, split, [BAR])
            && At(raw, split + 1, r.hex) && At(raw, split + 1 + |r.hex|, [NL])
  {
    var keyHex := Hex(r.key);
    AtConcat(raw, cursor, keyHex, [BAR]);
    AtConcat(raw, cursor, keyHex + [BAR], r.hex);
    AtConcat(raw, cursor, keyHex + [BAR] + r.hex, [NL]);
  }

  lemma ReadRowSound(raw: Bytes, cursor: nat)
    requires cursor <= |raw| && ReadRow(raw, cursor).Some?
    ensures ValidRow(ReadRow(raw, cursor).value)
    ensures At(raw, cursor, Line(ReadRow(raw, cursor).value))
  {
    var end, split := Find(raw, NL, cursor), Find(raw, BAR, cursor);
    RowFromSound(raw[cursor..split], raw[split + 1..end]);
    LineAt(raw, cursor, ReadRow(raw, cursor).value);
  }

  lemma FindsInLine(raw: Bytes, cursor: nat, r: Row)
    requires ValidRow(r) && At(raw, cursor, Line(r))
    ensures Find(raw, BAR, cursor) == cursor + 2 * |r.key|
    ensures Find(raw, NL, cursor) == cursor + |Line(r)| - 1
  {
    var keyHex := Hex(r.key);
    var split := cursor + |keyHex|;
    var end := split + 1 + |r.hex|;
    LineAt(raw, cursor, r);
    HexFree(keyHex);
    HexFree(r.hex);
    FindUnique(raw, BAR, cursor, split);
    assert raw[cursor..end] == keyHex + [BAR] + r.hex;
    FindUnique(raw, NL, cursor, end);
  }

  lemma ReadRowComplete(raw: Bytes, cursor: nat, r: Row)
    requires ValidRow(r) && At(raw, cursor, Line(r))
    ensures ReadRow(raw, cursor) == Some(r)
  {
    FindsInLine(raw, cursor, r);
    LineAt(raw, cursor, r);
    RowFromHex(r);
  }

  lemma LineDetermined(raw: Bytes, cursor: nat, r: Row, r': Row)
    requires ValidRow(r) && At(raw, cursor, Line(r))
    requires ValidRow(r') && At(raw, cursor, Line(r'))
    ensures r == r'
  {
    ReadRowComplete(raw, cursor, r);
    ReadRowComplete(raw, cursor, r');
  }

  // ---------------------------------------------------------------- whole texts

  lemma PrintAppend(rows: seq<Row>, r: Row)
    ensures Print(rows + [r]) == Print(rows) + Line(r)
  {
    assert (rows + [r])[..|rows|] == rows;
  }

  lemma {:induction false} PrintTake(rows: seq<Row>, k: nat)
    requires k <= |rows|
    ensures Print(rows[..k]) <= Print(rows)
    decreases |rows|
  {
    if k == |rows| {
      assert rows[..k] == rows;
    } else {
      var init := rows[..|rows| - 1];
      PrintTake(init, k);
      assert init[..k] == rows[..k];
    }
  }

  lemma PrintCut(rows: seq<Row>, k: nat)
    requires k < |rows|
    ensures Print(rows[..k]) <= Print(rows)
    ensures At(Print(rows), |Print(rows[..k])|, Line(rows[k]))
  {
    var before := Print(rows[..k]);
    PrintTake(rows, k);
    PrintTake(rows, k + 1);
    PrintAppend(rows[..k], rows[k]);
    assert rows[..k] + [rows[k]] == rows[..k + 1];
    AtConcat(Print(rows), 0, before, Line(rows[k]));
  }

  lemma AtPrefix(a: Bytes, b: Bytes, cursor: nat, piece: Bytes)
    requires a <= b && At(a, cursor, piece)
    ensures At(b, cursor, piece)
  {
    assert b[cursor..cursor + |piece|] == a[cursor..cursor + |piece|];
  }

  /** Valid records print to prefixes only when they are prefixes. */
  lemma {:induction false} PrintPrefix(rows: seq<Row>, all: seq<Row>)
    requires AllValid(rows) && AllValid(all)
    requires Print(rows) <= Print(all)
    ensures rows <= all
  {
    if rows != [] {
      var k := |rows| - 1;
      var init, at := rows[..k], |Print(rows[..k])|;
      PrintCut(rows, k);
      PrintPrefix(init, all);
      AtPrefix(Print(rows), Print(all), at, Line(rows[k]));
      NextRow(init, rows[k], all);
      assert rows == init + [rows[k]];
    }
  }

  lemma NextRow(init: seq<Row>, r: Row, all: seq<Row>)
    requires ValidRow(r) && AllValid(all) && init <= all
    requires At(Print(all), |Print(init)|, Line(r))
    ensures init + [r] <= all
  {
    var k := |init|;
    assert all[..k] == init;
    assert k < |all| by { assert all[..|all|] == all; }
    PrintCut(all, k);
    LineDetermined(Print(all), |Print(init)|, r, all[k]);
    assert all[..k + 1] == init + [r];
  }

  lemma PrintInjective(a: seq<Row>, b: seq<Row>)
    requires AllValid(a) && AllValid(b) && Print(a) == Print(b)
    ensures a == b
  {
    PrintPrefix(a, b);
    PrintPrefix(b, a);
  }

  lemma {:induction false} ToMapKeys(rows: seq<Row>)
    ensures forall k :: k in ToMap(rows) <==> exists i :: 0 <= i < |rows| && rows[i].key == k
  {
    if rows != [] {
      var init := rows[..|rows| - 1];
      ToMapKeys(init);
      forall k
        ensures k in ToMap(rows) <==> exists i :: 0 <= i < |rows| && rows[i].key == k
      {
        if i :| 0 <= i < |init| && init[i].key == k { assert rows[i].key == k; }
        if i :| 0 <= i < |rows| && rows[i].key == k && i < |init| { assert init[i].key == k; }
      }
    }
  }

  lemma {:induction false} ToMapAt(rows: seq<Row>, i: nat)
    requires DistinctKeys(rows) && i < |rows|
    ensures rows[i].key in ToMap(rows) && ToMap(rows)[rows[i].key] == rows[i].hex
  {
    if i < |rows| - 1 { ToMapAt(rows[..|rows| - 1], i); }
  }

  lemma {:induction false} ToMapSize(rows: seq<Row>)
    requires DistinctKeys(rows)
    ensures |ToMap(rows)| == |rows|
  {
    if rows != [] {
      var init := rows[..|rows| - 1];
      ToMapSize(init);
      ToMapKeys(init);
      var last := rows[|rows| - 1];
      assert last.key !in ToMap(init);
      assert ToMap(rows).Keys == ToMap(init).Keys + {last.key};
    }
  }

  // ---------------------------------------------------------------- the parser

  /** After some of its records, an accepted text continues with the line of the next one. */
  lemma Continues(raw: Bytes, rows: seq<Row>, all: seq<Row>)
    requires AllValid(rows) && Print(rows) <= raw && |Print(rows)| < |raw|
    requires Accepts(raw, all)
    ensures |rows| < |all| && rows == all[..|rows|]
    ensures At(raw, |Print(rows)|, Line(all[|rows|]))
  {
    PrintPrefix(rows, all);
    assert |rows| == |all| ==> rows == all;
    PrintCut(all, |rows|);
  }

  /** A text is refused where its next line is malformed, one too many or a duplicate. */
  lemma Refused(raw: Bytes, rows: seq<Row>)
    requires AllValid(rows) && DistinctKeys(rows)
    requires Print(rows) <= raw && |Print(rows)| < |raw|
    requires var next := ReadRow(raw, |Print(rows)|);
             next.None? || |rows| >= MAX_ROWS || next.value.key in ToMap(rows)
    ensures forall all :: !Accepts(raw, all)
  {
    forall all
      ensures !Accepts(raw, all)
    {
      if Accepts(raw, all) {
        Continues(raw, rows, all);
        var r := all[|rows|];
        ReadRowComplete(raw, |Print(rows)|, r);
        ToMapKeys(rows);
      }
    }
  }

  lemma BadShape(raw: Bytes)
    requires |raw| > MAX_SNAPSHOT || (raw != [] && raw[|raw| - 1] != NL)
    ensures forall all :: !Accepts(raw, all)
  {
    forall all
      ensures !Accepts(raw, all)
    {
      assert all != [] ==> Print(all)[|Print(all)| - 1] == NL;
    }
  }

  /** A fresh, well-formed next line extends the records read so far. */
  lemma Extended(raw: Bytes, rows: seq<Row>, r: Row)
    requires AllValid(rows) && DistinctKeys(rows)
    requires Print(rows) <= raw && |Print(rows)| < |raw|
    requires ReadRow(raw, |Print(rows)|) == Some(r) && r.key !in ToMap(rows)
    ensures AllValid(rows + [r]) && DistinctKeys(rows + [r])
    ensures Print(rows + [r]) <= raw && |Print(rows + [r])| == |Print(rows)| + |Line(r)|
    ensures ToMap(rows + [r]) == ToMap(rows)[r.key := r.hex]
  {
    ReadRowSound(raw, |Print(rows)|);
    PrintExtended(raw, rows, r);
    MapExtended(rows, r);
  }

  lemma PrintExtended(raw: Bytes, rows: seq<Row>, r: Row)
    requires Print(rows) <= raw && At(raw, |Print(rows)|, Line(r))
    ensures Print(rows + [r]) <= raw && |Print(rows + [r])| == |Print(rows)| + |Line(r)|
  {
    PrintAppend(rows, r);
    AtConcat(raw, 0, Print(rows), Line(r));
  }

  lemma MapExtended(rows: seq<Row>, r: Row)
    requires DistinctKeys(rows) && r.key !in ToMap(rows)
    ensures DistinctKeys(rows + [r]) && ToMap(rows + [r]) == ToMap(rows)[r.key := r.hex]
  {
    ToMapKeys(rows);
    assert (rows + [r])[..|rows|] == rows;
  }

  /** `read(raw)`: it accepts exactly the printed forms of at most a million valid records with
      distinct keys, within the size bound, and returns those records. */
  method Read(raw: Bytes) returns (result: Option<Rows>, ghost rows: seq<Row>)
    ensures result.Some? ==> Accepts(raw, rows) && result.value == ToMap(rows)
    ensures result.None? ==> forall all :: !Accepts(raw, all)
  {
    rows := [];
    if |raw| > MAX_SNAPSHOT || (raw != [] && raw[|raw| - 1] != NL) {
      BadShape(raw);
      return None, rows;
    }
    var records: Rows := map[];
    var cursor := 0;
    while cursor < |raw|
      invariant 0 <= cursor <= |raw|
      invariant AllValid(rows) && DistinctKeys(rows) && |rows| <= MAX_ROWS
      invariant cursor == |Print(rows)| && Print(rows) <= raw
      invariant records == ToMap(rows)
    {
      ToMapSize(rows);
      var row := ReadRow(raw, cursor);
      if row.None? || |records| >= MAX_ROWS || row.value.key in records {
        Refused(raw, rows);
        return None, rows;
      }
      Extended(raw, rows, row.value);
      records := records[row.value.key := row.value.hex];
      cursor := cursor + |Line(row.value)|;
      rows := rows + [row.value];
    }
    result := Some(records);
  }

  /** The records of an accepted text are determined by the text. */
  lemma AcceptsUnique(raw: Bytes, a: seq<Row>, b: seq<Row>)
    requires Accepts(raw, a) && Accepts(raw, b)
    ensures a == b
  {
    PrintInjective(a, b);
  }

  // ---------------------------------------------------------------- the printer

  ghost predicate Increasing(rows: seq<Row>) {
    forall i, j :: 0 <= i < j < |rows| ==> Less(rows[i].key, rows[j].key)
  }

  lemma IncreasingDistinct(rows: seq<Row>)
    requires Increasing(rows)
    ensures DistinctKeys(rows)
  {
    forall i, j | 0 <= i < j < |rows|
      ensures rows[i].key != rows[j].key
    {
      LessIrreflexive(rows[i].key);
    }
  }

  lemma {:induction false} LeastKey(keys: set<Bytes>) returns (low: Bytes)
    requires keys != {}
    ensures low in keys && forall k :: k in keys ==> k == low || Less(low, k)
  {
    low :| low in keys;
    if keys != {low} {
      var best := LeastKey(keys - {low});
      LessTotal(best, low);
      if Less(best, low) {
        low := best;
      } else {
        forall k | k in keys && k != low && k != best
          ensures Less(low, k)
        {
          LessTransitive(low, best, k);
        }
      }
    }
  }

  /** `sorted(records)`: the records in strictly increasing key order. */
  ghost function SortedRows(m: Rows): (rows: seq<Row>)
    ensures Increasing(rows) && ToMap(rows) == m
  {
    SortedRowsExist(m);
    var rows :| Increasing(rows) && ToMap(rows) == m;
    rows
  }

  /** `rows` lists, in increasing order, the records whose keys are no longer to do. */
  ghost predicate SortedPrefix(m: Rows, todo: set<Bytes>, rows: seq<Row>) {
    && todo <= m.Keys
    && Increasing(rows) && ToMap(rows) == m - todo
    && forall i, k :: 0 <= i < |rows| && k in todo ==> Less(rows[i].key, k)
  }

  lemma OrderStep(todo: set<Bytes>, rows: seq<Row>, r: Row)
    requires forall i, k :: 0 <= i < |rows| && k in todo ==> Less(rows[i].key, k)
    requires forall k :: k in todo ==> k == r.key || Less(r.key, k)
    ensures forall i, k :: 0 <= i < |rows + [r]| && k in todo - {r.key} ==> Less((rows + [r])[i].key, k)
  {
  }

  lemma MapStep(m: Rows, todo: set<Bytes>, low: Bytes)
    requires low in todo && todo <= m.Keys
    ensures (m - todo)[low := m[low]] == m - (todo - {low})
  {
  }

  lemma SortedPrefixStep(m: Rows, todo: set<Bytes>, rows: seq<Row>, low: Bytes)
    requires SortedPrefix(m, todo, rows)
    requires low in todo && forall k :: k in todo ==> k == low || Less(low, k)
    ensures SortedPrefix(m, todo - {low}, rows + [Row(low, m[low])])
  {
    var r := Row(low, m[low]);
    forall k | k in ToMap(rows) ensures Less(k, low) {
      ToMapKeys(rows);
    }
    AppendGreatest(rows, r);
    MapStep(m, todo, low);
    OrderStep(todo, rows, r);
  }

  lemma SortedRowsExist(m: Rows)
    ensures exists rows :: Increasing(rows) && ToMap(rows) == m
  {
    var todo, rows := m.Keys, [];
    while todo != {}
      invariant SortedPrefix(m, todo, rows)
      decreases todo
    {
      var low := LeastKey(todo);
      SortedPrefixStep(m, todo, rows, low);
      todo, rows := todo - {low}, rows + [Row(low, m[low])];
    }
    assert m - {} == m;
  }

  lemma AppendGreatest(init: seq<Row>, r: Row)
    requires Increasing(init)
    requires forall k :: k in ToMap(init) ==> Less(k, r.key)
    ensures Increasing(init + [r])
    ensures ToMap(init + [r]) == ToMap(init)[r.key := r.hex]
  {
    ToMapKeys(init);
    assert (init + [r])[..|init|] == init;
  }

  lemma SameLast(a: seq<Row>, b: seq<Row>)
    requires Increasing(a) && Increasing(b) && ToMap(a) == ToMap(b) && a != [] && b != []
    ensures a[|a| - 1] == b[|b| - 1]
    ensures ToMap(a[..|a| - 1]) == ToMap(b[..|b| - 1])
  {
    IncreasingDistinct(a);
    IncreasingDistinct(b);
    LastIsGreatest(a, b);
    LastIsGreatest(b, a);
    LessNotBoth(a[|a| - 1].key, b[|b| - 1].key);
    ToMapAt(a, |a| - 1);
    ToMapAt(b, |b| - 1);
    DropLast(a);
    DropLast(b);
  }

  /** A strictly increasing listing of a dictionary is its only one. */
  lemma {:induction false} IncreasingUnique(a: seq<Row>, b: seq<Row>)
    requires Increasing(a) && Increasing(b) && ToMap(a) == ToMap(b)
    ensures a == b
  {
    IncreasingDistinct(a);
    IncreasingDistinct(b);
    ToMapSize(a);
    ToMapSize(b);
    if a != [] {
      SameLast(a, b);
      IncreasingUnique(a[..|a| - 1], b[..|b| - 1]);
      assert a == a[..|a| - 1] + [a[|a| - 1]] && b == b[..|b| - 1] + [b[|b| - 1]];
    }
  }

  lemma LessNotBoth(x: Bytes, y: Bytes)
    ensures !(Less(x, y) && Less(y, x))
  {
    if Less(x, y) && Less(y, x) {
      LessTransitive(x, y, x);
      LessIrreflexive(x);
    }
  }

  lemma LastIsGreatest(a: seq<Row>, b: seq<Row>)
    requires Increasing(b) && ToMap(a) == ToMap(b) && a != [] && b != []
    ensures a[|a| - 1].key == b[|b| - 1].key || Less(a[|a| - 1].key, b[|b| - 1].key)
  {
    ToMapKeys(a);
    ToMapKeys(b);
    assert a[|a| - 1].key in ToMap(a);
    var i :| 0 <= i < |b| && b[i].key == a[|a| - 1].key;
  }

  lemma RemoveAdded(m: Rows, k: Bytes, v: Bytes)
    requires k !in m
    ensures m[k := v] - {k} == m
  {
  }

  lemma DropLast(a: seq<Row>)
    requires DistinctKeys(a) && a != []
    ensures ToMap(a[..|a| - 1]) == ToMap(a) - {a[|a| - 1].key}
  {
    var init, last := a[..|a| - 1], a[|a| - 1];
    assert last.key !in ToMap(init) by { ToMapKeys(init); }
    RemoveAdded(ToMap(init), last.key, last.hex);
  }

  /** `pack(records)`; a text over the size bound is refused. */
  ghost function Pack(m: Rows): Option<Bytes> {
    var raw := Print(SortedRows(m));
    if |raw| > MAX_SNAPSHOT then None else Some(raw)
  }

  /** The printer: it visits the keys in increasing order. */
  method PackRows(m: Rows) returns (packed: Option<Bytes>)
    ensures packed == Pack(m)
  {
    var todo, raw := m.Keys, [];
    ghost var rows := [];
    while todo != {}
      invariant SortedPrefix(m, todo, rows) && raw == Print(rows)
      decreases todo
    {
      ghost var least := LeastKey(todo);
      var low :| low in todo && forall k :: k in todo ==> k == low || Less(low, k);
      SortedPrefixStep(m, todo, rows, low);
      PrintAppend(rows, Row(low, m[low]));
      raw := raw + Line(Row(low, m[low]));
      todo, rows := todo - {low}, rows + [Row(low, m[low])];
    }
    assert m - {} == m;
    IncreasingUnique(rows, SortedRows(m));
    packed := if |raw| > MAX_SNAPSHOT then None else Some(raw);
  }

  ghost predicate ValidRows(m: Rows) {
    forall k :: k in m ==> ValidRow(Row(k, m[k]))
  }

  lemma SortedRowsValid(m: Rows)
    requires ValidRows(m)
    ensures AllValid(SortedRows(m)) && DistinctKeys(SortedRows(m)) && |SortedRows(m)| == |m|
  {
    var rows := SortedRows(m);
    IncreasingDistinct(rows);
    ToMapSize(rows);
    forall i | 0 <= i < |rows|
      ensures ValidRow(rows[i])
    {
      ToMapAt(rows, i);
      assert rows[i] == Row(rows[i].key, m[rows[i].key]);
    }
  }

  /** Parsing what was packed returns the records. */
  lemma ReadPack(m: Rows)
    requires ValidRows(m) && |m| <= MAX_ROWS && Pack(m).Some?
    ensures Accepts(Pack(m).value, SortedRows(m)) && ToMap(SortedRows(m)) == m
  {
    SortedRowsValid(m);
  }

  /** Packing what was parsed returns the text exactly when its keys strictly increase. */
  lemma PackRead(raw: Bytes, rows: seq<Row>)
    requires Accepts(raw, rows)
    ensures Pack(ToMap(rows)) == Some(raw) <==> Increasing(rows)
  {
    var sorted := SortedRows(ToMap(rows));
    if Increasing(rows) {
      IncreasingUnique(rows, sorted);
    }
    if Pack(ToMap(rows)) == Some(raw) {
      AcceptedMapValid(raw, rows);
      SortedRowsValid(ToMap(rows));
      PrintInjective(sorted, rows);
    }
  }

  lemma AcceptedMapValid(raw: Bytes, rows: seq<Row>)
    requires Accepts(raw, rows)
    ensures ValidRows(ToMap(rows)) && |ToMap(rows)| <= MAX_ROWS
  {
    ToMapSize(rows);
    ToMapKeys(rows);
    forall k | k in ToMap(rows)
      ensures ValidRow(Row(k, ToMap(rows)[k]))
    {
      var i :| 0 <= i < |rows| && rows[i].key == k;
      ToMapAt(rows, i);
      assert rows[i] == Row(k, ToMap(rows)[k]);
    }
  }

  lemma PackInjective(m: Rows, m': Rows)
    requires ValidRows(m) && ValidRows(m') && Pack(m).Some? && Pack(m) == Pack(m')
    ensures m == m'
  {
    SortedRowsValid(m);
    SortedRowsValid(m');
    PrintInjective(SortedRows(m), SortedRows(m'));
  }
}
