/** The smallest store the admission generator works on: one client, its index entry, and the
    counter. Every client and every window has one. */
module AdmissionStart {
  import opened Bytes
  import opened Snapshot
  import opened SnapshotDiff
  import opened RateWindow
  import opened Admission
  import opened AdmissionSnapshots

  function OneClient(ids: Ids, w: Window): Rows {
    map[RateKey(ids) := RateHex(w), RATE_COUNT := Hex(Dec(1)), ExpiryKey(ids, w.start) := IdHex(ids)]
  }

  lemma OneClientKeys(ids: Ids, w: Window)
    ensures RateKeys(OneClient(ids, w)) == {RateKey(ids)}
    ensures OwnEntries(ids, OneClient(ids, w)) == {ExpiryKey(ids, w.start)}
    ensures |OneClient(ids, w)| == 3
  {
    var m := OneClient(ids, w);
    KeyKinds(ids, w.start);
    KindsDisjoint(RATE_COUNT);
    assert m.Keys == {RateKey(ids), RATE_COUNT, ExpiryKey(ids, w.start)};
    forall k ensures k in RateKeys(m) <==> k == RateKey(ids) {
    }
    forall k ensures k in OwnEntries(ids, m) <==> k == ExpiryKey(ids, w.start) {
    }
  }

  lemma OneClientStored(ids: Ids, w: Window)
    requires 1 <= w.count <= U32_MAX && w.start <= U64_MAX
    ensures Stored(ids, OneClient(ids, w), w)
  {
    OneClientKeys(ids, w);
    KeyKinds(ids, w.start);
    assert |{RateKey(ids)}| == 1;
  }

  /** A row that is valid and not too long. */
  ghost predicate ShortRow(key: Bytes, hex: Bytes) {
    ValidRow(Row(key, hex)) && |key| <= 200 && |hex| <= 200
  }

  lemma RateRowShort(ids: Ids, w: Window)
    requires ValidIds(ids) && 1 <= w.count <= U32_MAX && w.start <= U64_MAX
    ensures ShortRow(RateKey(ids), RateHex(w))
  {
    RateHexValid(w);
    RateHexShort(w);
    CleanPrefixed(RATES, ids.rate);
    assert RATES[10] == 47 && RateKey(ids)[10] == 47;
    CleanKeyValid(RateKey(ids));
  }

  lemma CleanPrefixed(a: Bytes, b: Bytes)
    requires Clean(a) && Clean(b)
    ensures Clean(a + b)
  {
  }

  lemma RateHexShort(w: Window)
    requires w.count <= U32_MAX && w.start <= U64_MAX
    ensures |RateHex(w)| <= 100
  {
    DecShort(w.start);
    DecShort(w.count);
  }

  lemma CountKeyValid()
    ensures ValidKey(RATE_COUNT) && |RATE_COUNT| <= 200
  {
    var key := RATE_COUNT;
    assert |key| == 23 && key[0] == 105 && key[12] == SLASH;
    assert Clean(key);
    CleanKeyValid(key);
  }

  lemma OneHexValid()
    ensures ValidHex(Hex(Dec(1))) && |Hex(Dec(1))| <= 200
  {
    DecShort(1);
    var digits := Dec(1);
    assert |Hex(digits)| == 2 * |digits| && AllHex(Hex(digits));
  }

  lemma CountRowShort()
    ensures ShortRow(RATE_COUNT, Hex(Dec(1)))
  {
    CountKeyValid();
    OneHexValid();
  }

  lemma EntryRowShort(ids: Ids, start: nat)
    requires ValidIds(ids)
    ensures ShortRow(ExpiryKey(ids, start), IdHex(ids))
  {
    ExpiryKeyValid(ids, start);
    ExpiryKeyShape(ids, start);
    IdHexValid(ids);
    CleanLiteral();
  }

  ghost predicate AllShort(rows: seq<Row>) {
    forall i :: 0 <= i < |rows| ==> ShortRow(rows[i].key, rows[i].hex)
  }

  lemma {:induction false} ShortPrint(rows: seq<Row>)
    requires AllShort(rows)
    ensures |Print(rows)| <= 602 * |rows|
  {
    if rows != [] {
      var init, last := rows[..|rows| - 1], rows[|rows| - 1];
      ShortPrint(init);
      PrintAppend(init, last);
      assert rows == init + [last];
    }
  }

  lemma OneClientShort(ids: Ids, w: Window, key: Bytes)
    requires ValidIds(ids) && 1 <= w.count <= U32_MAX && w.start <= U64_MAX && key in OneClient(ids, w)
    ensures ShortRow(key, OneClient(ids, w)[key])
  {
    RateRowShort(ids, w);
    CountRowShort();
    EntryRowShort(ids, w.start);
    KeyKinds(ids, w.start);
  }

  /** The store of one client is a snapshot that meets all prerequisites, for every sound bracket that
      does not lie before its window. */
  lemma OneClientMeets(ids: Ids, w: Window, b: Bracket)
    requires ValidIds(ids) && 1 <= w.count <= U32_MAX && Sound(b) && w.start <= Lower(b) && Lower(b) <= U64_MAX
    ensures Pack(OneClient(ids, w)).Some?
    ensures Prerequisites(ids, Pack(OneClient(ids, w)).value, b, SortedRows(OneClient(ids, w)), w)
  {
    var m := OneClient(ids, w);
    OneClientStored(ids, w);
    OneClientKeys(ids, w);
    forall k | k in m ensures ShortRow(k, m[k]) {
      OneClientShort(ids, w, k);
    }
    SortedShort(m);
    ReadPack(m);
  }

  lemma SortedShort(m: Rows)
    requires |m| == 3 && forall k :: k in m ==> ShortRow(k, m[k])
    ensures ValidRows(m) && Pack(m).Some?
  {
    assert ValidRows(m);
    SortedRowsValid(m);
    var rows := SortedRows(m);
    forall i | 0 <= i < |rows| ensures ShortRow(rows[i].key, rows[i].hex) {
      ToMapAt(rows, i);
    }
    ShortPrint(rows);
  }
}
