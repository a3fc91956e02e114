/** The snapshots a single admitted request may leave behind (`refusal_admission_snapshots`):
    the rate record of one client is charged, its expiry-index entry moves with the window, and
    nothing else changes. SHA-256 is a parameter. */
module Admission {
  import opened Bytes
  import opened Options
  import opened Base64
  import opened Snapshot
  import opened SnapshotDiff
  import opened RateWindow

  const SECOND_NS: int := 1_000_000_000
  const QUOTE: byte := 34

  // ---------------------------------------------------------------- identifiers and keys

  /** The identifier of the rate record, and that of its index entry. */
  datatype Ids = Ids(rate: Bytes, index: Bytes)

  predicate ValidId(id: Bytes) {
    |id| <= 64 && Clean(id)
  }

  predicate ValidIds(ids: Ids) {
    ValidId(ids.rate) && ValidId(ids.index)
  }

  /** `base64.urlsafe_b64encode(digest).rstrip(b"=")`. */
  function IdOf(digest: Bytes): Bytes {
    B64UrlShape(digest);
    Ascii(B64Url(digest))
  }

  lemma IdOfValid(digest: Bytes)
    requires |digest| == 32
    ensures ValidId(IdOf(digest)) && |IdOf(digest)| == 43
  {
    B64UrlShape(digest);
    forall c | c in B64Url(digest)
      ensures 0 < c as int
    {
      assert Value(Url, c).Some?;
    }
  }

  function ClientIds(sha256: Bytes -> Bytes): Ids {
    var rate := IdOf(sha256(Ascii("127.0.0.1") + [0] + Ascii("general")));
    Ids(rate, IdOf(sha256(rate)))
  }

  function RateKey(ids: Ids): Bytes {
    RATES + ids.rate
  }

  function ExpiryKey(ids: Ids, start: nat): Bytes {
    RATE_EXPIRY + Padded(Expiry(start), 20) + [SLASH] + ids.index
  }

  function IdHex(ids: Ids): Bytes {
    Hex([QUOTE] + ids.rate + [QUOTE])
  }

  // ---------------------------------------------------------------- the rate record

  const COMMA: byte := 44
  const OPEN: byte := 91
  const CLOSE: byte := 93

  /** `[start,count]` in canonical decimal. */
  function RateText(w: Window): Bytes {
    [OPEN] + Dec(w.start) + [COMMA] + Dec(w.count) + [CLOSE]
  }

  function RateHex(w: Window): Bytes {
    Hex(RateText(w))
  }

  function ReadPair(inner: Bytes): Option<Window> {
    var c := Find(inner, COMMA, 0);
    if c == |inner| then None
    else
      var s, n := inner[..c], inner[c + 1..];
      if CanonicalDec(s) && |s| <= 20 && CanonicalDec(n) && |n| <= 10
      then Some(Window(DecValue(s), DecValue(n))) else None
  }

  /** The match of `\[(0|[1-9][0-9]{0,19}),(0|[1-9][0-9]{0,9})\]` with the whole text. */
  function ReadRate(text: Bytes): Option<Window> {
    if |text| < 2 || text[0] != OPEN || text[|text| - 1] != CLOSE then None
    else ReadPair(text[1..|text| - 1])
  }

  lemma ReadPairExact(inner: Bytes, w: Window)
    ensures ReadPair(inner) == Some(w) <==>
            inner == Dec(w.start) + [COMMA] + Dec(w.count)
            && |Dec(w.start)| <= 20 && |Dec(w.count)| <= 10
  {
    if inner == Dec(w.start) + [COMMA] + Dec(w.count) {
      PrintedPairRead(Dec(w.start), Dec(w.count), w);
    }
    if ReadPair(inner) == Some(w) {
      PairReadPrinted(inner, w);
    }
  }

  lemma PrintedPairRead(s: Bytes, n: Bytes, w: Window)
    requires s == Dec(w.start) && n == Dec(w.count)
    ensures ReadPair(s + [COMMA] + n) == if |s| <= 20 && |n| <= 10 then Some(w) else None
  {
    var inner := s + [COMMA] + n;
    DecRoundTrip(w.start);
    DecRoundTrip(w.count);
    assert inner[0..|s|] == s && inner[..|s|] == s && inner[|s| + 1..] == n;
    FindUnique(inner, COMMA, 0, |s|);
  }

  lemma PairReadPrinted(inner: Bytes, w: Window)
    requires ReadPair(inner) == Some(w)
    ensures inner == Dec(w.start) + [COMMA] + Dec(w.count) && |Dec(w.start)| <= 20 && |Dec(w.count)| <= 10
  {
    var c := Find(inner, COMMA, 0);
    DecCanonical(inner[..c]);
    DecCanonical(inner[c + 1..]);
    assert inner == inner[..c] + [COMMA] + inner[c + 1..];
  }

  /** The pattern accepts exactly the printed records that fit 20 and 10 digits. */
  lemma ReadRateExact(text: Bytes, w: Window)
    ensures ReadRate(text) == Some(w) <==>
            text == RateText(w) && |Dec(w.start)| <= 20 && |Dec(w.count)| <= 10
  {
    var pair := Dec(w.start) + [COMMA] + Dec(w.count);
    assert RateText(w) == [OPEN] + pair + [CLOSE];
    if |text| >= 2 {
      var inner := text[1..|text| - 1];
      ReadPairExact(inner, w);
      assert text == [text[0]] + inner + [text[|text| - 1]];
      assert RateText(w)[1..|RateText(w)| - 1] == pair;
    }
  }

  lemma RateHexInjective(w: Window, w': Window)
    requires RateHex(w) == RateHex(w')
    ensures w == w'
  {
    var t, t' := RateText(w), RateText(w');
    assert t == t' by {
      UnhexHex(t);
      UnhexHex(t');
    }
    assert t[1..|t| - 1] == Dec(w.start) + [COMMA] + Dec(w.count);
    assert t'[1..|t'| - 1] == Dec(w'.start) + [COMMA] + Dec(w'.count);
    PairInjective(w, w');
  }

  lemma PairInjective(w: Window, w': Window)
    requires Dec(w.start) + [COMMA] + Dec(w.count) == Dec(w'.start) + [COMMA] + Dec(w'.count)
    ensures w == w'
  {
    var a, b := Dec(w.start), Dec(w.count);
    var a', b' := Dec(w'.start), Dec(w'.count);
    var t := a + [COMMA] + b;
    assert t[0..|a|] == a && t[0..|a'|] == a';
    FindUnique(t, COMMA, 0, |a|);
    FindUnique(t, COMMA, 0, |a'|);
    assert t[..|a|] == a && t[..|a'|] == a' && t[|a| + 1..] == b && t[|a'| + 1..] == b';
    DecInjective(w.start, w'.start);
    DecInjective(w.count, w'.count);
  }

  // ---------------------------------------------------------------- structural prerequisites

  function RateKeys(m: Rows): set<Bytes> {
    set k | k in m && StartsWith(k, RATES)
  }

  /** The expiry-index entries that name this client. */
  function OwnEntries(ids: Ids, m: Rows): set<Bytes> {
    set k | k in m && StartsWith(k, RATE_EXPIRY) && m[k] == IdHex(ids)
  }

  /** What the store must look like for a client whose window is `w`: the record holds `w`, the
      counter record holds the number of rate records, and the index has exactly one entry for
      the client, at the end of its window. */
  predicate Stored(ids: Ids, m: Rows, w: Window) {
    && RateKey(ids) in m && m[RateKey(ids)] == RateHex(w)
    && 1 <= w.count <= U32_MAX && w.start <= U64_MAX
    && 1 <= |RateKeys(m)| <= 100_000
    && RATE_COUNT in m && m[RATE_COUNT] == Hex(Dec(|RateKeys(m)|))
    && ExpiryKey(ids, w.start) in m && OwnEntries(ids, m) == {ExpiryKey(ids, w.start)}
  }

  /** The records after the window `w` of the client was replaced by `w'`. */
  function Replace(ids: Ids, m: Rows, w: Window, w': Window): Rows {
    (m[RateKey(ids) := RateHex(w')] - {ExpiryKey(ids, w.start)})[ExpiryKey(ids, w'.start) := IdHex(ids)]
  }

  /** The new index key is taken by a record of someone else. */
  predicate Collides(ids: Ids, m: Rows, w: Window, w': Window) {
    ExpiryKey(ids, w'.start) != ExpiryKey(ids, w.start) && ExpiryKey(ids, w'.start) in m
  }

  // ---------------------------------------------------------------- kinds of keys

  lemma KindsDisjoint(k: Bytes)
    ensures !(StartsWith(k, RATES) && StartsWith(k, RATE_EXPIRY))
    ensures k == RATE_COUNT ==> !StartsWith(k, RATES) && !StartsWith(k, RATE_EXPIRY)
  {
    if StartsWith(k, RATES) { assert k[0] == RATES[0] == 104; }
    if StartsWith(k, RATE_EXPIRY) { assert k[6] == RATE_EXPIRY[6] == 101; }
    assert RATE_COUNT[0] == 105 && RATE_COUNT[6] == 99;
  }

  lemma KeyKinds(ids: Ids, start: nat)
    ensures StartsWith(RateKey(ids), RATES) && !StartsWith(RateKey(ids), RATE_EXPIRY)
    ensures StartsWith(ExpiryKey(ids, start), RATE_EXPIRY)
    ensures !StartsWith(ExpiryKey(ids, start), RATES)
    ensures RateKey(ids) != RATE_COUNT && ExpiryKey(ids, start) != RATE_COUNT
    ensures RateKey(ids) != ExpiryKey(ids, start)
  {
    assert RateKey(ids)[..|RATES|] == RATES;
    assert ExpiryKey(ids, start)[..|RATE_EXPIRY|] == RATE_EXPIRY;
    KindsDisjoint(RateKey(ids));
    KindsDisjoint(ExpiryKey(ids, start));
    KindsDisjoint(RATE_COUNT);
  }

  lemma {:induction false} Pow10Twenty()
    ensures Pow10(20) > U64_MAX
  {
    assert Pow10(2) == 100;
    assert Pow10(4) == 10_000;
    assert Pow10(6) == 1_000_000;
    assert Pow10(8) == 100_000_000;
    assert Pow10(10) == 10_000_000_000;
    assert Pow10(12) == 1_000_000_000_000;
    assert Pow10(14) == 100_000_000_000_000;
    assert Pow10(16) == 10_000_000_000_000_000;
    assert Pow10(18) == 1_000_000_000_000_000_000;
    assert Pow10(20) == 100_000_000_000_000_000_000;
  }

  /** Index keys sort by window end, and windows share a key exactly when they share an end. */
  lemma ExpiryKeyOrder(ids: Ids, s: nat, t: nat)
    ensures Less(ExpiryKey(ids, s), ExpiryKey(ids, t)) <==> Expiry(s) < Expiry(t)
    ensures ExpiryKey(ids, s) == ExpiryKey(ids, t) <==> Expiry(s) == Expiry(t)
  {
    Pow10Twenty();
    var a, b, tail := Padded(Expiry(s), 20), Padded(Expiry(t), 20), [SLASH] + ids.index;
    PaddedOrder(Expiry(s), Expiry(t), 20);
    PaddedRoundTrip(Expiry(s), 20);
    PaddedRoundTrip(Expiry(t), 20);
    assert ExpiryKey(ids, s) == RATE_EXPIRY + a + tail;
    assert ExpiryKey(ids, t) == RATE_EXPIRY + b + tail;
    LessMiddle(RATE_EXPIRY, a, b, tail);
  }

  // ---------------------------------------------------------------- one step keeps the index

  lemma ReplaceLookup(ids: Ids, m: Rows, w: Window, w': Window, k: Bytes)
    ensures var m' := Replace(ids, m, w, w');
            && (k in m' <==>
                || k == ExpiryKey(ids, w'.start)
                || (k != ExpiryKey(ids, w.start) && (k in m || k == RateKey(ids))))
            && (k in m' ==>
                m'[k] == if k == ExpiryKey(ids, w'.start) then IdHex(ids)
                         else if k == RateKey(ids) then RateHex(w')
                         else if k in m then m[k] else [])
  {
  }

  lemma ReplaceRateKeys(ids: Ids, m: Rows, w: Window, w': Window)
    requires RateKey(ids) in m
    ensures RateKeys(Replace(ids, m, w, w')) == RateKeys(m)
  {
    KeyKinds(ids, w.start);
    KeyKinds(ids, w'.start);
    forall k
      ensures k in RateKeys(Replace(ids, m, w, w')) <==> k in RateKeys(m)
    {
      ReplaceLookup(ids, m, w, w', k);
    }
  }

  lemma ReplaceOwnEntries(ids: Ids, m: Rows, w: Window, w': Window)
    requires OwnEntries(ids, m) == {ExpiryKey(ids, w.start)}
    ensures OwnEntries(ids, Replace(ids, m, w, w')) == {ExpiryKey(ids, w'.start)}
  {
    KeyKinds(ids, w'.start);
    var m' := Replace(ids, m, w, w');
    forall k
      ensures k in OwnEntries(ids, m') <==> k == ExpiryKey(ids, w'.start)
    {
      ReplaceLookup(ids, m, w, w', k);
      assert k in OwnEntries(ids, m) <==> k == ExpiryKey(ids, w.start);
    }
  }

  /** Charging a request keeps every structural prerequisite, now for the charged window: the
      counter still counts the rate records, and the index has one entry at the new end. */
  lemma StepStored(ids: Ids, m: Rows, w: Window, at: nat)
    requires Stored(ids, m, w) && w.start <= at <= U64_MAX
    ensures Stored(ids, Replace(ids, m, w, Charge(w, at)), Charge(w, at))
  {
    var w' := Charge(w, at);
    KeyKinds(ids, w.start);
    KeyKinds(ids, w'.start);
    ReplaceRateKeys(ids, m, w, w');
    ReplaceOwnEntries(ids, m, w, w');
    ReplaceLookup(ids, m, w, w', RateKey(ids));
    ReplaceLookup(ids, m, w, w', RATE_COUNT);
    ReplaceLookup(ids, m, w, w', ExpiryKey(ids, w'.start));
  }

  /** The records after every request of a run was charged in turn. */
  function RunRows(ids: Ids, m: Rows, w: Window, ts: seq<nat>): Rows
    decreases ts
  {
    if ts == [] then m
    else RunRows(ids, Replace(ids, m, w, Charge(w, ts[0])), Charge(w, ts[0]), ts[1..])
  }

  /** After any number of charged requests the index agrees with the records. */
  lemma {:induction false} RunStored(ids: Ids, m: Rows, w: Window, ts: seq<nat>)
    requires Stored(ids, m, w) && Ordered(w, ts)
    ensures Stored(ids, RunRows(ids, m, w, ts), After(w, ts))
    decreases ts
  {
    if ts != [] {
      OrderedStep(w, ts);
      StepStored(ids, m, w, ts[0]);
      RunStored(ids, Replace(ids, m, w, Charge(w, ts[0])), Charge(w, ts[0]), ts[1..]);
    }
  }

  // ---------------------------------------------------------------- one step stays printable

  lemma DecShort(n: nat)
    requires n <= U64_MAX
    ensures |Dec(n)| <= 20
  {
    Pow10Twenty();
    DecLength(n, 20);
  }

  lemma {:induction false} DecLength(n: nat, k: nat)
    requires 1 <= k && n < Pow10(k)
    ensures |Dec(n)| <= k
    decreases k
  {
    if n >= 10 {
      assert Pow10(1) == 10 * Pow10(0);
      DecLength(n / 10, k - 1);
    }
  }

  lemma RateHexValid(w: Window)
    requires w.start <= U64_MAX && w.count <= U32_MAX
    ensures ValidHex(RateHex(w))
  {
    DecShort(w.start);
    DecShort(w.count);
  }

  lemma IdHexValid(ids: Ids)
    requires ValidIds(ids)
    ensures ValidHex(IdHex(ids))
  {
    assert |[QUOTE] + ids.rate + [QUOTE]| <= 66;
  }

  lemma CleanLiteral()
    ensures Clean(RATE_EXPIRY) && |RATE_EXPIRY| == 24
  {
    var literal := "index_expiry_http_rates/";
    assert forall i :: 0 <= i < |literal| ==> 0 < literal[i] as int;
  }

  lemma CleanKeyValid(key: Bytes)
    requires Clean(key) && 1 <= |key| <= 4096 && key[0] != SLASH && SLASH in key
    ensures ValidKey(key)
  {
    AsciiIsUtf8(key);
  }

  lemma ExpiryKeyValid(ids: Ids, start: nat)
    requires ValidIds(ids)
    ensures ValidKey(ExpiryKey(ids, start))
  {
    CleanLiteral();
    ExpiryKeyShape(ids, start);
    CleanKeyValid(ExpiryKey(ids, start));
  }

  lemma ExpiryKeyShape(ids: Ids, start: nat)
    ensures var key := ExpiryKey(ids, start);
            && |key| == |RATE_EXPIRY| + 21 + |ids.index| && key[0] != SLASH && SLASH in key
            && (Clean(RATE_EXPIRY) && Clean(ids.index) ==> Clean(key))
  {
    var digits := Padded(Expiry(start), 20);
    var key := ExpiryKey(ids, start);
    assert key == RATE_EXPIRY + (digits + ([SLASH] + ids.index));
    assert key[0] == RATE_EXPIRY[0] == 105;
    assert key[|RATE_EXPIRY| + 20] == SLASH;
  }

  lemma StepSize(keys: set<Bytes>, keys': set<Bytes>, prior: Bytes, next: Bytes)
    requires prior in keys && (next != prior ==> next !in keys)
    requires keys' == keys - {prior} + {next}
    ensures |keys'| == |keys|
  {
    assert |keys - {prior}| == |keys| - 1;
  }

  lemma StepValid(ids: Ids, m: Rows, w: Window, w': Window)
    requires ValidIds(ids) && ValidRows(m)
    requires RateKey(ids) in m && ExpiryKey(ids, w.start) in m && !Collides(ids, m, w, w')
    requires w'.start <= U64_MAX && w'.count <= U32_MAX
    ensures ValidRows(Replace(ids, m, w, w'))
    ensures |Replace(ids, m, w, w')| == |m|
  {
    var m' := Replace(ids, m, w, w');
    RateHexValid(w');
    IdHexValid(ids);
    ExpiryKeyValid(ids, w'.start);
    forall k | k in m'
      ensures ValidRow(Row(k, m'[k]))
    {
      ReplaceLookup(ids, m, w, w', k);
      assert k in m ==> ValidRow(Row(k, m[k]));
    }
    KeyKinds(ids, w.start);
    StepSize(m.Keys, m'.Keys, ExpiryKey(ids, w.start), ExpiryKey(ids, w'.start));
  }

  // ---------------------------------------------------------------- what a step changes

  lemma CategoryOfKinds(k: Bytes)
    ensures Category(k) == HttpRates <==> StartsWith(k, RATES)
    ensures Category(k) == HttpRateExpiry <==> StartsWith(k, RATE_EXPIRY)
  {
    KindsDisjoint(k);
  }

  /** The keys added, removed and changed by a step, whatever their category. */
  lemma StepDeltas(ids: Ids, m: Rows, w: Window, w': Window)
    requires Stored(ids, m, w) && !Collides(ids, m, w, w')
    ensures var m', prior, next :=
              Replace(ids, m, w, w'), ExpiryKey(ids, w.start), ExpiryKey(ids, w'.start);
            && m'.Keys - m.Keys == (if prior == next then {} else {next})
            && m.Keys - m'.Keys == (if prior == next then {} else {prior})
            && Differing(m.Keys, m, m') == (if w == w' then {} else {RateKey(ids)})
  {
    var m' := Replace(ids, m, w, w');
    KeyKinds(ids, w.start);
    KeyKinds(ids, w'.start);
    assert m[ExpiryKey(ids, w.start)] == IdHex(ids) by {
      assert ExpiryKey(ids, w.start) in OwnEntries(ids, m);
    }
    if w != w' && RateHex(w) == RateHex(w') { RateHexInjective(w, w'); }
    forall k
      ensures k in Differing(m.Keys, m, m') <==> w != w' && k == RateKey(ids)
      ensures k in m' && k !in m ==> k == ExpiryKey(ids, w'.start)
      ensures k in m && k !in m' ==> k == ExpiryKey(ids, w.start)
    {
      ReplaceLookup(ids, m, w, w', k);
    }
    ReplaceLookup(ids, m, w, w', ExpiryKey(ids, w'.start));
    ReplaceLookup(ids, m, w, w', ExpiryKey(ids, w.start));
  }

  function Bit(b: bool): nat {
    if b then 1 else 0
  }

  lemma SelectOne(x: Bytes, there: bool, l: Label)
    ensures |Select(Category, if there then {x} else {}, l)| == Bit(there && Category(x) == l)
  {
    NothingSelected(Category, map[], map[], l);
    SelectInsert(Category, {}, x, l);
    assert {} + {x} == {x};
  }

  /** Compared with the snapshot before it, an admitted request changes its rate record and moves
      its index entry exactly when the window end moved; every other category is untouched. */
  lemma StepDiff(ids: Ids, m: Rows, w: Window, w': Window, l: Label)
    requires Stored(ids, m, w) && !Collides(ids, m, w, w')
    ensures var c := Meaning(Category, m, Replace(ids, m, w, w'), l);
            var moved := Expiry(w.start) != Expiry(w'.start);
            && c.changed == Bit(l == HttpRates && w != w')
            && c.added == Bit(l == HttpRateExpiry && moved)
            && c.removed == Bit(l == HttpRateExpiry && moved)
  {
    var prior, next := ExpiryKey(ids, w.start), ExpiryKey(ids, w'.start);
    StepDeltas(ids, m, w, w');
    ExpiryKeyOrder(ids, w.start, w'.start);
    KeyKinds(ids, w.start);
    KeyKinds(ids, w'.start);
    CategoryOfKinds(prior);
    CategoryOfKinds(next);
    CategoryOfKinds(RateKey(ids));
    SelectOne(next, prior != next, l);
    SelectOne(prior, prior != next, l);
    SelectOne(RateKey(ids), w != w', l);
  }

  /** An admitted request leaves the window as it was only at the last second, where the record
      already says so. */
  lemma ChargeChanges(w: Window, at: nat, limit: nat)
    requires w.start <= at <= U64_MAX && limit <= 100_000 && Admits(w, at, limit)
    ensures Charge(w, at) == w <==> w == Window(U64_MAX, 1) && at == U64_MAX
  {
  }
}
