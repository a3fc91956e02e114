/** The admission generator on texts: for the store of one client, written out line by line, what it is
    given and what it yields are spelled with the hash, the encoding and literal octets alone. */
module AdmissionText {
  import opened Bytes
  import opened Base64
  import opened Options
  import opened Snapshot
  import opened SnapshotDiff
  import opened RateWindow
  import opened Admission
  import opened AdmissionSnapshots
  import opened AdmissionStart

  // ---------------------------------------------------------------- the text, spelled out

  /** The unpadded base64url text of a digest, as octets. */
  function Encoded(digest: Bytes): Bytes {
    B64UrlShape(digest);
    Ascii(B64Url(digest))
  }

  const RATE_STEM: Bytes := Ascii("http_rates/")
  const COUNT_KEY: Bytes := Ascii("index_counts/http_rates")
  const ENTRY_STEM: Bytes := Ascii("index_expiry_http_rates/")

  function ClientId(sha256: Bytes -> Bytes): Bytes {
    Encoded(sha256([49, 50, 55, 46, 48, 46, 48, 46, 49, 0, 103, 101, 110, 101, 114, 97, 108]))
  }

  /** `http_rates/` and the id: `[start,count]`. */
  function RateLine(id: Bytes, start: nat, count: nat): Bytes {
    Hex(RATE_STEM + id) + Ascii("|")
    + Hex(Ascii("[") + Dec(start) + Ascii(",") + Dec(count) + Ascii("]")) + [10]
  }

  /** `index_counts/http_rates`: `1`. */
  function CountLine(): Bytes {
    Hex(COUNT_KEY) + Ascii("|") + Hex(Ascii("1")) + [10]
  }

  /** `index_expiry_http_rates/`, the end of the window in 20 digits, and the id's own id: the id in
      quotes. */
  function EntryLine(id: Bytes, ownId: Bytes, ends: nat): Bytes {
    Hex(ENTRY_STEM + Padded(ends, 20) + Ascii("/") + ownId) + Ascii("|")
    + Hex([34] + id + [34]) + [10]
  }

  function WindowEnd(start: nat): nat {
    if start + 60 < 18446744073709551615 then start + 60 else 18446744073709551615
  }

  function StoreText(sha256: Bytes -> Bytes, start: nat, count: nat): Bytes {
    var id := ClientId(sha256);
    RateLine(id, start, count) + CountLine() + EntryLine(id, Encoded(sha256(id)), WindowEnd(start))
  }

  /** The pair after an admitted request, and whether it is admitted. */
  function NextPair(start: nat, count: nat, at: nat): (nat, nat) {
    if WindowEnd(start) > at then (start, if count < 4294967295 then count + 1 else count) else (at, 1)
  }

  predicate Admitted(start: nat, count: nat, at: nat, limit: nat) {
    (if WindowEnd(start) > at then count else 0) < limit
  }

  // ---------------------------------------------------------------- it is the store of one client

  function ThreeRows(ids: Ids, w: Window): seq<Row> {
    [Row(RateKey(ids), RateHex(w)), Row(RATE_COUNT, Hex(Dec(1))), Row(ExpiryKey(ids, w.start), IdHex(ids))]
  }

  lemma KeysAscend(ids: Ids, start: nat)
    ensures Less(RateKey(ids), RATE_COUNT) && Less(RATE_COUNT, ExpiryKey(ids, start))
    ensures Less(RateKey(ids), ExpiryKey(ids, start))
  {
    assert RateKey(ids)[0] == RATES[0] == 104 && RATE_COUNT[0] == 105;
    var stem, key := Ascii("index_"), ExpiryKey(ids, start);
    assert key[0] == RATE_EXPIRY[0] == 105;
    assert RATE_COUNT == stem + RATE_COUNT[6..];
    assert RATE_EXPIRY == stem + RATE_EXPIRY[6..];
    assert key == stem + key[6..];
    assert RATE_COUNT[6..][0] == 99 && key[6..][0] == RATE_EXPIRY[6] == 101;
    LessPrefix(stem, RATE_COUNT[6..], key[6..]);
  }

  lemma ThreeRowsSorted(ids: Ids, w: Window)
    ensures SortedRows(OneClient(ids, w)) == ThreeRows(ids, w)
  {
    var rows := ThreeRows(ids, w);
    KeysAscend(ids, w.start);
    assert Increasing(rows);
    ThreeRowsMap(ids, w);
    IncreasingUnique(SortedRows(OneClient(ids, w)), rows);
  }

  lemma MapOfThree(a: Row, b: Row, c: Row)
    ensures ToMap([a, b, c]) == map[][a.key := a.hex][b.key := b.hex][c.key := c.hex]
  {
    assert [a, b, c][..2] == [a, b] && [a, b][..1] == [a] && [a][..0] == [];
    assert ToMap([a]) == map[][a.key := a.hex];
    assert ToMap([a, b]) == ToMap([a])[b.key := b.hex];
  }

  lemma ThreeRowsMap(ids: Ids, w: Window)
    ensures ToMap(ThreeRows(ids, w)) == OneClient(ids, w)
  {
    var rows := ThreeRows(ids, w);
    MapOfThree(rows[0], rows[1], rows[2]);
  }

  lemma PrintOfThree(a: Row, b: Row, c: Row)
    ensures Print([a, b, c]) == Line(a) + Line(b) + Line(c)
  {
    assert [a, b, c][..2] == [a, b] && [a, b][..1] == [a] && [a][..0] == [];
    assert Print([a]) == [] + Line(a) == Line(a);
    assert Print([a, b]) == Print([a]) + Line(b);
  }

  lemma ClientSpelled(sha256: Bytes -> Bytes)
    ensures ClientIds(sha256) == Ids(ClientId(sha256), Encoded(sha256(ClientId(sha256))))
  {
    assert Ascii("127.0.0.1") + [0] + Ascii("general")
        == [49, 50, 55, 46, 48, 46, 48, 46, 49, 0, 103, 101, 110, 101, 114, 97, 108];
  }

  lemma RateLineIs(ids: Ids, w: Window)
    ensures Line(Row(RateKey(ids), RateHex(w))) == RateLine(ids.rate, w.start, w.count)
  {
    assert Ascii("[") == [OPEN] && Ascii(",") == [COMMA] && Ascii("]") == [CLOSE] && Ascii("|") == [BAR];
  }

  lemma CountLineIs()
    ensures Line(Row(RATE_COUNT, Hex(Dec(1)))) == CountLine()
  {
    assert Ascii("1") == [49] && Dec(1) == [49] && Ascii("|") == [BAR];
  }

  lemma EntryLineIs(ids: Ids, start: nat)
    ensures Line(Row(ExpiryKey(ids, start), IdHex(ids))) == EntryLine(ids.rate, ids.index, WindowEnd(start))
  {
    assert Ascii("/") == [SLASH] && Ascii("|") == [BAR];
  }

  lemma StoreIsText(sha256: Bytes -> Bytes, w: Window)
    ensures Print(SortedRows(OneClient(ClientIds(sha256), w))) == StoreText(sha256, w.start, w.count)
  {
    var ids := ClientIds(sha256);
    ClientSpelled(sha256);
    ThreeRowsSorted(ids, w);
    var rows := ThreeRows(ids, w);
    PrintOfThree(rows[0], rows[1], rows[2]);
    RateLineIs(ids, w);
    CountLineIs();
    EntryLineIs(ids, w.start);
  }

  lemma NextIsCharge(w: Window, at: nat, limit: nat)
    requires w.count <= U32_MAX
    ensures Charge(w, at) == Window(NextPair(w.start, w.count, at).0, NextPair(w.start, w.count, at).1)
    ensures Admits(w, at, limit) <==> Admitted(w.start, w.count, at, limit)
  {
  }

  // ---------------------------------------------------------------- the law

  lemma ReplacedIsOneClient(ids: Ids, w: Window, v: Window)
    ensures Replace(ids, OneClient(ids, w), w, v) == OneClient(ids, v)
    ensures !Collides(ids, OneClient(ids, w), w, v)
  {
    KeyKinds(ids, w.start);
    KeyKinds(ids, v.start);
  }

  lemma OutcomeSpelled(sha256: Bytes -> Bytes, w: Window, v: Window)
    requires forall x :: |sha256(x)| == 32
    requires 1 <= v.count <= U32_MAX && v.start <= U64_MAX
    ensures Outcome(ClientIds(sha256), OneClient(ClientIds(sha256), w), w, v)
         == Some(StoreText(sha256, v.start, v.count))
  {
    var ids := ClientIds(sha256);
    ClientIdsValid(sha256);
    ReplacedIsOneClient(ids, w, v);
    OneClientMeets(ids, v, Instant(v.start));
    StoreIsText(sha256, v);
  }

  /** The text that an admitted request at `at` leaves. */
  function Left(sha256: Bytes -> Bytes, start: nat, count: nat, limit: nat, at: nat): Option<Bytes> {
    var (start', count') := NextPair(start, count, at);
    if Admitted(start, count, at, limit) then Some(StoreText(sha256, start', count')) else None
  }

  lemma OfferIsSpelled(sha256: Bytes -> Bytes, w: Window, limit: nat, at: nat, f: Window -> Option<Bytes>,
                       left: Option<Bytes>)
    requires forall x :: |sha256(x)| == 32
    requires w.start <= at <= U64_MAX && 1 <= w.count <= U32_MAX
    requires f(Charge(w, at)) == Outcome(ClientIds(sha256), OneClient(ClientIds(sha256), w), w, Charge(w, at))
    requires left == Left(sha256, w.start, w.count, limit, at)
    ensures if Admits(w, at, limit) then left.Some? && f(Charge(w, at)) == left else left.None?
  {
    NextIsCharge(w, at, limit);
    OutcomeSpelled(sha256, w, Charge(w, at));
  }

  /** The bounds on a bracket, in nanoseconds. */
  predicate Bracketed(b: Bracket) {
    && 0 <= b.lowerNs <= b.upperNs <= 18446744073709551615 * 1000000000
    && b.upperNs - b.lowerNs <= 6000000000 && 0 <= b.elapsedNs <= 5000000000
    && b.upperNs - b.lowerNs - 250000000 <= b.elapsedNs <= b.upperNs - b.lowerNs + 250000000
    && 1 <= b.limit <= 100000
  }

  lemma BracketedIsSound(b: Bracket)
    ensures Bracketed(b) <==> Sound(b)
    ensures Sound(b) ==> Lower(b) == b.lowerNs / 1000000000 && Upper(b) == b.upperNs / 1000000000
  {
  }

  /** The bracket is in order and does not lie before the window. */
  predicate Usable(b: Bracket, start: nat) {
    Bracketed(b) && start <= b.lowerNs / 1000000000
  }

  lemma TextAccepted(sha256: Bytes -> Bytes, w: Window)
    requires forall x :: |sha256(x)| == 32
    requires 1 <= w.count <= U32_MAX && w.start <= U64_MAX
    ensures var ids := ClientIds(sha256);
            var rows := SortedRows(OneClient(ids, w));
            && Accepts(StoreText(sha256, w.start, w.count), rows) && Increasing(rows)
            && ToMap(rows) == OneClient(ids, w) && Stored(ids, OneClient(ids, w), w)
  {
    var ids := ClientIds(sha256);
    ClientIdsValid(sha256);
    OneClientMeets(ids, w, Instant(w.start));
    StoreIsText(sha256, w);
    ThreeRowsSorted(ids, w);
    ThreeRowsMap(ids, w);
  }

  /** The prerequisites hold of the text if and only if the bracket is usable, and then of the records
      it was printed from alone. */
  lemma ReadyOnText(sha256: Bytes -> Bytes, w: Window, text: Bytes, b: Bracket,
                    rows: seq<Row>, v: Window, ready: bool)
    requires forall x :: |sha256(x)| == 32
    requires 1 <= w.count <= U32_MAX && w.start <= U64_MAX && text == StoreText(sha256, w.start, w.count)
    requires var ids := ClientIds(sha256);
             if ready then Prerequisites(ids, text, b, rows, v)
             else forall r, u :: !Prerequisites(ids, text, b, r, u)
    ensures ready <==> Usable(b, w.start)
    ensures ready ==> v == w && ToMap(rows) == OneClient(ClientIds(sha256), w)
  {
    var ids := ClientIds(sha256);
    var own := SortedRows(OneClient(ids, w));
    BracketedIsSound(b);
    TextAccepted(sha256, w);
    if ready {
      AcceptsUnique(text, rows, own);
      RateHexInjective(v, w);
    } else if Usable(b, w.start) {
      assert Prerequisites(ids, text, b, own, w);
    }
  }

  /** Second by second, what the generator offers is what an admitted request leaves. */
  ghost predicate Agree(f: Window -> Option<Bytes>, w: Window, limit: nat, lower: nat, upper: nat,
                        left: nat -> Option<Bytes>) {
    forall at: nat :: lower <= at <= upper ==>
      if Admits(w, at, limit) then left(at).Some? && f(Charge(w, at)) == left(at) else left(at).None?
  }

  /** The listed texts are those left at some second of `[lower, upper]`. */
  ghost predicate Spelled(left: nat -> Option<Bytes>, lower: nat, upper: nat, yielded: seq<Bytes>) {
    forall y :: y in yielded <==> exists at: nat :: lower <= at <= upper && left(at) == Some(y)
  }

  lemma AgreedOffers(f: Window -> Option<Bytes>, w: Window, limit: nat, lower: nat, upper: nat,
                     left: nat -> Option<Bytes>, yielded: seq<Bytes>)
    requires Agree(f, w, limit, lower, upper, left)
    ensures !BlockedIn(f, w, limit, lower, upper)
    ensures OffersExactly(f, w, limit, lower, upper, yielded) ==> Spelled(left, lower, upper, yielded)
  {
    if OffersExactly(f, w, limit, lower, upper, yielded) {
      forall y ensures y in yielded <==> exists at: nat :: lower <= at <= upper && left(at) == Some(y) {
        if y in yielded {
          var at: nat :| lower <= at <= upper && Offered(f, w, limit, at, y);
          assert left(at) == Some(y);
        } else if at: nat :| lower <= at <= upper && left(at) == Some(y) {
          assert Offered(f, w, limit, at, y);
        }
      }
    }
  }

  lemma OffersSpelled(sha256: Bytes -> Bytes, w: Window, limit: nat, lower: nat, upper: nat,
                      f: Window -> Option<Bytes>, left: nat -> Option<Bytes>)
    requires forall x :: |sha256(x)| == 32
    requires w.start <= lower && upper <= U64_MAX && 1 <= w.count <= U32_MAX
    requires Outcomes(f, ClientIds(sha256), OneClient(ClientIds(sha256), w), w)
    requires forall at :: left(at) == Left(sha256, w.start, w.count, limit, at)
    ensures Agree(f, w, limit, lower, upper, left)
  {
    forall at: nat | lower <= at <= upper
      ensures if Admits(w, at, limit) then left(at).Some? && f(Charge(w, at)) == left(at) else left(at).None?
    {
      assert f(Charge(w, at)) == Outcome(ClientIds(sha256), OneClient(ClientIds(sha256), w), w, Charge(w, at));
      OfferIsSpelled(sha256, w, limit, at, f, left(at));
    }
  }

  lemma SpelledOnText(sha256: Bytes -> Bytes, w: Window, b: Bracket, left: nat -> Option<Bytes>,
                      f: Window -> Option<Bytes>, yielded: seq<Bytes>)
    requires forall x :: |sha256(x)| == 32
    requires Usable(b, w.start) && 1 <= w.count <= U32_MAX
    requires forall at :: left(at) == Left(sha256, w.start, w.count, b.limit, at)
    requires Outcomes(f, ClientIds(sha256), OneClient(ClientIds(sha256), w), w)
    ensures Sound(b) && !BlockedIn(f, w, b.limit, Lower(b), Upper(b))
    ensures OffersExactly(f, w, b.limit, Lower(b), Upper(b), yielded) ==>
              Spelled(left, b.lowerNs / 1000000000, b.upperNs / 1000000000, yielded)
  {
    BracketedIsSound(b);
    BracketSeconds(b);
    OffersSpelled(sha256, w, b.limit, Lower(b), Upper(b), f, left);
    AgreedOffers(f, w, b.limit, Lower(b), Upper(b), left, yielded);
  }

  /** The generator, on the text of a store with one client: it raises if and only if the bracket is out
      of order or lies before the window, and otherwise yields exactly the texts of that store with the
      pair of an admitted request at some second of the bracket. */
  method AdmissionsOfOneClient(sha256: Bytes -> Bytes, start: nat, count: nat, before: Bytes, b: Bracket,
                               ghost left: nat -> Option<Bytes>)
    returns (yielded: seq<Bytes>, raised: bool)
    requires forall x :: |sha256(x)| == 32
    requires start <= 18446744073709551615 && 1 <= count <= 4294967295
    requires before == StoreText(sha256, start, count)
    requires b.limit >= 0 ==> forall at :: left(at) == Left(sha256, start, count, b.limit, at)
    ensures raised <==> !Usable(b, start)
    ensures if raised then yielded == []
            else Spelled(left, b.lowerNs / 1000000000, b.upperNs / 1000000000, yielded)
  {
    ghost var w := Window(start, count);
    ghost var rows, v, f, ready;
    yielded, raised, rows, v, f, ready := RefusalAdmissionSnapshots(sha256, before, b);
    ReadyOnText(sha256, w, before, b, rows, v, ready);
    if ready {
      SpelledOnText(sha256, w, b, left, f, yielded);
    }
  }
}
