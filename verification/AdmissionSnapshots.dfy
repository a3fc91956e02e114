/** The generator of expected snapshots (`refusal_admission_snapshots`): from the snapshot before
    a request and a bracket of clock readings it derives every snapshot the request may leave. */
module AdmissionSnapshots {
  import opened Bytes
  import opened Options
  import opened Snapshot
  import opened SnapshotDiff
  import opened RateWindow
  import opened Admission

  datatype Bracket = Bracket(lowerNs: int, upperNs: int, elapsedNs: int, limit: int)

  predicate Sound(b: Bracket) {
    var span := b.upperNs - b.lowerNs;
    && 0 <= b.lowerNs <= b.upperNs <= U64_MAX * SECOND_NS
    && 0 <= b.elapsedNs <= 5_000_000_000
    && span <= 6_000_000_000
    && -250_000_000 <= span - b.elapsedNs <= 250_000_000
    && 1 <= b.limit <= 100_000
  }

  function Lower(b: Bracket): nat
    requires Sound(b)
  {
    b.lowerNs / SECOND_NS
  }

  function Upper(b: Bracket): nat
    requires Sound(b)
  {
    b.upperNs / SECOND_NS
  }

  lemma BracketSeconds(b: Bracket)
    requires Sound(b)
    ensures Lower(b) <= Upper(b) <= Lower(b) + 6 && Upper(b) <= U64_MAX
  {
  }

  /** Everything the generator demands before it derives anything. */
  ghost predicate Prerequisites(ids: Ids, before: Bytes, b: Bracket, rows: seq<Row>, w: Window) {
    && Sound(b)
    && Accepts(before, rows) && Increasing(rows)
    && Stored(ids, ToMap(rows), w) && w.start <= Lower(b)
  }

  /** What a request that charges the client to `v` leaves, unless that cannot be derived. */
  ghost function Outcome(ids: Ids, m: Rows, w: Window, v: Window): Option<Bytes> {
    if Collides(ids, m, w, v) then None else Pack(Replace(ids, m, w, v))
  }

  /** `f` gives the outcomes of charging the client's stored window `w` in the records `m`. */
  ghost predicate Outcomes(f: Window -> Option<Bytes>, ids: Ids, m: Rows, w: Window) {
    forall v {:trigger Outcome(ids, m, w, v)} :: f(v) == Outcome(ids, m, w, v)
  }

  /** A request at `at` is admitted and may leave the snapshot `y`. */
  ghost predicate Offered(f: Window -> Option<Bytes>, w: Window, limit: nat, at: nat, y: Bytes) {
    Admits(w, at, limit) && f(Charge(w, at)) == Some(y)
  }

  /** A request at `at` would be admitted, but its snapshot cannot be derived: the new index key
      is taken, or the text is over the size bound. */
  ghost predicate Blocked(f: Window -> Option<Bytes>, w: Window, limit: nat, at: nat) {
    Admits(w, at, limit) && f(Charge(w, at)).None?
  }

  ghost predicate BlockedIn(f: Window -> Option<Bytes>, w: Window, limit: nat, lower: nat, upper: nat) {
    exists at: nat :: lower <= at <= upper && Blocked(f, w, limit, at)
  }

  /** The listed snapshots are those offered at some second of `[lower, upper]`. */
  ghost predicate OffersExactly(f: Window -> Option<Bytes>, w: Window, limit: nat,
                                lower: nat, upper: nat, yielded: seq<Bytes>) {
    forall y :: y in yielded <==>
      exists at: nat :: lower <= at <= upper && Offered(f, w, limit, at, y)
  }

  // ---------------------------------------------------------------- prerequisites are decided

  lemma StoredWindow(ids: Ids, m: Rows, w: Window)
    requires ValidRows(m) && RateKey(ids) in m && m[RateKey(ids)] == RateHex(w)
    requires w.start <= U64_MAX && w.count <= U32_MAX
    ensures ValidHex(m[RateKey(ids)])
    ensures ReadRate(Unhex(m[RateKey(ids)])) == Some(w)
  {
    assert ValidRow(Row(RateKey(ids), m[RateKey(ids)]));
    UnhexHex(RateText(w));
    ReadRateExact(RateText(w), w);
    DecShort(w.start);
    assert Pow10(10) == 10 * (10 * Pow10(8));
    DecLength(w.count, 10);
  }

  lemma WindowRead(ids: Ids, m: Rows, w: Window)
    requires ValidRows(m) && RateKey(ids) in m
    requires ValidHex(m[RateKey(ids)]) && ReadRate(Unhex(m[RateKey(ids)])) == Some(w)
    ensures m[RateKey(ids)] == RateHex(w)
  {
    ReadRateExact(Unhex(m[RateKey(ids)]), w);
    HexUnhex(m[RateKey(ids)]);
  }

  /** The prerequisites hold of at most one list of records and one window. */
  lemma PrerequisitesUnique(ids: Ids, before: Bytes, b: Bracket,
                            rows: seq<Row>, w: Window, rows': seq<Row>, w': Window)
    requires Prerequisites(ids, before, b, rows, w) && Prerequisites(ids, before, b, rows', w')
    ensures rows == rows' && w == w'
  {
    AcceptsUnique(before, rows, rows');
    RateHexInjective(w, w');
  }

  /** The checks on parsed records; the result is the stored window. */
  method CheckStored(ids: Ids, m: Rows, lower: nat) returns (found: Option<Window>)
    requires ValidRows(m) && lower <= U64_MAX
    ensures found.Some? ==> Stored(ids, m, found.value) && found.value.start <= lower
    ensures found.None? ==> forall w :: !(Stored(ids, m, w) && w.start <= lower)
  {
    forall w | Stored(ids, m, w) && w.start <= lower
      ensures ValidHex(m[RateKey(ids)]) && ReadRate(Unhex(m[RateKey(ids)])) == Some(w)
    {
      StoredWindow(ids, m, w);
    }
    if RateKey(ids) !in m {
      return None;
    }
    assert ValidRow(Row(RateKey(ids), m[RateKey(ids)]));
    var rate := ReadRate(Unhex(m[RateKey(ids)]));
    if rate.None? || rate.value.start > lower || !(1 <= rate.value.count <= U32_MAX) {
      return None;
    }
    var w := rate.value;
    WindowRead(ids, m, w);
    var total := |RateKeys(m)|;
    if !(1 <= total <= 100_000) || RATE_COUNT !in m || m[RATE_COUNT] != Hex(Dec(total)) {
      return None;
    }
    var entry := ExpiryKey(ids, w.start);
    if entry !in m || m[entry] != IdHex(ids) || |OwnEntries(ids, m)| != 1 {
      EntryNeeded(ids, m, w);
      return None;
    }
    KeyKinds(ids, w.start);
    OneElement(OwnEntries(ids, m), entry);
    found := Some(w);
  }

  lemma EntryNeeded(ids: Ids, m: Rows, w: Window)
    ensures Stored(ids, m, w) ==>
              var entry := ExpiryKey(ids, w.start);
              entry in m && m[entry] == IdHex(ids) && |OwnEntries(ids, m)| == 1
  {
    if Stored(ids, m, w) {
      assert ExpiryKey(ids, w.start) in OwnEntries(ids, m);
    }
  }

  lemma OneElement(s: set<Bytes>, x: Bytes)
    requires |s| == 1 && x in s
    ensures s == {x}
  {
    assert |s - {x}| == 0;
  }

  // ---------------------------------------------------------------- the window loop

  /** One snapshot for each window: `f` gives the snapshot of `windows[i]` as `yielded[i]`. */
  ghost predicate Yielded(f: Window -> Option<Bytes>, windows: seq<Window>, yielded: seq<Bytes>) {
    && |windows| == |yielded|
    && (forall i :: 0 <= i < |windows| ==> f(windows[i]) == Some(yielded[i]))
    && (forall i, j :: 0 <= i < j < |windows| ==> windows[i] != windows[j])
  }

  /** Different windows leave different snapshots. */
  lemma OutcomeInjective(ids: Ids, m: Rows, w: Window, v: Window, v': Window)
    requires ValidIds(ids) && ValidRows(m) && Stored(ids, m, w)
    requires v.start <= U64_MAX && v.count <= U32_MAX
    requires v'.start <= U64_MAX && v'.count <= U32_MAX
    requires Outcome(ids, m, w, v).Some? && Outcome(ids, m, w, v) == Outcome(ids, m, w, v')
    ensures v == v'
  {
    StepValid(ids, m, w, v);
    StepValid(ids, m, w, v');
    PackInjective(Replace(ids, m, w, v), Replace(ids, m, w, v'));
    KeyKinds(ids, v.start);
    KeyKinds(ids, v'.start);
    KeyKinds(ids, w.start);
    ReplaceLookup(ids, m, w, v, RateKey(ids));
    ReplaceLookup(ids, m, w, v', RateKey(ids));
    RateHexInjective(v, v');
  }

  lemma YieldedExtended(f: Window -> Option<Bytes>, windows: seq<Window>, yielded: seq<Bytes>,
                        v: Window, y: Bytes)
    requires Yielded(f, windows, yielded) && v !in windows && f(v) == Some(y)
    ensures Yielded(f, windows + [v], yielded + [y])
  {
  }

  /** The windows charged at the admitted seconds of `[lower, at)`, each once. */
  ghost predicate Charged(w: Window, limit: nat, lower: nat, at: nat, windows: seq<Window>) {
    && (forall a :: lower <= a < at && Admits(w, a, limit) ==> Charge(w, a) in windows)
    && (forall v :: v in windows ==> exists a :: lower <= a < at && Admits(w, a, limit) && Charge(w, a) == v)
  }

  lemma ChargedExtended(w: Window, limit: nat, lower: nat, at: nat, windows: seq<Window>)
    requires Charged(w, limit, lower, at, windows) && lower <= at && Admits(w, at, limit)
    ensures Charged(w, limit, lower, at + 1, windows + [Charge(w, at)])
  {
    var more := windows + [Charge(w, at)];
    assert forall v :: v in more <==> v in windows || v == Charge(w, at);
  }

  ghost predicate Ascending(windows: seq<Window>, at: nat) {
    && (forall i, j :: 0 <= i < j < |windows| ==> windows[i].start < windows[j].start)
    && (forall i :: 0 <= i < |windows| ==> windows[i].start < at)
  }

  /** A window that was not charged before starts later than those that were. */
  lemma StartsLater(w: Window, limit: nat, lower: nat, at: nat, windows: seq<Window>)
    requires Charged(w, limit, lower, at, windows) && w.start <= lower <= at && Charge(w, at) !in windows
    requires Ascending(windows, at)
    ensures Ascending(windows + [Charge(w, at)], at + 1)
  {
    var v := Charge(w, at);
    forall i | 0 <= i < |windows| ensures windows[i].start < v.start {
      assert windows[i] in windows;
      var a :| lower <= a < at && Admits(w, a, limit) && Charge(w, a) == windows[i];
    }
  }

  /** One charged window: its snapshot, or the refusal to derive it. */
  method DeriveOne(ids: Ids, m: Rows, w: Window, v: Window) returns (packed: Option<Bytes>)
    ensures packed == Outcome(ids, m, w, v)
  {
    if Collides(ids, m, w, v) {
      return None;
    }
    packed := PackRows(Replace(ids, m, w, v));
  }

  /** The loop over the seconds of the bracket: it raises exactly when a charged window has no
      snapshot, and otherwise yields one snapshot for each charged window. */
  method DeriveSnapshots(ids: Ids, m: Rows, w: Window, limit: nat, lower: nat, upper: nat,
                         ghost f: Window -> Option<Bytes>)
    returns (yielded: seq<Bytes>, raised: bool, ghost windows: seq<Window>, ghost done: nat)
    requires lower <= upper
    requires Outcomes(f, ids, m, w)
    ensures raised ==> BlockedIn(f, w, limit, lower, upper)
    ensures done <= upper + 1 && Charged(w, limit, lower, done, windows)
    ensures !raised ==> done == upper + 1
    ensures Yielded(f, windows, yielded)
    ensures |yielded| <= upper - lower + 1
    ensures w.start <= lower ==> Ascending(windows, done)
  {
    yielded, raised, windows, done := [], true, [], lower;
    var at, seen: set<Window> := lower, {};
    while at <= upper
      invariant lower <= at == done <= upper + 1
      invariant Charged(w, limit, lower, at, windows) && Yielded(f, windows, yielded)
      invariant forall v :: v in seen <==> v in windows
      invariant |yielded| <= at - lower
      invariant w.start <= lower ==> Ascending(windows, at)
    {
      var next := Charge(w, at);
      if Admits(w, at, limit) && next !in seen {
        var packed := DeriveOne(ids, m, w, next);
        if packed.None? {
          assert Blocked(f, w, limit, at);
          return;
        }
        YieldedExtended(f, windows, yielded, next, packed.value);
        ChargedExtended(w, limit, lower, at, windows);
        if w.start <= lower {
          StartsLater(w, limit, lower, at, windows);
        }
        seen, yielded, windows := seen + {next}, yielded + [packed.value], windows + [next];
      }
      at, done := at + 1, done + 1;
    }
    raised := false;
  }

  lemma ChargedBounds(w: Window, limit: nat, lower: nat, at: nat, windows: seq<Window>, v: Window)
    requires Charged(w, limit, lower, at, windows) && v in windows
    requires w.start <= lower && at <= U64_MAX + 1
    ensures v.start <= U64_MAX && v.count <= U32_MAX
  {
    var a :| lower <= a < at && Admits(w, a, limit) && Charge(w, a) == v;
    assert w.start <= a <= U64_MAX;
  }

  lemma YieldedDistinct(ids: Ids, m: Rows, w: Window, limit: nat, lower: nat, at: nat,
                        f: Window -> Option<Bytes>, windows: seq<Window>, yielded: seq<Bytes>)
    requires ValidIds(ids) && ValidRows(m) && Stored(ids, m, w)
    requires w.start <= lower && at <= U64_MAX + 1
    requires Outcomes(f, ids, m, w)
    requires Charged(w, limit, lower, at, windows) && Yielded(f, windows, yielded)
    ensures forall i, j :: 0 <= i < j < |yielded| ==> yielded[i] != yielded[j]
  {
    forall i, j | 0 <= i < j < |yielded| && yielded[i] == yielded[j]
      ensures false
    {
      ChargedBounds(w, limit, lower, at, windows, windows[i]);
      ChargedBounds(w, limit, lower, at, windows, windows[j]);
      assert f(windows[i]) == f(windows[j]);
      OutcomeInjective(ids, m, w, windows[i], windows[j]);
    }
  }

  lemma YieldedExactly(w: Window, limit: nat, lower: nat, upper: nat,
                       f: Window -> Option<Bytes>, windows: seq<Window>, yielded: seq<Bytes>)
    requires lower <= upper
    requires Charged(w, limit, lower, upper + 1, windows) && Yielded(f, windows, yielded)
    ensures !BlockedIn(f, w, limit, lower, upper)
    ensures OffersExactly(f, w, limit, lower, upper, yielded)
  {
    forall at: nat | lower <= at <= upper && Admits(w, at, limit)
      ensures f(Charge(w, at)).Some? && f(Charge(w, at)).value in yielded
    {
      var i :| 0 <= i < |windows| && windows[i] == Charge(w, at);
      assert f(windows[i]) == Some(yielded[i]);
    }
    forall y | y in yielded
      ensures exists at: nat :: lower <= at <= upper && Offered(f, w, limit, at, y)
    {
      var i :| 0 <= i < |yielded| && yielded[i] == y;
      assert windows[i] in windows;
      var a :| lower <= a < upper + 1 && Admits(w, a, limit) && Charge(w, a) == windows[i];
      assert Offered(f, w, limit, a, y);
    }
  }

  lemma ClientIdsValid(sha256: Bytes -> Bytes)
    requires forall x :: |sha256(x)| == 32
    ensures ValidIds(ClientIds(sha256))
  {
    var rate := IdOf(sha256(Ascii("127.0.0.1") + [0] + Ascii("general")));
    IdOfValid(sha256(Ascii("127.0.0.1") + [0] + Ascii("general")));
    IdOfValid(sha256(rate));
  }

  /** `refusal_admission_snapshots`. When the prerequisites hold and no second of the bracket is
      blocked, the yielded snapshots are exactly those a single admitted request may leave at some
      second of the bracket. It raises when a prerequisite fails or a second is blocked. What it
      yields is always pairwise distinct and at most seven snapshots. */
  method RefusalAdmissionSnapshots(sha256: Bytes -> Bytes, before: Bytes, b: Bracket)
    returns (yielded: seq<Bytes>, raised: bool,
             ghost rows: seq<Row>, ghost w: Window, ghost f: Window -> Option<Bytes>, ghost ready: bool)
    requires forall x :: |sha256(x)| == 32
    ensures var ids := ClientIds(sha256);
            if ready then Prerequisites(ids, before, b, rows, w) && Outcomes(f, ids, ToMap(rows), w)
            else raised && yielded == [] && forall r, v :: !Prerequisites(ids, before, b, r, v)
    ensures ready ==> (raised <==> BlockedIn(f, w, b.limit, Lower(b), Upper(b)))
    ensures !raised ==> ready && OffersExactly(f, w, b.limit, Lower(b), Upper(b), yielded)
    ensures forall i, j :: 0 <= i < j < |yielded| ==> yielded[i] != yielded[j]
    ensures |yielded| <= 7
  {
    var ids := ClientIds(sha256);
    ClientIdsValid(sha256);
    yielded, raised, rows, w, f, ready := [], true, [], Window(0, 0), v => None, false;
    if !Sound(b) {
      return;
    }
    BracketSeconds(b);
    var lower, upper := Lower(b), Upper(b);
    var m, found;
    m, found, rows := CheckSnapshot(ids, before, b);
    if found.None? {
      return;
    }
    w, f, ready := found.value, v => Outcome(ids, m, found.value, v), true;
    ghost var windows, done;
    yielded, raised, windows, done := DeriveSnapshots(ids, m, found.value, b.limit, lower, upper, f);
    YieldedDistinct(ids, m, w, b.limit, lower, done, f, windows, yielded);
    if !raised {
      YieldedExactly(w, b.limit, lower, upper, f, windows, yielded);
    }
  }

  /** The parse, the canonical-order check and the structural checks. */
  method CheckSnapshot(ids: Ids, before: Bytes, b: Bracket)
    returns (m: Rows, found: Option<Window>, ghost rows: seq<Row>)
    requires Sound(b)
    ensures found.Some? ==> Prerequisites(ids, before, b, rows, found.value) && m == ToMap(rows)
    ensures found.Some? ==> ValidRows(m)
    ensures found.None? ==> forall r, v :: !Prerequisites(ids, before, b, r, v)
  {
    m, found := map[], None;
    BracketSeconds(b);
    var read;
    read, rows := Read(before);
    if read.None? {
      return;
    }
    m := read.value;
    forall r, v | Prerequisites(ids, before, b, r, v)
      ensures r == rows
    {
      AcceptsUnique(before, r, rows);
    }
    AcceptedMapValid(before, rows);
    PackRead(before, rows);
    var canonical := PackRows(m);
    if canonical != Some(before) {
      return;
    }
    found := CheckStored(ids, m, Lower(b));
  }

  // ---------------------------------------------------------------- what an offered snapshot is

  /** An offered snapshot parses back to the charged records, and they again meet every
      prerequisite for any later bracket: the generator can go on from what it yielded. */
  lemma OfferedMeetsPrerequisites(ids: Ids, before: Bytes, b: Bracket, rows: seq<Row>, w: Window,
                                  at: nat, y: Bytes, later: Bracket)
    requires ValidIds(ids) && Prerequisites(ids, before, b, rows, w)
    requires Lower(b) <= at <= Upper(b)
    requires Outcome(ids, ToMap(rows), w, Charge(w, at)) == Some(y)
    requires Sound(later) && at <= Lower(later)
    ensures var m' := Replace(ids, ToMap(rows), w, Charge(w, at));
            && ToMap(SortedRows(m')) == m'
            && Prerequisites(ids, y, later, SortedRows(m'), Charge(w, at))
  {
    var m, w' := ToMap(rows), Charge(w, at);
    var m' := Replace(ids, m, w, w');
    BracketSeconds(b);
    AcceptedMapValid(before, rows);
    StepStored(ids, m, w, at);
    StepValid(ids, m, w, w');
    ReadPack(m');
  }

  /** The comparison of the snapshot before a request with an offered one: the rate record
      changed, unless nothing can tell the windows apart; the index entry was replaced exactly
      when the window end moved; nothing of any other category was touched. */
  lemma OfferedDiff(ids: Ids, before: Bytes, b: Bracket, rows: seq<Row>, w: Window,
                    at: nat, y: Bytes, rows': seq<Row>, l: Label)
    requires ValidIds(ids) && Prerequisites(ids, before, b, rows, w)
    requires Lower(b) <= at <= Upper(b) && Admits(w, at, b.limit)
    requires Outcome(ids, ToMap(rows), w, Charge(w, at)) == Some(y) && Accepts(y, rows')
    ensures var c := Meaning(Category, ToMap(rows), ToMap(rows'), l);
            var moved := Expiry(w.start) != Expiry(Charge(w, at).start);
            && c.changed == Bit(l == HttpRates && !(w == Window(U64_MAX, 1) && at == U64_MAX))
            && c.added == c.removed == Bit(l == HttpRateExpiry && moved)
  {
    var m := ToMap(rows);
    BracketSeconds(b);
    OfferedMeetsPrerequisites(ids, before, b, rows, w, at, y, Instant(at));
    AcceptsUnique(y, rows', SortedRows(Replace(ids, m, w, Charge(w, at))));
    StepDiff(ids, m, w, Charge(w, at), l);
    ChargeChanges(w, at, b.limit);
  }

  /** A bracket of a single clock reading. */
  function Instant(at: nat): (b: Bracket)
    requires at <= U64_MAX
    ensures Sound(b) && Lower(b) == Upper(b) == at
  {
    Bracket(at * SECOND_NS, at * SECOND_NS, 0, 1)
  }
}
