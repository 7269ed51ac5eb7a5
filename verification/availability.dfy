/**
 * The availability page's logic under its Streamlit rendering: the occupancy
 * level of a rate, the per-library totals, the zero-capacity rate guard,
 * merging the latest log row into the catalog, the page's initial load, and
 * the recommended library.
 */
module Availability {
  import opened Optional
  import opened Text
  import opened Catalog
  import opened CsvFile
  import opened SnapshotStore
  import opened Snapshot

  // ---------------------------------------------------------------- level_and_color

  datatype Level = Low | Medium | High

  /** What `level_and_color` returns: the level, its hex colour and its Streamlit colour name. */
  datatype Status = Status(level: Level, hex: string, color: string)

  function LevelAndColor(rate: real): (s: Status)
    ensures s.level == Low <==> rate < 0.4
    ensures s.level == Medium <==> 0.4 <= rate < 0.7
    ensures s.level == High <==> 0.7 <= rate
  {
    if rate < 0.4 then Status(Low, "#22c55e", "green")
    else if rate < 0.7 then Status(Medium, "#fbbf24", "orange")
    else Status(High, "#ef4444", "red")
  }

  function Rank(l: Level): nat {
    match l
    case Low => 0
    case Medium => 1
    case High => 2
  }

  /** A higher rate never shows a lower level. */
  lemma {:induction false} LevelMonotone(r1: real, r2: real)
    requires r1 <= r2
    ensures Rank(LevelAndColor(r1).level) <= Rank(LevelAndColor(r2).level)
  {
  }

  /** Each level has its own colours, so the colour alone tells the level. */
  lemma {:induction false} ColorsTellLevel(r1: real, r2: real)
    ensures LevelAndColor(r1).level == LevelAndColor(r2).level
        <==> LevelAndColor(r1).hex == LevelAndColor(r2).hex
    ensures LevelAndColor(r1).level == LevelAndColor(r2).level
        <==> LevelAndColor(r1).color == LevelAndColor(r2).color
  {
  }

  // ---------------------------------------------------------------- totals and rate

  /** What `library_totals` returns: total seats, seats in use, and seats available. */
  datatype Totals = Totals(capacity: int, occupied: int, available: int)

  function LibraryTotals(lib: Library): (t: Totals)
    ensures t.available == t.capacity - t.occupied
  {
    var cap := Capacity(lib.floors);
    var occ := Occupied(lib.floors);
    Totals(cap, occ, cap - occ)
  }

  /** Seats available over a list of floors, floor by floor. */
  function FloorsAvailable(floors: seq<Floor>): int {
    if |floors| == 0 then 0
    else FloorsAvailable(floors[..|floors| - 1]) + (floors[|floors| - 1].capacity - floors[|floors| - 1].occupied)
  }

  /** A library's available seats are the sum of its floors' available seats. */
  lemma {:induction false} AvailableIsPerFloorSum(floors: seq<Floor>)
    ensures Capacity(floors) - Occupied(floors) == FloorsAvailable(floors)
    decreases |floors|
  {
    if |floors| > 0 {
      AvailableIsPerFloorSum(floors[..|floors| - 1]);
    }
  }

  /** The totals of two runs of floors add up. */
  lemma {:induction false} TotalsAdditive(a: seq<Floor>, b: seq<Floor>)
    ensures Capacity(a + b) == Capacity(a) + Capacity(b)
    ensures Occupied(a + b) == Occupied(a) + Occupied(b)
    decreases |b|
  {
    if |b| > 0 {
      var n := |b| - 1;
      assert (a + b)[..|a + b| - 1] == a + b[..n];
      assert (a + b)[|a + b| - 1] == b[n];
      TotalsAdditive(a, b[..n]);
    } else {
      assert a + b == a;
    }
  }

  /** Sound floors give totals with `0 <= occupied <= capacity`, hence nothing negative. */
  lemma {:induction false} SoundTotals(floors: seq<Floor>)
    requires forall j :: 0 <= j < |floors| ==> FloorSound(floors[j])
    ensures 0 <= Occupied(floors) <= Capacity(floors)
    ensures |floors| > 0 ==> Capacity(floors) > 0
    decreases |floors|
  {
    if |floors| > 0 {
      var n := |floors| - 1;
      assert forall j :: 0 <= j < n ==> floors[..n][j] == floors[j];
      SoundTotals(floors[..n]);
    }
  }

  /** `occupied / capacity if capacity else 0`: a capacity of zero reads as an empty building. */
  function Rate(occupied: int, capacity: int): (r: real)
    ensures capacity == 0 ==> r == 0.0
    ensures capacity != 0 ==> r * capacity as real == occupied as real
  {
    if capacity != 0 then occupied as real / capacity as real else 0.0
  }

  /** A rate from `0 <= occupied <= capacity` lies in `[0, 1]`; more people than seats means a rate above 1 and a High level. */
  lemma {:induction false} RateBounds(occupied: int, capacity: int)
    requires capacity > 0
    ensures 0 <= occupied <= capacity ==> 0.0 <= Rate(occupied, capacity) <= 1.0
    ensures occupied > capacity ==> Rate(occupied, capacity) > 1.0 && LevelAndColor(Rate(occupied, capacity)).level == High
    ensures occupied < 0 ==> Rate(occupied, capacity) < 0.0 && LevelAndColor(Rate(occupied, capacity)).level == Low
  {
    assert Rate(occupied, capacity) * capacity as real == occupied as real;
  }

  /**
   * The level of `occupied` people in `capacity` seats, in whole numbers: no
   * seats reads as Low, otherwise High from 70% of the seats on and Low
   * below 40%.
   */
  function SeatsLevel(occupied: int, capacity: int): (lv: Level)
    ensures capacity == 0 ==> lv == Low
    ensures capacity > 0 ==> (lv == High <==> 10 * occupied >= 7 * capacity)
    ensures capacity > 0 ==> (lv == Low <==> 10 * occupied < 4 * capacity)
  {
    var lv := LevelAndColor(Rate(occupied, capacity)).level;
    if capacity > 0 then
      RateAtLeast(occupied, capacity, 0.7);
      RateAtLeast(occupied, capacity, 0.4);
      lv
    else lv
  }

  /** For positive capacity the rate reaches a threshold exactly when the occupancy reaches that share of the seats. */
  lemma {:induction false} RateAtLeast(occupied: int, capacity: int, t: real)
    requires capacity > 0
    ensures Rate(occupied, capacity) >= t <==> occupied as real >= t * capacity as real
  {
    var r := Rate(occupied, capacity);
    var c := capacity as real;
    assert r * c == occupied as real;
    if r >= t {
      assert r * c >= t * c;
    } else {
      assert r * c < t * c;
    }
  }

  /** The level shown for a library: its rate over all floors. */
  function LibraryLevel(lib: Library): (lv: Level)
    ensures lv == SeatsLevel(Occupied(lib.floors), Capacity(lib.floors))
  {
    var t := LibraryTotals(lib);
    LevelAndColor(Rate(t.occupied, t.capacity)).level
  }

  /** The level shown for one floor. */
  function FloorLevel(f: Floor): (lv: Level)
    ensures lv == SeatsLevel(f.occupied, f.capacity)
  {
    LevelAndColor(Rate(f.occupied, f.capacity)).level
  }

  /** A library without seats, or without floors, always shows Low. */
  lemma {:induction false} EmptyLibraryIsLow(lib: Library)
    requires Capacity(lib.floors) == 0
    ensures LibraryLevel(lib) == Low
  {
  }

  // ---------------------------------------------------------------- update_libraries_from_csv

  /** A floor's occupancy after the merge: the row's value when it has one that `int()` accepts, the static figure otherwise. */
  function MergedOccupied(name: string, floor: Floor, row: Row): (o: int)
    ensures o == floor.occupied
         || (ColumnName(name, floor.number) in row && ParseInt(row[ColumnName(name, floor.number)]) == Some(o))
  {
    var col := ColumnName(name, floor.number);
    if col in row then
      match ParseInt(row[col])
      case Some(v) => v
      case None => floor.occupied
    else floor.occupied
  }

  function MergeLibrary(lib: Library, row: Row): (r: Library)
    ensures r.name == lib.name && r.address == lib.address && |r.floors| == |lib.floors|
    ensures forall j :: 0 <= j < |r.floors| ==>
              r.floors[j] == lib.floors[j].(occupied := MergedOccupied(lib.name, lib.floors[j], row))
  {
    var floors := seq(|lib.floors|, j requires 0 <= j < |lib.floors| =>
      lib.floors[j].(occupied := MergedOccupied(lib.name, lib.floors[j], row)));
    Library(lib.name, floors, lib.address)
  }

  /** Two catalogs that differ at most in their floors' occupancy. */
  predicate SameLayout(a: seq<Library>, b: seq<Library>) {
    && |a| == |b|
    && forall i :: 0 <= i < |a| ==>
         && a[i].name == b[i].name && a[i].address == b[i].address
         && |a[i].floors| == |b[i].floors|
         && forall j :: 0 <= j < |a[i].floors| ==>
              a[i].floors[j].number == b[i].floors[j].number
              && a[i].floors[j].capacity == b[i].floors[j].capacity
  }

  /**
   * `update_libraries_from_csv`: with no row the catalog comes back as is;
   * otherwise a new catalog with the same libraries, floors, numbers,
   * capacities and addresses in the same order, where only occupancy may
   * differ.
   */
  function Merge(libs: seq<Library>, csvData: Option<Row>): (r: seq<Library>)
    ensures SameLayout(libs, r)
    ensures csvData.None? ==> r == libs
  {
    match csvData
    case None => libs
    case Some(row) => seq(|libs|, i requires 0 <= i < |libs| => MergeLibrary(libs[i], row))
  }

  /** The merge picks the row's value exactly when the floor's column is present and parses. */
  lemma {:induction false} MergeReadsColumn(libs: seq<Library>, row: Row, i: nat, j: nat)
    requires i < |libs| && j < |libs[i].floors|
    ensures var col := ColumnName(libs[i].name, libs[i].floors[j].number);
            var o := Merge(libs, Some(row))[i].floors[j].occupied;
            && (col in row && ParseInt(row[col]).Some? ==> o == ParseInt(row[col]).value)
            && (col !in row || ParseInt(row[col]).None? ==> o == libs[i].floors[j].occupied)
  {
  }

  /** Merging the same row twice is merging it once. */
  lemma {:induction false} MergeIdempotent(libs: seq<Library>, row: Row)
    ensures Merge(Merge(libs, Some(row)), Some(row)) == Merge(libs, Some(row))
  {
    var m := Merge(libs, Some(row));
    var mm := Merge(m, Some(row));
    forall i | 0 <= i < |libs| ensures mm[i] == m[i] {
      assert mm[i].floors == m[i].floors;
    }
  }

  /** A row naming no catalog column leaves the catalog as it was. */
  lemma {:induction false} MergeForeignRow(libs: seq<Library>, row: Row)
    requires forall i, j :: 0 <= i < |libs| && 0 <= j < |libs[i].floors| ==>
               ColumnName(libs[i].name, libs[i].floors[j].number) !in row
    ensures Merge(libs, Some(row)) == libs
  {
    var m := Merge(libs, Some(row));
    forall i | 0 <= i < |libs| ensures m[i] == libs[i] {
      assert m[i].floors == libs[i].floors;
    }
  }

  // ---------------------------------------------------------------- loading the page

  /** The data the page shows: the catalog it renders and the timestamp of the row it came from. */
  datatype View = View(libraries: seq<Library>, timestamp: Option<string>)

  /**
   * The page's first load: the latest row merged into the static catalog with
   * its timestamp, or the static catalog and no timestamp when there is no
   * row (missing, unreadable or empty log, or a row with no fields). A
   * `csv.Error` is not caught by `get_latest_occupancy_from_csv` and reaches
   * the page as `Raised`.
   */
  function LoadLibraries(base: seq<Library>, f: File): (r: Result<View, ReadError>)
    ensures r.Raised? <==> f == Unreadable(CsvError)
    ensures r.Ok? ==> SameLayout(base, r.value.libraries)
    ensures f.Missing? || (f.Unreadable? && (f.error.OsError? || f.error == DecodeError)) ==> r == Ok(View(base, None))
    ensures f.Csv? && |Rows(f.records)| == 0 ==> r == Ok(View(base, None))
    ensures r.Ok? && r.value.timestamp.Some? ==>
              && f.Csv?
              && exists k :: 0 <= k < |Rows(f.records)| && TimestampColumn in Rows(f.records)[k]
                             && Rows(f.records)[k][TimestampColumn] == r.value.timestamp.value
  {
    match ReadLatest(f)
    case Raised(e) => Raised(e)
    case Ok(None) => Ok(View(base, None))
    case Ok(Some(row)) =>
      if |row| == 0 then Ok(View(base, None))
      else Ok(View(Merge(base, Some(row)), if TimestampColumn in row then Some(row[TimestampColumn]) else None))
  }

  /** Merging a row built from counts sets every floor's occupancy to its count. */
  lemma {:induction false} MergeBuiltRow(libs: seq<Library>, stamp: string, counts: seq<int>)
    requires NamesDistinct(libs) && forall i :: 0 <= i < |libs| ==> NumberedFromOne(libs[i])
    requires |counts| == FloorCount(libs)
    ensures forall k :: 0 <= k < |Slots(libs)| ==>
              Merge(libs, Some(BuildRow(stamp, libs, counts)))[Slots(libs)[k].lib].floors[Slots(libs)[k].index].occupied
              == counts[k]
  {
    forall k | 0 <= k < |Slots(libs)|
      ensures Merge(libs, Some(BuildRow(stamp, libs, counts)))[Slots(libs)[k].lib].floors[Slots(libs)[k].index].occupied
              == counts[k]
    {
      MergeBuiltCell(libs, stamp, counts, k);
    }
  }

  lemma {:induction false} MergeBuiltCell(libs: seq<Library>, stamp: string, counts: seq<int>, k: nat)
    requires NamesDistinct(libs) && forall i :: 0 <= i < |libs| ==> NumberedFromOne(libs[i])
    requires |counts| == FloorCount(libs) && k < |Slots(libs)|
    ensures Merge(libs, Some(BuildRow(stamp, libs, counts)))[Slots(libs)[k].lib].floors[Slots(libs)[k].index].occupied
            == counts[k]
  {
    var s := Slots(libs)[k];
    BuildRowCell(stamp, libs, counts, k);
    MergeDecimalCell(libs, BuildRow(stamp, libs, counts), s.lib, s.index, counts[k]);
  }

  /** A floor whose column holds the decimal text of `n` gets occupancy `n`. */
  lemma {:induction false} MergeDecimalCell(libs: seq<Library>, row: Row, i: nat, j: nat, n: int)
    requires i < |libs| && j < |libs[i].floors|
    requires var col := ColumnName(libs[i].name, libs[i].floors[j].number); col in row && row[col] == Decimal(n)
    ensures Merge(libs, Some(row))[i].floors[j].occupied == n
  {
    ParseDecimalRoundTrip(n);
    MergeReadsColumn(libs, row, i, j);
  }

  /**
   * What the producers write is what the page shows: after a row of counts
   * is appended to a log this catalog wrote (or to none), the page loads that
   * row's timestamp and every floor's count as its occupancy.
   */
  lemma {:induction false} AppendThenLoad(libs: seq<Library>, f: File, stamp: string, counts: seq<int>)
    requires NamesDistinct(libs) && forall i :: 0 <= i < |libs| ==> NumberedFromOne(libs[i])
    requires |counts| == FloorCount(libs)
    requires AllFit(ExistingRows(f), Header(libs))
    ensures var v := LoadLibraries(libs, AppendRow(f, BuildRow(stamp, libs, counts), Header(libs)));
            && v.Ok? && v.value.timestamp == Some(stamp)
            && v.value.libraries == Merge(libs, Some(BuildRow(stamp, libs, counts)))
  {
    var row := BuildRow(stamp, libs, counts);
    LatestOfBuiltRow(libs, f, stamp, counts);
    BuildRowStamp(stamp, libs, counts);
    LoadOfLatest(libs, AppendRow(f, row, Header(libs)), row);
  }

  /** A latest row carrying a timestamp is merged and its timestamp shown. */
  lemma {:induction false} LoadOfLatest(base: seq<Library>, f: File, row: Row)
    requires ReadLatest(f) == Ok(Some(row)) && TimestampColumn in row
    ensures LoadLibraries(base, f) == Ok(View(Merge(base, Some(row)), Some(row[TimestampColumn])))
  {
    assert |row| > 0 by { assert TimestampColumn in row.Keys; }
  }

  lemma {:induction false} LatestOfBuiltRow(libs: seq<Library>, f: File, stamp: string, counts: seq<int>)
    requires NamesDistinct(libs) && forall i :: 0 <= i < |libs| ==> NumberedFromOne(libs[i])
    requires |counts| == FloorCount(libs)
    requires AllFit(ExistingRows(f), Header(libs))
    ensures ReadLatest(AppendRow(f, BuildRow(stamp, libs, counts), Header(libs)))
         == Ok(Some(BuildRow(stamp, libs, counts)))
  {
    var h := Header(libs);
    var row := BuildRow(stamp, libs, counts);
    HeaderDistinct(libs);
    assert Distinct(h);
    LatestAfterAppend(f, row, h);
    CompleteFullRow(h, row);
  }

  // ---------------------------------------------------------------- recommendation

  function Available(lib: Library): int {
    LibraryTotals(lib).available
  }

  /** Library `b` has the most available seats, and is the first library in the list that does. */
  predicate FirstMaximum(libs: seq<Library>, b: nat) {
    && b < |libs|
    && (forall j :: 0 <= j < |libs| ==> Available(libs[j]) <= Available(libs[b]))
    && (forall j :: 0 <= j < b ==> Available(libs[j]) < Available(libs[b]))
  }

  /** A list has at most one first maximum. */
  lemma {:induction false} FirstMaximumUnique(libs: seq<Library>, a: nat, b: nat)
    requires FirstMaximum(libs, a) && FirstMaximum(libs, b)
    ensures a == b
  {
    // Each is at least the other, so neither can come strictly before the other.
    assert Available(libs[a]) == Available(libs[b]);
  }

  /**
   * `max(LIBRARIES, key=available)`: the index of the recommended library,
   * which Python's `max` takes to be the first of the maximal ones; `None`
   * stands for the `ValueError` it raises on an empty list.
   */
  method Recommend(libs: seq<Library>) returns (best: Option<nat>)
    ensures best.None? <==> |libs| == 0
    ensures best.Some? ==> FirstMaximum(libs, best.value)
  {
    if |libs| == 0 {
      return None;
    }
    var b := 0;
    var i := 1;
    while i < |libs|
      invariant 0 <= b < i <= |libs|
      invariant forall j :: 0 <= j < i ==> Available(libs[j]) <= Available(libs[b])
      invariant forall j :: 0 <= j < b ==> Available(libs[j]) < Available(libs[b])
    {
      if Available(libs[i]) > Available(libs[b]) {
        b := i;
      }
      i := i + 1;
    }
    return Some(b);
  }
}
