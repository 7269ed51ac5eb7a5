/**
 * The synthetic producers: `generate_realistic_occupancy` and the snapshot
 * rows built from it (`generate_snapshot_row`, the row of
 * `update_occupancy_csv`, the rows of `generate_batch_occupancy_csv`), and the
 * schedule of `real_time_generate`. The values `random` returns are
 * parameters, so every statement holds for every sequence of draws.
 */
module Synthetic {
  import opened Optional
  import opened Text
  import opened Catalog
  import opened CsvFile
  import opened SnapshotStore
  import opened Snapshot

  /** Python's `int(x)` on a float: truncation toward zero. */
  function Trunc(x: real): (t: int)
    ensures x >= 0.0 ==> 0 <= t && t as real <= x < t as real + 1.0
    ensures x < 0.0 ==> t <= 0 && t as real - 1.0 < x <= t as real
  {
    if x >= 0.0 then x.Floor else -((-x).Floor)
  }

  function Max(a: int, b: int): int {
    if a < b then b else a
  }

  const MinRate: real := 0.20
  const MaxRate: real := 0.90

  /** `max(0.20, min(0.90, rate))`: the target rate kept within realistic bounds. */
  function TargetRate(rate: real): (r: real)
    ensures MinRate <= r <= MaxRate
    ensures MinRate <= rate <= MaxRate ==> r == rate
    ensures rate < MinRate ==> r == MinRate
    ensures MaxRate < rate ==> r == MaxRate
  {
    var capped := if rate < MaxRate then rate else MaxRate;
    if MinRate < capped then capped else MinRate
  }

  /** `max(1, int(capacity * 0.05))`: the half-width of the noise interval. */
  function NoiseBound(capacity: int): (m: int)
    ensures m >= 1 && m >= Trunc(capacity as real * 0.05)
    ensures m == 1 || m == Trunc(capacity as real * 0.05)
  {
    Max(1, Trunc(capacity as real * 0.05))
  }

  /**
   * The values one call of `generate_realistic_occupancy` takes from
   * `random`: a base rate (drawn only when the caller passes none), the
   * variance, and the integer noise.
   */
  datatype Draw = Draw(base: real, variance: real, noise: int)

  /** The ranges `random.uniform` and `random.randint` draw from. */
  predicate DrawInRange(capacity: int, d: Draw) {
    && 0.35 <= d.base <= 0.65
    && -0.15 <= d.variance <= 0.15
    && -NoiseBound(capacity) <= d.noise <= NoiseBound(capacity)
  }

  /** The rate a call works from: the caller's base rate, or the one it draws itself, plus the variance. */
  function Rate(baseRate: Option<real>, d: Draw): real {
    (if baseRate.Some? then baseRate.value else d.base) + d.variance
  }

  /** `int(capacity * target_rate)`: the target occupancy for an unclamped rate. */
  function Target(capacity: int, rate: real): int {
    Trunc(capacity as real * TargetRate(rate))
  }

  /** The occupancy before the final clamp: target plus noise. */
  function RawOccupancy(capacity: int, baseRate: Option<real>, d: Draw): int {
    Target(capacity, Rate(baseRate, d)) + d.noise
  }

  /**
   * `generate_realistic_occupancy(capacity, base_occupancy_rate)`: the target
   * occupancy plus noise, clamped by `max(0, min(capacity, occupied))`.
   */
  function Occupancy(capacity: int, baseRate: Option<real>, d: Draw): (occupied: int)
    ensures 0 <= occupied
    ensures capacity >= 0 ==> occupied <= capacity
    ensures capacity < 0 ==> occupied == 0
  {
    var raw := RawOccupancy(capacity, baseRate, d);
    Max(0, if capacity < raw then capacity else raw)
  }

  /**
   * For a non-negative capacity the clamp returns the valid count nearest the
   * raw occupancy, and the raw occupancy itself whenever it is valid.
   */
  lemma {:induction false} OccupancyIsNearest(capacity: int, baseRate: Option<real>, d: Draw, v: int)
    requires 0 <= capacity && 0 <= v <= capacity
    ensures var raw := RawOccupancy(capacity, baseRate, d);
            var o := Occupancy(capacity, baseRate, d);
            && (0 <= raw <= capacity ==> o == raw)
            && (if o <= raw then raw - o else o - raw) <= (if v <= raw then raw - v else v - raw)
  {
    var raw := RawOccupancy(capacity, baseRate, d);
    var o := Occupancy(capacity, baseRate, d);
    if raw < 0 {
      assert o == 0;
    } else if raw > capacity {
      assert o == capacity;
    } else {
      assert o == raw;
    }
  }

  /** More noise never means fewer people: the clamped count is monotone in the noise draw. */
  lemma {:induction false} OccupancyMonotoneInNoise(capacity: int, baseRate: Option<real>, d1: Draw, d2: Draw)
    requires d1.base == d2.base && d1.variance == d2.variance && d1.noise <= d2.noise
    ensures Occupancy(capacity, baseRate, d1) <= Occupancy(capacity, baseRate, d2)
  {
    assert Rate(baseRate, d1) == Rate(baseRate, d2);
    assert RawOccupancy(capacity, baseRate, d1) <= RawOccupancy(capacity, baseRate, d2);
  }

  /**
   * With a base rate in `[0.35, 0.65]` and a variance in `[-0.15, 0.15]` the
   * unclamped rate already lies in `[0.20, 0.80]`, so in exact arithmetic the
   * `[0.20, 0.90]` clamp never changes it.
   */
  lemma {:induction false} RateClampInactive(capacity: int, d: Draw)
    requires DrawInRange(capacity, d)
    ensures MinRate <= d.base + d.variance <= 0.80
    ensures TargetRate(d.base + d.variance) == d.base + d.variance
  {
  }

  /** With in-range draws and a positive capacity the raw occupancy stays within the noise bound of the truncated target. */
  lemma {:induction false} RawWithinNoise(capacity: int, d: Draw)
    requires 0 < capacity && DrawInRange(capacity, d)
    ensures var t := Trunc(capacity as real * (d.base + d.variance));
            t - NoiseBound(capacity) <= RawOccupancy(capacity, None, d) <= t + NoiseBound(capacity)
  {
    RateClampInactive(capacity, d);
    assert Rate(None, d) == d.base + d.variance;
    assert Target(capacity, Rate(None, d)) == Trunc(capacity as real * (d.base + d.variance));
  }

  // ---------------------------------------------------------------- snapshot rows

  /**
   * The draws of one snapshot: one base rate per library (`library_base_rate`)
   * and one floor draw per floor, in catalog order.
   */
  datatype SnapshotDraws = SnapshotDraws(rates: seq<real>, floors: seq<Draw>)

  predicate Covers(libs: seq<Library>, sd: SnapshotDraws) {
    |sd.rates| == |libs| && |sd.floors| == FloorCount(libs)
  }

  /** Every floor's count, all floors of a library sharing that library's base rate. */
  function SnapshotCounts(libs: seq<Library>, sd: SnapshotDraws): (counts: seq<int>)
    requires Covers(libs, sd)
    ensures |counts| == FloorCount(libs)
    ensures forall k :: 0 <= k < |counts| ==>
              && 0 <= counts[k]
              && (Slots(libs)[k].floor.capacity >= 0 ==> counts[k] <= Slots(libs)[k].floor.capacity)
              && counts[k] == Occupancy(Slots(libs)[k].floor.capacity, Some(sd.rates[Slots(libs)[k].lib]), sd.floors[k])
  {
    var slots := Slots(libs);
    seq(|slots|, k requires 0 <= k < |slots| =>
      Occupancy(slots[k].floor.capacity, Some(sd.rates[slots[k].lib]), sd.floors[k]))
  }

  /** `generate_snapshot_row(timestamp)`, with the timestamp already rendered by `isoformat()`. */
  function GenerateSnapshotRow(libs: seq<Library>, stamp: string, sd: SnapshotDraws): (row: Row)
    requires Covers(libs, sd)
    ensures row.Keys == NameSet(Header(libs))
  {
    BuildRow(stamp, libs, SnapshotCounts(libs, sd))
  }

  /**
   * In a catalog with distinct names and floors numbered from one, a
   * generated row carries the timestamp, and every floor's cell reads back
   * through `int()` as a count between zero and that floor's capacity.
   */
  lemma {:induction false} SnapshotRowCells(libs: seq<Library>, stamp: string, sd: SnapshotDraws)
    requires Covers(libs, sd)
    requires NamesDistinct(libs) && forall i :: 0 <= i < |libs| ==> NumberedFromOne(libs[i])
    ensures GenerateSnapshotRow(libs, stamp, sd)[TimestampColumn] == stamp
    ensures forall k :: 0 <= k < |Slots(libs)| ==>
              && ParseInt(GenerateSnapshotRow(libs, stamp, sd)[SlotColumn(Slots(libs)[k])]) == Some(SnapshotCounts(libs, sd)[k])
              && 0 <= SnapshotCounts(libs, sd)[k]
              && (Slots(libs)[k].floor.capacity >= 0 ==> SnapshotCounts(libs, sd)[k] <= Slots(libs)[k].floor.capacity)
  {
    var counts := SnapshotCounts(libs, sd);
    BuildRowCells(stamp, libs, counts);
    forall k | 0 <= k < |Slots(libs)|
      ensures ParseInt(GenerateSnapshotRow(libs, stamp, sd)[SlotColumn(Slots(libs)[k])]) == Some(counts[k])
    {
      ParseDecimalRoundTrip(counts[k]);
    }
  }

  /** The row `update_occupancy_csv` builds, appended without a cap: a fresh file gets the header first. */
  function UpdateOccupancyCsv(libs: seq<Library>, f: File, stamp: string, sd: SnapshotDraws): (r: File)
    requires Covers(libs, sd)
    ensures f.Missing? ==> r.Csv? && |r.records| == 2 && r.records[0] == Header(libs)
    ensures f.Csv? ==> r.Csv? && |r.records| == |f.records| + 1 && r.records[..|f.records|] == f.records
    ensures f.Csv? ==> r.records[|f.records|] == Encode(Header(libs), GenerateSnapshotRow(libs, stamp, sd))
  {
    AppendUncapped(f, GenerateSnapshotRow(libs, stamp, sd), Header(libs))
  }

  // ---------------------------------------------------------------- batch

  /** The time of batch row `k`: the start advanced by `interval` seconds `k` times, as the loop's running timestamp is. */
  function Stamp(start: int, interval: int, k: nat): (t: int)
    ensures t == start + k * interval
  {
    if k == 0 then start
    else
      var t := Stamp(start, interval, k - 1) + interval;
      assert k * interval == (k - 1) * interval + interval;
      t
  }

  /**
   * `generate_batch_occupancy_csv`: `numRows` rows whose timestamps start at
   * `start` and advance by `interval` seconds each (`iso` renders a time), the
   * whole file then overwritten with the header and those rows.
   */
  method GenerateBatch(libs: seq<Library>, numRows: int, start: int, interval: int,
                       iso: int -> string, draws: seq<SnapshotDraws>)
    returns (rows: seq<Row>, log: File)
    requires numRows <= |draws|
    requires forall i :: 0 <= i < |draws| ==> Covers(libs, draws[i])
    ensures |rows| == Max(0, numRows)
    ensures forall i :: 0 <= i < |rows| ==> rows[i] == GenerateSnapshotRow(libs, iso(Stamp(start, interval, i)), draws[i])
    ensures AllFit(rows, Header(libs))
    ensures log == Write(Header(libs), rows)
  {
    var stamps := BatchStamps(numRows, start, interval, iso);
    rows := Produced(libs, stamps, draws, |stamps|);
    ProducedAt(libs, stamps, draws, start, interval, iso);
    log := Write(Header(libs), rows);
  }

  /** The timestamps of the batch loop: `current_time` rendered, then advanced by one interval, `numRows` times. */
  method BatchStamps(numRows: int, start: int, interval: int, iso: int -> string) returns (stamps: seq<string>)
    ensures |stamps| == Max(0, numRows)
    ensures forall j :: 0 <= j < |stamps| ==> stamps[j] == iso(Stamp(start, interval, j))
  {
    stamps := [];
    var current := start;
    var i := 0;
    while i < numRows
      invariant 0 <= i <= Max(0, numRows) && |stamps| == i
      invariant current == Stamp(start, interval, i)
      invariant forall j :: 0 <= j < i ==> stamps[j] == iso(Stamp(start, interval, j))
    {
      StampsStep(stamps, start, interval, iso, current);
      stamps := stamps + [iso(current)];
      current := current + interval;
      i := i + 1;
    }
  }

  /** One more pass of the batch loop keeps the rendered timestamps in step with `Stamp`. */
  lemma {:induction false} StampsStep(stamps: seq<string>, start: int, interval: int, iso: int -> string, current: int)
    requires current == Stamp(start, interval, |stamps|)
    requires forall j :: 0 <= j < |stamps| ==> stamps[j] == iso(Stamp(start, interval, j))
    ensures current + interval == Stamp(start, interval, |stamps| + 1)
    ensures forall j :: 0 <= j < |stamps| + 1 ==> (stamps + [iso(current)])[j] == iso(Stamp(start, interval, j))
  {
    var next := stamps + [iso(current)];
    forall j | 0 <= j < |next| ensures next[j] == iso(Stamp(start, interval, j)) {
      if j < |stamps| {
        assert next[j] == stamps[j];
      }
    }
  }

  /** Rows produced from the batch timestamps carry those timestamps, one per row in order. */
  lemma {:induction false} ProducedAt(libs: seq<Library>, stamps: seq<string>, draws: seq<SnapshotDraws>,
                                     start: int, interval: int, iso: int -> string)
    requires |stamps| <= |draws| && forall i :: 0 <= i < |draws| ==> Covers(libs, draws[i])
    requires forall j :: 0 <= j < |stamps| ==> stamps[j] == iso(Stamp(start, interval, j))
    ensures forall i :: 0 <= i < |stamps| ==>
              Produced(libs, stamps, draws, |stamps|)[i] == GenerateSnapshotRow(libs, iso(Stamp(start, interval, i)), draws[i])
  {
  }

  /** Reading the batch file back gives exactly the generated rows, in order. */
  lemma {:induction false} BatchReadsBack(libs: seq<Library>, rows: seq<Row>)
    requires NamesDistinct(libs) && forall i :: 0 <= i < |libs| ==> NumberedFromOne(libs[i])
    requires forall i :: 0 <= i < |rows| ==> rows[i].Keys == NameSet(Header(libs))
    ensures AllFit(rows, Header(libs))
    ensures Rows(Write(Header(libs), rows).records) == rows
  {
    HeaderDistinct(libs);
    WriteThenRead(Header(libs), rows);
    CompleteAllFull(Header(libs), rows);
  }

  // ---------------------------------------------------------------- real-time schedule

  /** What the real-time generator does, in order: wait, or generate one snapshot and append it to the log. */
  datatype Event = Sleep(seconds: int) | Snapshot(row: Row)

  /** How a run ends: stopped by the user, or by an exception that escaped the loop. */
  datatype Outcome = Stopped | LastTimestampRaised(error: Escape) | AppendRaised

  /**
   * The events of a run that appended `rows`: the first snapshot at once,
   * every later one after a sleep of `interval` seconds.
   */
  function Schedule(rows: seq<Row>, interval: int): (events: seq<Event>)
    ensures |events| == (if |rows| == 0 then 0 else 2 * |rows| - 1)
  {
    if |rows| == 0 then []
    else if |rows| == 1 then [Snapshot(rows[0])]
    else Schedule(rows[..|rows| - 1], interval) + [Sleep(interval), Snapshot(rows[|rows| - 1])]
  }

  /** The schedule of one more row: a sleep unless it is the first, then its snapshot. */
  lemma {:induction false} ScheduleStep(rows: seq<Row>, i: nat, interval: int)
    requires i < |rows|
    ensures Schedule(rows[..i + 1], interval)
         == Schedule(rows[..i], interval) + (if i == 0 then [] else [Sleep(interval)]) + [Snapshot(rows[i])]
  {
    assert rows[..i + 1][..i] == rows[..i];
  }

  /** Snapshot `j` sits at position `2j`, and the sleep before it (for `j > 0`) at `2j - 1`. */
  lemma {:induction false} ScheduleShape(rows: seq<Row>, interval: int)
    ensures forall j :: 0 <= j < |rows| ==> Schedule(rows, interval)[2 * j] == Snapshot(rows[j])
    ensures forall j :: 0 < j < |rows| ==> Schedule(rows, interval)[2 * j - 1] == Sleep(interval)
    decreases |rows|
  {
    if |rows| > 1 {
      var front := rows[..|rows| - 1];
      ScheduleShape(front, interval);
      var e := Schedule(rows, interval);
      assert e[..2 * |front| - 1] == Schedule(front, interval);
      forall j | 0 <= j < |front| ensures e[2 * j] == Snapshot(rows[j]) {
        assert e[2 * j] == Schedule(front, interval)[2 * j];
      }
      forall j | 0 < j < |front| ensures e[2 * j - 1] == Sleep(interval) {
        assert e[2 * j - 1] == Schedule(front, interval)[2 * j - 1];
      }
    }
  }

  /** The rows the first `n` loop turns generate. */
  function Produced(libs: seq<Library>, stamps: seq<string>, draws: seq<SnapshotDraws>, n: nat): (rows: seq<Row>)
    requires n <= |stamps| && n <= |draws|
    requires forall i :: 0 <= i < |draws| ==> Covers(libs, draws[i])
    ensures |rows| == n && AllFit(rows, Header(libs))
    ensures forall i :: 0 <= i < n ==> rows[i] == GenerateSnapshotRow(libs, stamps[i], draws[i])
  {
    seq(n, i requires 0 <= i < n => GenerateSnapshotRow(libs, stamps[i], draws[i]))
  }

  /** Steps applied one after another from `start`, stopping at the first that fails. */
  function Fold<S, X, E>(start: S, xs: seq<X>, step: (S, X) -> Result<S, E>): (r: Result<S, E>)
    ensures r.Raised? ==> 0 < |xs|
  {
    if |xs| == 0 then Ok(start)
    else
      match Fold(start, xs[..|xs| - 1], step)
      case Raised(e) => Raised(e)
      case Ok(s) => step(s, xs[|xs| - 1])
  }

  lemma {:induction false} FoldStep<S, X, E>(start: S, xs: seq<X>, i: nat, step: (S, X) -> Result<S, E>)
    requires i < |xs|
    ensures Fold(start, xs[..i + 1], step)
         == match Fold(start, xs[..i], step)
            case Raised(e) => Raised(e)
            case Ok(s) => step(s, xs[i])
  {
    assert xs[..i + 1][..i] == xs[..i];
  }

  /** Once a step failed the run is over: the fold over any longer list ends in the same failure. */
  lemma {:induction false} RaisedStays<S, X, E>(start: S, xs: seq<X>, k: nat, step: (S, X) -> Result<S, E>)
    requires k <= |xs| && Fold(start, xs[..k], step).Raised?
    ensures Fold(start, xs, step) == Fold(start, xs[..k], step)
    decreases |xs|
  {
    if k < |xs| {
      var n := |xs| - 1;
      assert xs[..n][..k] == xs[..k];
      RaisedStays(start, xs[..n], k, step);
    } else {
      assert xs[..k] == xs;
    }
  }

  /**
   * The capped appends of `rows`, one after another, stopping at the first that
   * raises. `writable` says whether the process may write the log during the
   * run; a read-only file reads fine but makes every append raise.
   */
  function AppendAll(f: File, rows: seq<Row>, fieldnames: seq<string>, writable: bool): Result<File, File> {
    Fold(f, rows, AppendStep(fieldnames, writable))
  }

  /** One capped append as a step of the fold. */
  function AppendStep(fieldnames: seq<string>, writable: bool): (File, Row) -> Result<File, File> {
    (g: File, row: Row) => TryAppendRow(g, row, fieldnames, writable)
  }

  /** While no append has raised, the next one continues from the file the previous ones left. */
  lemma {:induction false} AppendAllStep(f: File, rows: seq<Row>, i: nat, fieldnames: seq<string>, writable: bool, log: File)
    requires i < |rows| && AppendAll(f, rows[..i], fieldnames, writable) == Ok(log)
    ensures AppendAll(f, rows[..i + 1], fieldnames, writable) == TryAppendRow(log, rows[i], fieldnames, writable)
  {
    FoldStep(f, rows, i, AppendStep(fieldnames, writable));
  }

  /** An append that raised ends the run with that failure. */
  lemma {:induction false} AppendAllStops(f: File, rows: seq<Row>, k: nat, fieldnames: seq<string>, writable: bool)
    requires k <= |rows| && AppendAll(f, rows[..k], fieldnames, writable).Raised?
    ensures AppendAll(f, rows, fieldnames, writable) == AppendAll(f, rows[..k], fieldnames, writable)
  {
    RaisedStays(f, rows, k, AppendStep(fieldnames, writable));
  }

  /**
   * When the log may be written and every prior and new row fits, no append
   * raises and the fold is the plain sequence of capped appends.
   */
  lemma {:induction false} AppendAllFits(f: File, rows: seq<Row>, fieldnames: seq<string>)
    requires AllFit(rows, fieldnames) && AllFit(ExistingRows(f), fieldnames)
    ensures AppendAll(f, rows, fieldnames, true) == Ok(AppendMany(f, rows, fieldnames))
    decreases |rows|
  {
    if |rows| > 0 {
      var n := |rows| - 1;
      assert AllFit(rows[..n], fieldnames);
      AppendAllFits(f, rows[..n], fieldnames);
      var g := AppendMany(f, rows[..n], fieldnames);
      assert TryAppendRow(g, rows[n], fieldnames, true) == Ok(AppendRow(g, rows[n], fieldnames));
    }
  }

  /** When the log may not be written, the first append raises `OSError` and leaves the file as it was. */
  lemma {:induction false} UnwritableFirstRaises(f: File, rows: seq<Row>, fieldnames: seq<string>)
    requires 0 < |rows|
    ensures AppendAll(f, rows, fieldnames, false) == Raised(f)
  {
    assert rows[..0] == [];
    AppendAllStep(f, rows, 0, fieldnames, false, f);
    AppendAllStops(f, rows, 1, fieldnames, false);
  }

  /** After at least one successful append the log was writable and carries the header it was written with. */
  lemma {:induction false} AppendAllHeader(f: File, rows: seq<Row>, fieldnames: seq<string>, writable: bool)
    requires 0 < |rows| && AppendAll(f, rows, fieldnames, writable).Ok?
    ensures var log := AppendAll(f, rows, fieldnames, writable).value;
            writable && log.Csv? && |log.records| > 0 && log.records[0] == fieldnames
  {
    var n := |rows| - 1;
    FoldStep(f, rows, n, AppendStep(fieldnames, writable));
    assert rows[..n + 1] == rows;
  }

  /**
   * Only the first append can raise: after it the log carries the
   * generator's own header, under which every generated row fits.
   */
  lemma {:induction false} OnlyFirstAppendRaises(f: File, rows: seq<Row>, fieldnames: seq<string>, writable: bool)
    requires AllFit(rows, fieldnames) && 0 < |rows|
    ensures AppendAll(f, rows, fieldnames, writable).Raised? ==> AppendAll(f, rows[..1], fieldnames, writable).Raised?
    decreases |rows|
  {
    var n := |rows| - 1;
    if n == 0 {
      assert rows[..1] == rows;
    } else {
      if AppendAll(f, rows[..n], fieldnames, writable).Ok? {
        LaterAppendSucceeds(f, rows, fieldnames, writable);
      } else {
        assert AllFit(rows[..n], fieldnames);
        OnlyFirstAppendRaises(f, rows[..n], fieldnames, writable);
        assert rows[..n][..1] == rows[..1];
      }
    }
  }

  /** The append that raises, when one does, is the first of the run. */
  lemma {:induction false} RaisesOnlyFirst(f: File, rows: seq<Row>, i: nat, fieldnames: seq<string>, writable: bool)
    requires AllFit(rows, fieldnames) && i < |rows|
    requires AppendAll(f, rows[..i], fieldnames, writable).Ok?
    ensures AppendAll(f, rows[..i + 1], fieldnames, writable).Raised? ==> i == 0
  {
    if i > 0 {
      assert rows[..i + 1][..i] == rows[..i];
      LaterAppendSucceeds(f, rows[..i + 1], fieldnames, writable);
    }
  }

  /** An append that raises is the first of the run: its failure is the run's, after one snapshot. */
  lemma {:induction false} RaiseEndsRun(f: File, rows: seq<Row>, i: nat, fieldnames: seq<string>, writable: bool, log: File,
                                         interval: int, events: seq<Event>)
    requires AllFit(rows, fieldnames) && i < |rows|
    requires AppendAll(f, rows[..i], fieldnames, writable) == Ok(log)
    requires TryAppendRow(log, rows[i], fieldnames, writable).Raised?
    requires events == Schedule(rows[..i], interval) + (if i == 0 then [] else [Sleep(interval)]) + [Snapshot(rows[i])]
    ensures AppendAll(f, rows, fieldnames, writable) == Raised(TryAppendRow(log, rows[i], fieldnames, writable).error)
    ensures events == [Snapshot(rows[0])]
  {
    AppendAllStep(f, rows, i, fieldnames, writable, log);
    AppendAllStops(f, rows, i + 1, fieldnames, writable);
    RaisesOnlyFirst(f, rows, i, fieldnames, writable);
  }

  /** An append after a successful one, of a row that fits, succeeds too. */
  lemma {:induction false} LaterAppendSucceeds(f: File, rows: seq<Row>, fieldnames: seq<string>, writable: bool)
    requires 1 < |rows| && Fits(rows[|rows| - 1], fieldnames)
    requires AppendAll(f, rows[..|rows| - 1], fieldnames, writable).Ok?
    ensures AppendAll(f, rows, fieldnames, writable).Ok?
  {
    var n := |rows| - 1;
    var prev := AppendAll(f, rows[..n], fieldnames, writable).value;
    AppendAllHeader(f, rows[..n], fieldnames, writable);
    AppendAllStep(f, rows, n, fieldnames, writable, prev);
    AppendToOwnLog(prev, rows[n], fieldnames);
    assert rows[..n + 1] == rows;
  }

  /** Once the log was written under `fieldnames`, a fitting row appends without raising while the log may be written. */
  lemma {:induction false} AppendToOwnLog(log: File, row: Row, fieldnames: seq<string>)
    requires log.Csv? && |log.records| > 0 && log.records[0] == fieldnames && Fits(row, fieldnames)
    ensures TryAppendRow(log, row, fieldnames, true) == Ok(AppendRow(log, row, fieldnames))
  {
    assert AllFit(ExistingRows(log), log.records[0]);
  }

  /**
   * The `while running` loop of `real_time_generate` over the rows it
   * generates: the first row is appended at once, every later one after a
   * sleep; an exception from the append escapes the loop and ends the run.
   */
  method RunLoop(f: File, rows: seq<Row>, fieldnames: seq<string>, writable: bool, interval: int)
    returns (events: seq<Event>, log: File, outcome: Outcome)
    requires AllFit(rows, fieldnames)
    ensures outcome == Stopped || outcome == AppendRaised
    ensures outcome == Stopped <==> AppendAll(f, rows, fieldnames, writable).Ok?
    ensures outcome == Stopped ==> log == AppendAll(f, rows, fieldnames, writable).value && events == Schedule(rows, interval)
    ensures outcome == AppendRaised ==>
              && log == AppendAll(f, rows, fieldnames, writable).error
              && 0 < |rows| && events == [Snapshot(rows[0])]
  {
    events, log, outcome := [], f, Stopped;
    var firstRun := true;
    var i := 0;
    assert rows[..0] == [];
    while i < |rows|
      invariant 0 <= i <= |rows|
      invariant firstRun <==> i == 0
      invariant events == Schedule(rows[..i], interval)
      invariant AppendAll(f, rows[..i], fieldnames, writable) == Ok(log)
    {
      var pause: seq<Event> := [];
      if firstRun {
        firstRun := false;
      } else {
        pause := [Sleep(interval)];
      }
      var appended := TryAppendRow(log, rows[i], fieldnames, writable);
      if appended.Raised? {
        RaiseEndsRun(f, rows, i, fieldnames, writable, log, interval, events + pause + [Snapshot(rows[i])]);
        return events + pause + [Snapshot(rows[i])], appended.error, AppendRaised;
      }
      AppendAllStep(f, rows, i, fieldnames, writable, log);
      log := appended.value;
      ScheduleStep(rows, i, interval);
      events := events + pause + [Snapshot(rows[i])];
      i := i + 1;
    }
    assert rows[..|rows|] == rows;
  }

  /**
   * `real_time_generate`, stopped after `turns` turns of its loop: the last
   * timestamp is read once up front (an exception there ends the run before any
   * snapshot), then the loop appends one generated snapshot per turn.
   * `stamps` are the clock readings, `parseIso` is `datetime.fromisoformat`,
   * and `writable` says whether the process may write the log.
   */
  method RealTimeGenerate<T>(libs: seq<Library>, f: File, writable: bool, interval: int, turns: nat,
                             stamps: seq<string>, draws: seq<SnapshotDraws>, parseIso: string -> Option<T>)
    returns (events: seq<Event>, log: File, outcome: Outcome)
    requires turns <= |stamps| && turns <= |draws|
    requires forall i :: 0 <= i < |draws| ==> Covers(libs, draws[i])
    ensures GetLastTimestamp(f, parseIso).Raised? <==> outcome.LastTimestampRaised?
    ensures GetLastTimestamp(f, parseIso).Raised? ==>
              outcome == LastTimestampRaised(GetLastTimestamp(f, parseIso).error) && events == [] && log == f
    ensures GetLastTimestamp(f, parseIso).Ok? ==>
              var run := AppendAll(f, Produced(libs, stamps, draws, turns), Header(libs), writable);
              && (outcome == Stopped <==> run.Ok?)
              && (outcome == Stopped ==> log == run.value && events == Schedule(Produced(libs, stamps, draws, turns), interval))
              && (outcome == AppendRaised ==>
                    log == run.error && 0 < turns && events == [Snapshot(Produced(libs, stamps, draws, turns)[0])])
    ensures GetLastTimestamp(f, parseIso).Ok? && writable && AllFit(ExistingRows(f), Header(libs)) ==>
              outcome == Stopped && log == AppendMany(f, Produced(libs, stamps, draws, turns), Header(libs))
    ensures GetLastTimestamp(f, parseIso).Ok? && !writable && 0 < turns ==>
              outcome == AppendRaised && log == f && events == [Snapshot(Produced(libs, stamps, draws, turns)[0])]
  {
    var last := GetLastTimestamp(f, parseIso);
    if last.Raised? {
      return [], f, LastTimestampRaised(last.error);
    }
    var rows := Produced(libs, stamps, draws, turns);
    events, log, outcome := RunLoop(f, rows, Header(libs), writable, interval);
    if writable && AllFit(ExistingRows(f), Header(libs)) {
      AppendAllFits(f, rows, Header(libs));
    }
    if !writable && 0 < turns {
      UnwritableFirstRaises(f, rows, Header(libs));
    }
  }

  /**
   * However long the generator runs on a log it may write, no append raises
   * and the log it leaves holds the last 500 of the prior and generated rows.
   */
  lemma {:induction false} RealTimeKeepsLast(libs: seq<Library>, f: File, stamps: seq<string>,
                                            draws: seq<SnapshotDraws>, turns: nat)
    requires turns <= |stamps| && turns <= |draws|
    requires forall i :: 0 <= i < |draws| ==> Covers(libs, draws[i])
    requires NamesDistinct(libs) && forall i :: 0 <= i < |libs| ==> NumberedFromOne(libs[i])
    requires AllFit(ExistingRows(f), Header(libs)) && 0 < turns
    ensures var run := AppendAll(f, Produced(libs, stamps, draws, turns), Header(libs), true);
            && run.Ok? && run.value.Csv?
            && Rows(run.value.records) == Prune(CompleteAll(Header(libs), ExistingRows(f) + Produced(libs, stamps, draws, turns)))
  {
    HeaderDistinct(libs);
    WritableRunKeepsLast(f, Produced(libs, stamps, draws, turns), Header(libs));
  }

  /** A run of fitting appends to a log it may write keeps the last 500 of the prior and new rows. */
  lemma {:induction false} WritableRunKeepsLast(f: File, rows: seq<Row>, fieldnames: seq<string>)
    requires |fieldnames| > 0 && Distinct(fieldnames)
    requires 0 < |rows| && AllFit(rows, fieldnames) && AllFit(ExistingRows(f), fieldnames)
    ensures var run := AppendAll(f, rows, fieldnames, true);
            && run.Ok? && run.value.Csv?
            && Rows(run.value.records) == Prune(CompleteAll(fieldnames, ExistingRows(f) + rows))
  {
    AppendAllFits(f, rows, fieldnames);
    AppendManyKeepsLast(f, rows, fieldnames);
  }
}
