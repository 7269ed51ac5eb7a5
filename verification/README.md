# Library seat tracking: a Dafny model of the occupancy log and its readers

The dashboard counts the people on each floor of seven campus libraries and
shows how many seats are free. It is built from three kinds of part that meet
only in one CSV file, `data/library_occupancy.csv`:

- **Producers** append snapshot rows to that file. Each row has a `timestamp`
  cell and one count per library floor.
  - The synthetic producers (`rand_gen.py`, `real_time_gen.py`) draw a random
    occupancy per floor and clamp it to the floor's capacity.
  - The vision producer (`people_counter.py`) runs a person detector over one
    camera frame per floor. It multiplies each count by 8, clamps it to the
    floor's capacity, and cycles through frames 1 to 9.
- **The rolling log.** The capped append re-reads the whole file, adds the row,
  keeps the last 500 rows and rewrites the file under the catalog's header.
  `update_occupancy_csv` instead appends without a cap.
- **The availability page** (`GUI/pages/1_Availability.py`) reads the log.
  - It joins the latest row to the static catalog by the derived column name
    `"{library} Floor {n}"`.
  - It sums capacity, occupancy and free seats per library.
  - It grades each rate as Low, Medium or High.
  - It recommends the first library with the most free seats.
- **The room-reservation page** (`GUI/pages/2_RoomReservation.py`) loads
  accounts from a credentials CSV and checks logins against them.

## How the model is organised

| module | file | what it holds |
|---|---|---|
| `Optional` | `optional.dfy` | `Option` and `Result` (an exception that escapes is `Raised`) |
| `Text` | `text.dfy` | `str.strip()`, `str(int)` and `int(str)` |
| `CsvFile` | `csv_file.dfy` | a file as records; `DictReader` and `DictWriter`; the write-then-read round trip |
| `Catalog` | `catalog.dfy` | libraries, floors, derived column names, header, seat sums, well-formedness |
| `LibConfig` | `lib_config.dfy` | the `LIBRARIES` constant and the facts proved about it |
| `Snapshot` | `snapshot.dfy` | the snapshot row both producer families build |
| `SnapshotStore` | `snapshot_store.dfy` | capped append (500 rows), uncapped append, `get_latest_occupancy_from_csv`, `get_last_timestamp` |
| `Synthetic` | `synthetic.dfy` | `generate_realistic_occupancy`, snapshot rows, batch generation, the real-time loop |
| `Vision` | `vision.dfy` | image batch, capacity clamp, count filling, frame cycle, one tick of the counter loop |
| `Availability` | `availability.dfy` | status levels, totals, the join of the log to the catalog, page load, recommendation |
| `Credentials` | `credentials.dfy` | `load_credentials`, `verify_credentials`, `get_user_info`, the login form |

Everything outside the program is a parameter:

- **Files** are values: `Missing`, `Unreadable(error)` or `Csv(records)`.
  The error is named by the Python exception class it raises.
- **Permission to write the log** is a flag passed in. It does not follow from
  the read: a read-only file reads fine but cannot be rewritten.
- **Random draws** are parameters kept in the documented ranges.
- **The detector** is a function from image to person count, plus a flag for an
  inference call that raises.
- **Clock readings and ISO formatting** are strings passed in.
- **`datetime.fromisoformat`** is a parsing function passed in.
- **Which image files exist** is a set.

### Behaviour worth knowing

- **Empty or absent log.** The page falls back to `LIBRARIES_BASE`, which
  carries the configuration's static `occupied` figures (`Availability.LoadLibraries`).
- **Missing column.** The capped append writes an empty cell for a column the
  row lacks (`DictWriter`'s `restval` is `""`). The view then cannot parse that
  cell and keeps the static figure. Only the vision producer fills missing
  counts with `0` before it appends.
- **Surplus fields.** A record longer than its header makes `DictReader` put the
  extra fields under the key `None`, and the capped append's `DictWriter` then
  raises `ValueError`. An uncapped append of a wider row can leave such a record
  in the log.
- **Log that may not be written.** The capped append swallows every exception
  of its read but not the `OSError` of `open(csv_file, 'w')`. On a read-only
  file or a directory every append raises. The real-time generator ends with
  that exception at its first append (`Synthetic.RealTimeGenerate`). The people
  counter catches it, retries the same frame forever and writes nothing
  (`Vision.UnwritableLogNeverAdvances`).
- **`get_latest_occupancy_from_csv` can raise.** A `csv.Error` is not among the
  exceptions it catches (`SnapshotStore.ReadLatest`).
- **Other escaping exceptions.**
  - `get_last_timestamp` lets `OSError`, `csv.Error` and the `TypeError` of a
    `None` timestamp cell escape.
  - `load_credentials` lets `csv.Error` and the `AttributeError` of a `None`
    cell escape.
  - In both cases the model returns `Raised`.

## Model

| member | source | states |
|---|---|---|
| Text.Strip | GUI/pages/2_RoomReservation.py:24-29 | `str.strip()` never lengthens a string, and its result neither starts nor ends with whitespace |
| Text.StripRemovesOnlySpace | GUI/pages/2_RoomReservation.py:24-29 | the strip is the infix left after the leading and trailing whitespace, and everything removed on either side is whitespace |
| Text.StripIdempotent | GUI/pages/2_RoomReservation.py:24 | stripping a stripped user name again changes nothing |
| Text.Decimal | GUI/pages/1_Availability.py:118 | `str(n)` is non-empty, has no whitespace at either end, and is all digits for `n >= 0` |
| Text.ParseInt | GUI/pages/1_Availability.py:118-122 | a string parses only if it holds a digit, and an all-whitespace string does not parse |
| Text.SeparatorRejected | GUI/pages/1_Availability.py:118-122 | a cell that starts or ends with a U+001C..U+001F separator does not parse, although `strip()` would remove it |
| Text.ParseDecimalRoundTrip | GUI/pages/1_Availability.py:118 | `int(str(n)) == n`: every count a producer writes reads back as the same count |
| Text.DecimalInjective | src/rand_gen.py:64 | distinct floor numbers have distinct decimal renderings |
| CsvFile.Rows | src/people_counter.py:39-40 | the rows after the header are one fewer than the records, fit the header, and a file of at most one record has none |
| CsvFile.Encode | src/people_counter.py:53-56 | a written record has one field per header name: the row's value, or `""` when the row has none |
| CsvFile.Write | src/people_counter.py:53-56 | a written file starts with the header and holds one record per row |
| CsvFile.Decode | src/people_counter.py:39-40 | a `DictReader` row only ever holds header names as keys |
| CsvFile.ZipValues | src/people_counter.py:39-40 | pairing distinct header names with fields maps each name to the field at its position |
| CsvFile.DecodeFull | src/people_counter.py:39-40 | a record as long as a header of distinct names maps each header name to the field at its position |
| CsvFile.DecodeEncoded | src/people_counter.py:53-56 | reading one written record back gives the row with every field present and `""` where the row had no value |
| CsvFile.WriteThenRead | src/people_counter.py:53-56 | reading back a file `DictWriter` wrote gives exactly the written rows, in order, each completed with `""` |
| Catalog.ColumnName | src/rand_gen.py:64 | a column name starts with the library name followed by a space |
| Catalog.ColumnNameInjective | src/rand_gen.py:64 | two (library, floor) pairs share a column name only if they are the same pair |
| Catalog.ColumnNameIsNotTimestamp | src/rand_gen.py:61-65 | no floor column is called `timestamp` |
| Catalog.Slots | src/rand_gen.py:62-63 | there is one slot per floor of the catalog, and each carries its own library's name and floor record |
| Catalog.SlotsOrdered | src/rand_gen.py:62-63 | the slots run library by library, and floor by floor within a library |
| Catalog.SlotAt | src/rand_gen.py:62-63 | floor `j` of library `i` sits at position "floors of the earlier libraries + j" |
| Catalog.Header | src/rand_gen.py:56-66 | the header is `timestamp` followed by one column per floor, in catalog order |
| Catalog.ColumnsDistinct | src/people_counter.py:18-26 | distinct library names and floors numbered from one give distinct columns, none equal to `timestamp` |
| Catalog.HeaderDistinct | src/people_counter.py:18-26 | under the same conditions the header names no column twice |
| LibConfig.CatalogNamesDistinct | src/lib_configs.py:4-69 | the seven library names are pairwise distinct |
| LibConfig.CatalogLibrariesSound | src/lib_configs.py:5-68 | every configured library has floors numbered 1..n, positive capacities, 0 <= occupied <= capacity, and a non-empty address |
| LibConfig.CatalogWellFormed | src/lib_configs.py:4-69 | the catalog has seven libraries and is well formed |
| LibConfig.CatalogTotals | src/lib_configs.py:4-69 | the catalog has 21 floors and 2847 seats |
| LibConfig.CatalogHeader | src/lib_configs.py:4-69 | the header derived from the catalog has 22 distinct columns |
| Snapshot.Columns | src/people_counter.py:158-161 | the floor columns, in catalog order, are the header without its timestamp column |
| Snapshot.BuildRow | src/people_counter.py:154-161 | a snapshot row has exactly the header's columns as keys |
| Snapshot.BuildRowStamp | src/real_time_gen.py:80 | a snapshot row holds the given timestamp under `timestamp` |
| Snapshot.BuildRowCell | src/real_time_gen.py:88-95 | under a floor's column a snapshot row holds that floor's count in decimal |
| Snapshot.BuildRowCells | src/real_time_gen.py:80-95 | a snapshot row holds the given timestamp and, under each floor's column, that floor's count in decimal |
| SnapshotStore.Prune | src/people_counter.py:49-50 | pruning keeps the last `min(n, 500)` rows, a suffix of the input |
| SnapshotStore.PruneSnoc | src/real_time_gen.py:127-131 | pruning after every append equals pruning once at the end |
| SnapshotStore.ExistingRows | src/people_counter.py:35-43 | a missing file or one that fails to read contributes no rows; the rows the model reads fit their header, because surplus fields are dropped |
| SnapshotStore.AppendRow | src/people_counter.py:28-56 | after a capped append that succeeds the file has the header, 1 to 500 data records, and the new row as its last record |
| SnapshotStore.TryAppendRow | src/real_time_gen.py:100-137 | the append succeeds iff the process may write the path and every kept row fits; a success is the rewritten pruned file; without write permission `OSError` leaves the file unchanged, and a `ValueError` leaves a header-led partial file |
| SnapshotStore.AppendKeepsRecentRows | src/people_counter.py:33-56 | the rows read back after an append are the last 500 of old rows plus the new one, completed to the header |
| SnapshotStore.AppendRowCount | src/people_counter.py:46-50 | after an append the file holds `min(n + 1, 500)` rows, `n` being the rows it held |
| SnapshotStore.LastRowAfterAppend | src/people_counter.py:46-56 | the last row read back after an append is the new row, completed to the header |
| SnapshotStore.AppendBelowCap | src/people_counter.py:46-50 | below the cap nothing is pruned: complete old rows plus the new row |
| SnapshotStore.AppendAfterFailedRead | src/people_counter.py:36-56 | when the file is missing or its read raised, the rewritten file holds only the new row |
| SnapshotStore.AppendManyKeepsLast | src/real_time_gen.py:111-137 | after any number of appends the file holds the last 500 of all rows ever written, completed |
| SnapshotStore.ReadLatest | GUI/pages/1_Availability.py:63-82 | raises iff the file hits a `csv.Error`; `None` iff the file is missing, fails with `OSError` or a decode error, or has no rows; otherwise returns the last row of the file |
| SnapshotStore.LatestAfterAppend | GUI/pages/1_Availability.py:74-80 | after a capped append the page's latest row is the appended row, completed |
| SnapshotStore.GetLastTimestamp | src/real_time_gen.py:49-67 | `None` for a missing or empty file or a decode error; `OSError` and `csv.Error` escape; the last row's `timestamp` is parsed when present; a `None` cell under a `timestamp` header escapes |
| SnapshotStore.TimestampAfterAppend | src/real_time_gen.py:54-65 | after an append, the last timestamp found is the appended row's |
| SnapshotStore.AppendUncapped | src/rand_gen.py:103-114 | the uncapped append creates a file with header and row, or extends an existing file by exactly one record, keeping every earlier record |
| SnapshotStore.UncappedAppendGrows | src/rand_gen.py:106-114 | on a file with the header, the rows read back are the old rows plus the new one |
| SnapshotStore.UncappedAppendCreates | src/rand_gen.py:104-111 | a new file reads back as just the new row |
| SnapshotStore.UncappedAppendToEmptyFile | src/rand_gen.py:104-111 | an existing but empty file gets no header, so the row becomes the header and no row reads back |
| Synthetic.Trunc | src/rand_gen.py:44 | `int(x)` truncates toward zero |
| Synthetic.TargetRate | src/rand_gen.py:41 | the target rate is clamped to [0.20, 0.90] and left unchanged inside it |
| Synthetic.NoiseBound | src/rand_gen.py:47 | the noise bound is `max(1, int(capacity * 0.05))` |
| Synthetic.Occupancy | src/rand_gen.py:20-53 | a generated occupancy lies in [0, capacity], and is 0 for a negative capacity |
| Synthetic.OccupancyIsNearest | src/rand_gen.py:48-51 | the final clamp keeps an in-range raw value and otherwise returns the in-range value nearest to it |
| Synthetic.OccupancyMonotoneInNoise | src/rand_gen.py:47-51 | more noise never gives a lower occupancy |
| Synthetic.RateClampInactive | src/rand_gen.py:34-41 | with draws in their documented ranges the rate lies in [0.20, 0.80], so the clamp never acts |
| Synthetic.RawWithinNoise | src/rand_gen.py:44-48 | the raw occupancy is within the noise bound of `int(capacity * rate)` |
| Synthetic.SnapshotCounts | src/real_time_gen.py:82-95 | each floor's count uses its own library's base rate and lies in [0, capacity] |
| Synthetic.GenerateSnapshotRow | src/real_time_gen.py:70-97 | a snapshot row's keys are exactly the header's columns |
| Synthetic.SnapshotRowCells | src/real_time_gen.py:80-95 | the row holds the timestamp, and each floor's cell parses to that floor's count, which lies in [0, capacity] |
| Synthetic.UpdateOccupancyCsv | src/rand_gen.py:69-119 | a new file gets the header plus one record; an existing file gains exactly the snapshot's record at the end |
| Synthetic.Stamp | src/rand_gen.py:149-172 | the running timestamp of row `k` lies exactly `k` intervals after the start |
| Synthetic.BatchStamps | src/rand_gen.py:149-172 | `max(0, num_rows)` timestamps, the `k`-th being the start advanced by `k` intervals and rendered |
| Synthetic.GenerateBatch | src/rand_gen.py:122-184 | `max(0, num_rows)` rows are generated, row `i` built from the `i`-th stamp (`Stamp`) and the `i`-th draw, and the file is overwritten with the header and those rows |
| Synthetic.BatchReadsBack | src/rand_gen.py:174-178 | the batch file reads back exactly as the generated rows |
| Synthetic.Schedule | src/real_time_gen.py:171-189 | `n` snapshots take `2n - 1` events |
| Synthetic.ScheduleShape | src/real_time_gen.py:175-189 | the first snapshot is immediate, and every later one is preceded by one sleep of the interval |
| Synthetic.Produced | src/real_time_gen.py:185-186 | turn `i` produces the snapshot row for stamp `i` and draw `i` |
| Synthetic.RaisedStays | src/real_time_gen.py:171-195 | once an append raises, later turns never run and the result is that exception |
| Synthetic.AppendAllFits | src/real_time_gen.py:175-191 | when the log may be written and every row fits, the loop never raises and equals repeated capped appends |
| Synthetic.UnwritableFirstRaises | src/real_time_gen.py:133-137 | when the log may not be written, the first append raises and leaves the file as it was |
| Synthetic.OnlyFirstAppendRaises | src/real_time_gen.py:186-189 | with fitting rows, the loop can raise only on its first append, which is the only one that meets a foreign header |
| Synthetic.AppendToOwnLog | src/real_time_gen.py:126-137 | appending to a file the loop wrote itself never raises |
| Synthetic.RunLoop | src/real_time_gen.py:169-195 | the loop stops cleanly iff all appends succeed, with the sleep/snapshot schedule; otherwise the first append raised, the only event is that snapshot, and the log is the partial file |
| Synthetic.RealTimeGenerate | src/real_time_gen.py:140-197 | an escaping `get_last_timestamp` ends the run before any snapshot; otherwise the run is the append loop; it never raises on a log it may write whose rows fit, and on a log it may not write it raises at the first snapshot, leaving the file as it was |
| Synthetic.RealTimeKeepsLast | src/real_time_gen.py:171-191 | on a log it may write, `n` turns raise nothing and leave the last 500 of the old rows followed by the produced rows |
| Vision.BatchOf | src/people_counter.py:71-86 | only images that exist, all of the requested frame, enter the batch |
| Vision.FirstFloorMatchAt | src/people_counter.py:108-113 | the inner loop stops at the first floor whose column equals the key |
| Vision.ClampToCatalog | src/people_counter.py:103-113 | the capacity clamp never raises a count |
| Vision.ClampOwnFloor | src/people_counter.py:106-113 | a library clamps its own floor's count to that floor's capacity |
| Vision.ClampOtherLibrary | src/people_counter.py:107-113 | a library whose name differs never changes another library's count, even when its name occurs inside the key |
| Vision.ClampIsCapacity | src/people_counter.py:103-113 | over the whole catalog, a floor's count becomes `min(capacity, count)` |
| Vision.ClampUnmatched | src/people_counter.py:106-113 | a key of no catalog library is left unclamped |
| Vision.CountBatch | src/people_counter.py:95-115 | the counts are keyed by exactly the batch's columns |
| Vision.CountsOfSlots | src/people_counter.py:95-115 | with distinct columns, a column is counted iff its image exists, with the detector's count times 8, clamped |
| Vision.CountPeople | src/people_counter.py:58-117 | with no image present the detector is not called and the counts are empty; the call raises iff the detector fails on a non-empty batch |
| Vision.CountPeopleCorrect | src/people_counter.py:78-115 | for a well-formed catalog, a floor has a count iff its frame image exists, that count is `min(capacity, 8 * persons)`, and every key is a floor column |
| Vision.FilledCounts | src/people_counter.py:158-161 | each floor gets its count, or 0 when it has none |
| Vision.VisionRow | src/people_counter.py:154-161 | the counter's row has exactly the header's columns |
| Vision.FilledCountsExpected | src/people_counter.py:151-161 | the filled value per floor is the clamped count for a present image and 0 for a missing one |
| Vision.VisionRowCells | src/people_counter.py:151-161 | the counter's row holds the timestamp, and each floor's cell parses to the clamped count or 0 |
| Vision.NextFrame | src/people_counter.py:168-170 | the frame goes up by one below 9 and wraps to 1 after 9 |
| Vision.FramesInOrder | src/people_counter.py:143-170 | the first nine ticks use frames 1 to 9 in order |
| Vision.FramesRepeat | src/people_counter.py:167-170 | the frame sequence repeats every nine ticks |
| Vision.FrameCycle | src/people_counter.py:143-170 | after `n` successful ticks the frame is `n mod 9 + 1` |
| Vision.Tick | src/people_counter.py:145-179 | a tick keeps or advances the frame and keeps it within 1..9; advancing means a row was written under the header; the two exceptions that keep the frame are stated by `Vision.FailedCountKeepsState`, `Vision.FailedAppendKeepsFrame` and `Vision.UnwritableLogStalls` |
| Vision.FailedAppendKeepsFrame | src/people_counter.py:163-179 | when the counts succeed but the append raises `ValueError`, the frame stays and the log is the partial file the append left |
| Vision.UnwritableLogStalls | src/people_counter.py:163-179 | when the log may not be written (a read-only file, a directory), a tick raises `OSError` (or the count raises first), so the frame stays and nothing is written |
| Vision.UnwritableLogNeverAdvances | src/people_counter.py:143-179 | while the log may not be written, the loop never leaves its frame and never writes, however many ticks it runs |
| Vision.FailedCountKeepsState | src/people_counter.py:177-179 | a failing inference leaves the frame and the log unchanged |
| Vision.TickAppends | src/people_counter.py:151-170 | on a log it may write whose rows fit the header, a working detector makes the tick append the counter's row and advance the frame |
| Vision.RunCyclesFrames | src/people_counter.py:143-179 | after `n` ticks with a working detector on a log it may write whose rows fit, the frame is the `n`-th of the cycle, and the log stays readable under the header |
| Availability.LevelAndColor | GUI/pages/1_Availability.py:33-38 | Low iff rate < 0.4, Medium iff 0.4 <= rate < 0.7, High iff rate >= 0.7 |
| Availability.LevelMonotone | GUI/pages/1_Availability.py:33-38 | a higher rate never gives a lower level |
| Availability.ColorsTellLevel | GUI/pages/1_Availability.py:33-38 | two rates share a level iff they share a hex code iff they share a colour name |
| Availability.LibraryTotals | GUI/pages/1_Availability.py:41-44 | the available seats are the capacity less the occupied seats |
| Availability.SeatsLevel | GUI/pages/1_Availability.py:246-247 | without seats the level is Low; otherwise High iff occupied >= 0.7 * capacity and Low iff occupied < 0.4 * capacity |
| Availability.LibraryLevel | GUI/pages/1_Availability.py:241-247 | a library's level is the level of its summed occupancy over its summed capacity |
| Availability.FloorLevel | GUI/pages/1_Availability.py:296-302 | a floor's level is the level of its occupancy over its capacity |
| Availability.AvailableIsPerFloorSum | GUI/pages/1_Availability.py:241-243 | a library's available seats are the sum of its floors' available seats |
| Availability.TotalsAdditive | GUI/pages/1_Availability.py:42-43 | capacity and occupancy sums add over any split of the floors |
| Availability.SoundTotals | GUI/pages/1_Availability.py:41-44 | sound floors give 0 <= occupied <= capacity, and a positive capacity when there is a floor |
| Availability.Rate | GUI/pages/1_Availability.py:246 | the rate is 0 for zero capacity and otherwise the exact ratio occupied / capacity |
| Availability.RateBounds | GUI/pages/1_Availability.py:301 | a sound floor's rate lies in [0, 1]; an over-full floor is High; a negative count is Low |
| Availability.EmptyLibraryIsLow | GUI/pages/1_Availability.py:246-247 | a library without seats shows Low, with no division by zero |
| Availability.MergedOccupied | GUI/pages/1_Availability.py:113-122 | the merged occupancy is either the static figure or the parsed cell of the floor's column |
| Availability.MergeLibrary | GUI/pages/1_Availability.py:102-130 | name, address and floor list are kept; only each floor's occupancy is replaced |
| Availability.Merge | GUI/pages/1_Availability.py:85-132 | merging keeps every library's layout; no row returns the libraries unchanged |
| Availability.MergeReadsColumn | GUI/pages/1_Availability.py:113-122 | a present, parseable cell replaces the floor's occupancy; a missing or unparseable cell keeps the static figure |
| Availability.MergeIdempotent | GUI/pages/1_Availability.py:85-132 | merging the same row twice equals merging it once |
| Availability.MergeForeignRow | GUI/pages/1_Availability.py:111-122 | a row naming none of the catalog's columns changes nothing |
| Availability.LoadLibraries | GUI/pages/1_Availability.py:174-184 | the page load raises iff the log raises `csv.Error`; it keeps the layout; it falls back to the base with no timestamp for a missing, unreadable or empty log; a shown timestamp comes from the file |
| Availability.MergeBuiltRow | GUI/pages/1_Availability.py:111-128 | joining a producer's row back to the catalog recovers every floor's count |
| Availability.LatestOfBuiltRow | GUI/pages/1_Availability.py:74-80 | after a producer's append, the latest row is exactly the row it built |
| Availability.LoadOfLatest | GUI/pages/1_Availability.py:174-180 | when the log's latest row carries a timestamp, the page shows the catalog merged with that row under that timestamp |
| Availability.AppendThenLoad | GUI/pages/1_Availability.py:174-180 | after a producer's append, the page shows that row's timestamp and the catalog merged with that row |
| Availability.FirstMaximumUnique | GUI/pages/1_Availability.py:221 | at most one library is the first with the most free seats |
| Availability.Recommend | GUI/pages/1_Availability.py:221-223 | there is no recommendation iff there are no libraries; otherwise it is the first library whose available seats are maximal |
| Credentials.Get | GUI/pages/2_RoomReservation.py:24-29 | a cell is `None` exactly when the header names the key but the record is too short |
| Credentials.StripField | GUI/pages/2_RoomReservation.py:24-29 | `.strip()` raises on a `None` cell and otherwise strips it |
| Credentials.AccountOf | GUI/pages/2_RoomReservation.py:26-30 | password, role (default `student`) and full name (default the user name) are the stripped cells, and loading raises iff one of them is `None` |
| Credentials.Entry | GUI/pages/2_RoomReservation.py:23-30 | a record that contributes an account contributes it under a non-empty, stripped user name |
| Credentials.LastRecordWins | GUI/pages/2_RoomReservation.py:23-30 | a loaded key is a user name some record contributed, and its account is the one from the last record with that name |
| Credentials.LoadRecords | GUI/pages/2_RoomReservation.py:19-35 | every loaded user name is non-empty and stripped |
| Credentials.LoadCredentials | GUI/pages/2_RoomReservation.py:9-35 | a missing, unopenable or undecodable file gives no accounts; a `csv.Error` raises; a file with only a header gives no accounts |
| Credentials.FullRecordEntry | GUI/pages/2_RoomReservation.py:24-30 | a full four-column record never raises and yields its stripped fields, or is skipped when its user name strips to empty |
| Credentials.DefaultsWithoutColumns | GUI/pages/2_RoomReservation.py:28-29 | without `role` and `full_name` columns, the role is `student` and the full name is the user name |
| Credentials.GetUserInfo | GUI/pages/2_RoomReservation.py:47-53 | user info exists iff the user name is stored, and is the stored account |
| Credentials.VerifyCredentials | GUI/pages/2_RoomReservation.py:38-44 | a login verifies iff the user name is stored and its stored password equals the given one |
| Credentials.SubmitLogin | GUI/pages/2_RoomReservation.py:72-80 | empty input is refused before any lookup; a login is accepted iff both fields are non-empty and the stored password matches; the session receives that user's account |
| Credentials.LoginNeedsStoredAccount | GUI/pages/2_RoomReservation.py:38-44 | only a stored, stripped user name with its exact, non-empty password logs in, and nobody logs in against a missing file |

## Left out

- File system, threads, `time.sleep`, `datetime.now()`, signal handlers and console output are not modelled. Files are values, and the clock and sleeps are parameters or schedule events.
- `src/real_time_gen_deploy.py` and `GUI/app.py` are not part of this model.
- The YOLO model is not modelled: loading it, the batch inference call and the COCO class filter are replaced by a detector function from image to person count. The outputs are assumed to come back in batch order, as `zip(keys, results)` assumes.
- Floating point is not modelled: rates and draws are exact reals. `int(capacity * rate)` and the 0.4 and 0.7 thresholds can differ from IEEE results on boundary values.
- `random.uniform` and `random.randint` are parameters, constrained to their ranges only where a lemma needs it (`DrawInRange`).
- ISO timestamp formatting, `datetime.fromisoformat` and `strptime` are parameters; the timestamp arithmetic of the batch generator uses integer seconds.
- The Streamlit page is not modelled: layout, session state, buttons, `st.rerun`, the maps URL, `int(rate*100)` percentages, the selected-library `next(...)` lookup and the `st.error` message of `load_credentials`.
- Only the page-load step is modelled from the reservation page: the reservation features behind the login are not part of this model.
- SnapshotStore.ExistingRows: drops the fields a record holds beyond its header, which `DictReader` keeps under the key `None`.
- SnapshotStore.TryAppendRow: does not raise for a kept row read from a record longer than its header. `DictWriter` raises `ValueError` on that row's `None` key after truncating the file, but the model has already dropped the surplus and returns `Ok`. An uncapped append of a wider row (`update_occupancy_csv`) can lead there.
- A short record's missing cells are absent keys in `CsvFile.Decode`, not `None` values. `Credentials.Get` tells the two apart by consulting the header.
- A `csv.Error` is modelled as a file-wide `Unreadable(CsvError)`. Rows before the bad record are not modelled separately, and none of the callers uses them.
- Text.Decimal: has no digit limit. CPython 3.11 and later (and the security releases from 3.7.14 on) raise `ValueError` when `str(n)` or `int(s)` would pass 4300 digits; seat counts are far below that.
- Text.ParseInt: accepts ASCII digits only, while Python's `int()` also accepts other Unicode decimal digits. Its contract states only necessary conditions; `Text.ParseDecimalRoundTrip` pins it down on everything a producer writes, and `Text.SeparatorRejected` on separator characters.
- SnapshotStore.AppendRow: models the write that succeeds, so it requires the new row and the rows read to fit the field names; `SnapshotStore.TryAppendRow` is the total version that models `DictWriter`'s `ValueError` and is what the real-time loop uses.
- SnapshotStore.AppendUncapped: assumes the process may write the path; on a read-only file or a directory `open(output_file, 'a')` raises `OSError`, which the model does not show. On an existing file it cannot read, the model leaves the file unchanged, though a write-only file gains a record the model cannot show.
- Synthetic.UpdateOccupancyCsv: states nothing for an existing unreadable file, because the uncapped append leaves that case unchanged, and like `SnapshotStore.AppendUncapped` it assumes the log may be written.
- Synthetic.GenerateBatch: assumes the output path may be written; on a read-only file or a directory `open(output_path, 'w')` raises `OSError` before any row is written.
- SnapshotStore.UncappedAppendGrows: holds for a path the process may write; on a read-only file the source raises `OSError` instead.
- SnapshotStore.UncappedAppendCreates: holds where the file can be created; a directory the process may not write makes the source raise `OSError`.
- SnapshotStore.UncappedAppendToEmptyFile: holds for an empty file the process may write; a read-only one makes the source raise `OSError`.
- Vision.Tick: the frame range 1..9 is stated only for a start inside it; the code starts at 1, and no tick leaves the range.
- Vision.CountPeople: detector errors are one flag for the whole batch; which image made it fail is not modelled.
- Credentials.LoadCredentials: its contract states the error and empty cases and that keys are clean. The contents of a successful load are stated by `Credentials.LastRecordWins` and `Credentials.FullRecordEntry`.
- Text.Strip: its contract states only the length bound and the ends of the result. What was removed, and that the result is an infix of the input, is stated by `Text.StripRemovesOnlySpace`.
- Catalog.Slots: its contract states the slot count and each slot's contents. The library-then-floor order is stated by `Catalog.SlotsOrdered`, and exact positions by `Catalog.SlotAt`.
