/**
 * The occupancy snapshot log `data/library_occupancy.csv`: the capped
 * rewrite-on-append shared by both background producers, the uncapped append
 * of the one-shot generator, and the two readers (the dashboard's latest row
 * and the real-time generator's last timestamp).
 */
module SnapshotStore {
  import opened Optional
  import opened CsvFile

  /** `MAX_ROWS`: how many data rows the rolling log keeps. */
  const MaxRows: nat := 500

  function Min(a: int, b: int): int {
    if a < b then a else b
  }

  /** `rows[-MAX_ROWS:]` once the list has outgrown the cap: the most recent rows, oldest dropped first. */
  function Prune<T>(rows: seq<T>): (r: seq<T>)
    ensures |r| == Min(|rows|, MaxRows)
    ensures |rows| <= MaxRows ==> r == rows
    ensures |rows| > MaxRows ==> r == rows[|rows| - MaxRows..]
  {
    if |rows| > MaxRows then rows[|rows| - MaxRows..] else rows
  }

  /** The rows the capped append starts from: none when the file is absent or reading it raises anything at all. */
  function ExistingRows(f: File): (rows: seq<Row>)
    ensures f.Csv? && |f.records| > 0 ==> AllFit(rows, f.records[0])
    ensures !f.Csv? ==> rows == []
  {
    match f
    case Csv(records) => Rows(records)
    case _ => []
  }

  /**
   * `append_row_to_csv`: read the existing rows, append `row`, keep the last
   * `MaxRows`, and rewrite the whole file with `fieldnames` as its header.
   * This is the write that succeeds: `DictWriter` raises unless every row's
   * keys are field names, hence the precondition on the prior rows and the new
   * one. `TryAppendRow` adds the raising cases.
   */
  function AppendRow(f: File, row: Row, fieldnames: seq<string>): (r: File)
    requires Fits(row, fieldnames) && AllFit(ExistingRows(f), fieldnames)
    ensures r.Csv? && 2 <= |r.records| <= MaxRows + 1
    ensures r.records[0] == fieldnames
    ensures r.records[|r.records| - 1] == Encode(fieldnames, row)
  {
    var all := ExistingRows(f) + [row];
    var kept := Prune(all);
    assert forall i :: 0 <= i < |kept| ==> kept[i] == all[|all| - |kept| + i];
    Write(fieldnames, kept)
  }

  /** The position of the first row naming a key outside `fieldnames`, or `|rows|` when every row fits. */
  function FirstMisfit(rows: seq<Row>, fieldnames: seq<string>): (i: nat)
    ensures i <= |rows|
    ensures forall j :: 0 <= j < i ==> Fits(rows[j], fieldnames)
    ensures i < |rows| ==> !Fits(rows[i], fieldnames)
  {
    if |rows| == 0 then 0
    else if !Fits(rows[0], fieldnames) then 0
    else 1 + FirstMisfit(rows[1..], fieldnames)
  }

  /**
   * `append_row_to_csv` on every input; `Raised` carries the file as the
   * exception leaves it. `writable` says whether the process may write the
   * path: this does not follow from what the read returned, since a read-only
   * file reads fine. When it may not (a read-only file, a directory),
   * `open(csv_file, 'w')` raises `OSError` before truncating, so the file is
   * unchanged. When a kept row names a key outside `fieldnames` (a log written
   * under another catalog), `DictWriter` raises `ValueError` at that row, after
   * the file was truncated and the header and the rows before it were written.
   */
  function TryAppendRow(f: File, row: Row, fieldnames: seq<string>, writable: bool): (r: Result<File, File>)
    ensures r.Ok? <==> writable && AllFit(Prune(ExistingRows(f) + [row]), fieldnames)
    ensures r.Ok? ==> r.value == Write(fieldnames, Prune(ExistingRows(f) + [row]))
    ensures writable && Fits(row, fieldnames) && AllFit(ExistingRows(f), fieldnames) ==> r == Ok(AppendRow(f, row, fieldnames))
    ensures !writable ==> r == Raised(f)
    ensures writable && r.Raised? ==> r.error.Csv? && 1 <= |r.error.records| <= MaxRows && r.error.records[0] == fieldnames
  {
    if !writable then Raised(f)
    else
      var all := ExistingRows(f) + [row];
      var kept := Prune(all);
      var bad := FirstMisfit(kept, fieldnames);
      KeptRowsFit(ExistingRows(f), row, fieldnames);
      if bad == |kept| then Ok(Write(fieldnames, kept))
      else
        assert AllFit(kept[..bad], fieldnames) by {
          forall i | 0 <= i < bad ensures Fits(kept[..bad][i], fieldnames) {
            assert kept[..bad][i] == kept[i];
          }
        }
        Raised(Write(fieldnames, kept[..bad]))
  }

  /** Pruning keeps a suffix, so when every row fits so does every kept row. */
  lemma {:induction false} KeptRowsFit(prior: seq<Row>, row: Row, fieldnames: seq<string>)
    ensures Fits(row, fieldnames) && AllFit(prior, fieldnames) ==> AllFit(Prune(prior + [row]), fieldnames)
  {
    var all := prior + [row];
    var kept := Prune(all);
    if Fits(row, fieldnames) && AllFit(prior, fieldnames) {
      forall i | 0 <= i < |kept| ensures Fits(kept[i], fieldnames) {
        assert kept[i] == all[|all| - |kept| + i];
      }
    }
  }

  lemma {:induction false} CompleteAllSuffix(fieldnames: seq<string>, rows: seq<Row>, k: nat)
    requires k <= |rows|
    ensures CompleteAll(fieldnames, rows[k..]) == CompleteAll(fieldnames, rows)[k..]
  {
    assert forall i :: 0 <= i < |rows| - k ==> rows[k..][i] == rows[k + i];
  }

  lemma {:induction false} AllFitSnoc(rows: seq<Row>, row: Row, fieldnames: seq<string>)
    requires AllFit(rows, fieldnames) && Fits(row, fieldnames)
    ensures AllFit(rows + [row], fieldnames)
  {
  }

  /** Reading the rewritten file gives back the kept rows, each completed to the header. */
  lemma {:induction false} AppendReadsBack(f: File, row: Row, fieldnames: seq<string>)
    requires |fieldnames| > 0 && Distinct(fieldnames)
    requires Fits(row, fieldnames) && AllFit(ExistingRows(f), fieldnames)
    ensures AllFit(ExistingRows(f) + [row], fieldnames)
    ensures AllFit(Prune(ExistingRows(f) + [row]), fieldnames)
    ensures Rows(AppendRow(f, row, fieldnames).records) == CompleteAll(fieldnames, Prune(ExistingRows(f) + [row]))
  {
    var all := ExistingRows(f) + [row];
    AllFitSnoc(ExistingRows(f), row, fieldnames);
    var kept := Prune(all);
    CompleteAllSuffix(fieldnames, all, |all| - |kept|);
    WriteThenRead(fieldnames, kept);
  }

  lemma {:induction false} CompleteAllPrune(fieldnames: seq<string>, rows: seq<Row>)
    ensures CompleteAll(fieldnames, Prune(rows)) == Prune(CompleteAll(fieldnames, rows))
  {
    if |rows| > MaxRows {
      CompleteAllSuffix(fieldnames, rows, |rows| - MaxRows);
    }
  }

  /**
   * What a reader sees after the capped append: the last `min(|prior| + 1, 500)`
   * of the prior rows followed by the new one, every row completed to the
   * header, the new row last.
   */
  lemma {:induction false} AppendKeepsRecentRows(f: File, row: Row, fieldnames: seq<string>)
    requires |fieldnames| > 0 && Distinct(fieldnames)
    requires Fits(row, fieldnames) && AllFit(ExistingRows(f), fieldnames)
    ensures Rows(AppendRow(f, row, fieldnames).records) == Prune(CompleteAll(fieldnames, ExistingRows(f) + [row]))
  {
    AppendReadsBack(f, row, fieldnames);
    CompleteAllPrune(fieldnames, ExistingRows(f) + [row]);
  }

  /** The log never holds more than `MaxRows` rows, and holds all of them until it reaches that many. */
  lemma {:induction false} AppendRowCount(f: File, row: Row, fieldnames: seq<string>)
    requires |fieldnames| > 0 && Distinct(fieldnames)
    requires Fits(row, fieldnames) && AllFit(ExistingRows(f), fieldnames)
    ensures |Rows(AppendRow(f, row, fieldnames).records)| == Min(|ExistingRows(f)| + 1, MaxRows)
  {
    AppendKeepsRecentRows(f, row, fieldnames);
  }

  /** Pruning never drops the last row. */
  lemma {:induction false} PruneLast<T>(rows: seq<T>)
    requires |rows| > 0
    ensures |Prune(rows)| > 0 && Prune(rows)[|Prune(rows)| - 1] == rows[|rows| - 1]
  {
  }

  /** Rows that name every field and nothing else, as every row read back from a file written under that header does. */
  predicate Full(rows: seq<Row>, fieldnames: seq<string>) {
    forall i :: 0 <= i < |rows| ==> rows[i].Keys == NameSet(fieldnames)
  }

  lemma {:induction false} CompleteAllFull(fieldnames: seq<string>, rows: seq<Row>)
    requires Full(rows, fieldnames)
    ensures CompleteAll(fieldnames, rows) == rows
  {
    forall i | 0 <= i < |rows| ensures Complete(fieldnames, rows[i]) == rows[i] {
      CompleteFullRow(fieldnames, rows[i]);
    }
  }

  /** Below the cap nothing is pruned: the log gains exactly the new row, at the end, and nothing else changes. */
  lemma {:induction false} AppendBelowCap(f: File, row: Row, fieldnames: seq<string>)
    requires |fieldnames| > 0 && Distinct(fieldnames)
    requires Fits(row, fieldnames) && Full(ExistingRows(f), fieldnames)
    requires |ExistingRows(f)| + 1 <= MaxRows
    ensures Rows(AppendRow(f, row, fieldnames).records) == ExistingRows(f) + [Complete(fieldnames, row)]
  {
    var prior := ExistingRows(f);
    CompleteAllFull(fieldnames, prior);
    AppendKeepsRecentRows(f, row, fieldnames);
    var all := CompleteAll(fieldnames, prior + [row]);
    CompleteAllSnoc(fieldnames, prior + [row]);
    assert (prior + [row])[..|prior|] == prior;
  }

  /** A missing file, or one whose read raised, is replaced by a log holding only the new row. */
  lemma {:induction false} AppendAfterFailedRead(f: File, row: Row, fieldnames: seq<string>)
    requires |fieldnames| > 0 && Distinct(fieldnames) && Fits(row, fieldnames)
    requires f.Missing? || f.Unreadable?
    ensures Rows(AppendRow(f, row, fieldnames).records) == [Complete(fieldnames, row)]
  {
    AppendKeepsRecentRows(f, row, fieldnames);
  }

  // ---------------------------------------------------------------- many appends

  /** The file after appending `rows` one call at a time, as a producer does tick after tick. */
  function AppendMany(f: File, rows: seq<Row>, fieldnames: seq<string>): (r: File)
    requires AllFit(rows, fieldnames) && AllFit(ExistingRows(f), fieldnames)
    ensures |rows| == 0 ==> r == f
    ensures |rows| > 0 ==> r.Csv? && |r.records| > 0 && r.records[0] == fieldnames
    ensures AllFit(ExistingRows(r), fieldnames)
  {
    if |rows| == 0 then f
    else
      var n := |rows| - 1;
      assert AllFit(rows[..n], fieldnames);
      AppendRow(AppendMany(f, rows[..n], fieldnames), rows[n], fieldnames)
  }

  lemma {:induction false} ConcatSnoc<T>(a: seq<T>, b: seq<T>)
    requires |b| > 0
    ensures a + b == (a + b[..|b| - 1]) + [b[|b| - 1]]
  {
    assert b == b[..|b| - 1] + [b[|b| - 1]];
  }

  lemma {:induction false} CompleteAllSingle(fieldnames: seq<string>, row: Row)
    ensures CompleteAll(fieldnames, [row]) == [Complete(fieldnames, row)]
  {
  }

  lemma {:induction false} PruneSnoc<T>(rows: seq<T>, x: T)
    ensures Prune(Prune(rows) + [x]) == Prune(rows + [x])
  {
    var p := Prune(rows);
    var a := Prune(p + [x]);
    var b := Prune(rows + [x]);
    assert |a| == |b|;
    forall i | 0 <= i < |a| ensures a[i] == b[i] {
      assert a[i] == (p + [x])[|p| + 1 - |a| + i];
      assert b[i] == (rows + [x])[|rows| + 1 - |b| + i];
    }
  }

  lemma {:induction false} CompleteAllTwice(fieldnames: seq<string>, rows: seq<Row>)
    ensures CompleteAll(fieldnames, CompleteAll(fieldnames, rows)) == CompleteAll(fieldnames, rows)
  {
    var c := CompleteAll(fieldnames, rows);
    forall i | 0 <= i < |c| ensures Complete(fieldnames, c[i]) == c[i] {
      CompleteFullRow(fieldnames, c[i]);
    }
  }

  lemma {:induction false} CompleteAllConcat(fieldnames: seq<string>, a: seq<Row>, b: seq<Row>)
    ensures CompleteAll(fieldnames, a + b) == CompleteAll(fieldnames, a) + CompleteAll(fieldnames, b)
  {
  }

  /**
   * The cap invariant over any number of appends: the log holds exactly the
   * last `min(N, 500)` rows appended, in append order. Starting from the rows
   * already in the file, `N` counts those too.
   */
  lemma {:induction false} AppendManyKeepsLast(f: File, rows: seq<Row>, fieldnames: seq<string>)
    requires |fieldnames| > 0 && Distinct(fieldnames)
    requires |rows| > 0 && AllFit(rows, fieldnames) && AllFit(ExistingRows(f), fieldnames)
    ensures Rows(AppendMany(f, rows, fieldnames).records)
         == Prune(CompleteAll(fieldnames, ExistingRows(f) + rows))
    decreases |rows|
  {
    var n := |rows| - 1;
    var prior := ExistingRows(f);
    var x := rows[n];
    assert AllFit(rows[..n], fieldnames);
    var g := AppendMany(f, rows[..n], fieldnames);
    AppendManyLast(f, rows, fieldnames);
    ConcatSnoc(prior, rows);
    var before := prior + rows[..n];
    assert prior + rows == before + [x];
    // Before the last append the file reads as the completed, pruned prefix (or as the original rows).
    if n == 0 {
      assert ExistingRows(g) == prior == before;
    } else {
      AppendManyKeepsLast(f, rows[..n], fieldnames);
      CsvRowsAreExisting(g);
      assert ExistingRows(g) == Prune(CompleteAll(fieldnames, before));
      PruneCompleteStep(fieldnames, before, x);
      calc {
        Rows(AppendMany(f, rows, fieldnames).records);
        Prune(CompleteAll(fieldnames, ExistingRows(g) + [x]));
        Prune(CompleteAll(fieldnames, Prune(CompleteAll(fieldnames, before)) + [x]));
        Prune(CompleteAll(fieldnames, before + [x]));
      }
    }
  }

  lemma {:induction false} CsvRowsAreExisting(g: File)
    requires g.Csv?
    ensures ExistingRows(g) == Rows(g.records)
  {
  }

  /** The last of many appends, seen through the single-append read-back. */
  lemma {:induction false} AppendManyLast(f: File, rows: seq<Row>, fieldnames: seq<string>)
    requires |fieldnames| > 0 && Distinct(fieldnames)
    requires |rows| > 0 && AllFit(rows, fieldnames) && AllFit(ExistingRows(f), fieldnames)
    ensures AllFit(rows[..|rows| - 1], fieldnames)
    ensures Rows(AppendMany(f, rows, fieldnames).records)
         == Prune(CompleteAll(fieldnames, ExistingRows(AppendMany(f, rows[..|rows| - 1], fieldnames)) + [rows[|rows| - 1]]))
  {
    var n := |rows| - 1;
    assert AllFit(rows[..n], fieldnames);
    var g := AppendMany(f, rows[..n], fieldnames);
    AppendKeepsRecentRows(g, rows[n], fieldnames);
  }

  /** Completing and pruning after each append is the same as completing and pruning once at the end. */
  lemma {:induction false} PruneCompleteStep(fieldnames: seq<string>, rows: seq<Row>, x: Row)
    ensures Prune(CompleteAll(fieldnames, Prune(CompleteAll(fieldnames, rows)) + [x]))
         == Prune(CompleteAll(fieldnames, rows + [x]))
  {
    var c := CompleteAll(fieldnames, rows);
    var p := Prune(c);
    var cx := Complete(fieldnames, x);
    CompleteAllConcat(fieldnames, p, [x]);
    CompleteAllSingle(fieldnames, x);
    CompleteAllTwice(fieldnames, rows);
    CompleteAllPrune(fieldnames, c);
    assert CompleteAll(fieldnames, p + [x]) == p + [cx];
    CompleteAllConcat(fieldnames, rows, [x]);
    assert CompleteAll(fieldnames, rows + [x]) == c + [cx];
    PruneSnoc(c, cx);
  }

  // ---------------------------------------------------------------- readers

  /**
   * `get_latest_occupancy_from_csv`: the last data row, `None` when the file
   * is missing, holds no data row, or raises `OSError` or a `ValueError` while
   * being read. A `csv.Error` is not among the caught exceptions and escapes.
   */
  function ReadLatest(f: File): (r: Result<Option<Row>, ReadError>)
    ensures r.Raised? <==> f == Unreadable(CsvError)
    ensures r == Ok(None) <==> f.Missing? || (f.Unreadable? && f.error != CsvError)
                               || (f.Csv? && |Rows(f.records)| == 0)
    ensures f.Csv? && |Rows(f.records)| > 0 ==> r == Ok(Some(Rows(f.records)[|Rows(f.records)| - 1]))
  {
    match f
    case Missing => Ok(None)
    case Unreadable(e) => if e == CsvError then Raised(e) else Ok(None)
    case Csv(records) =>
      var rows := Rows(records);
      if |rows| == 0 then Ok(None) else Ok(Some(rows[|rows| - 1]))
  }

  /** The latest row read after a capped append is the appended row, completed to the header. */
  lemma {:induction false} LatestAfterAppend(f: File, row: Row, fieldnames: seq<string>)
    requires |fieldnames| > 0 && Distinct(fieldnames)
    requires Fits(row, fieldnames) && AllFit(ExistingRows(f), fieldnames)
    ensures ReadLatest(AppendRow(f, row, fieldnames)) == Ok(Some(Complete(fieldnames, row)))
  {
    LastRowAfterAppend(f, row, fieldnames);
    LatestIs(AppendRow(f, row, fieldnames), Complete(fieldnames, row));
  }

  lemma {:induction false} LatestIs(g: File, last: Row)
    requires g.Csv? && |Rows(g.records)| > 0 && Rows(g.records)[|Rows(g.records)| - 1] == last
    ensures ReadLatest(g) == Ok(Some(last))
  {
  }

  /** The exceptions `get_last_timestamp` lets escape. */
  datatype Escape = ReadFailed(error: ReadError) | NoneTimestamp

  /**
   * `get_last_timestamp`: the parsed `timestamp` of the last data row; `None`
   * for a missing or empty file, a file that fails to decode, a header
   * without a `timestamp` column (`KeyError`) or a value `fromisoformat`
   * rejects. `OSError` and `csv.Error` are not caught, and neither is the
   * `TypeError` of a short last record whose timestamp cell is `None`.
   * `parseIso` stands for `datetime.fromisoformat`, `None` for its `ValueError`.
   */
  function GetLastTimestamp<T>(f: File, parseIso: string -> Option<T>): (r: Result<Option<T>, Escape>)
    ensures f.Missing? ==> r == Ok(None)
    ensures f.Csv? && |Rows(f.records)| == 0 ==> r == Ok(None)
    ensures f.Unreadable? ==> (r == Ok(None) <==> f.error == DecodeError)
    ensures f.Unreadable? && r.Raised? ==> r.error == ReadFailed(f.error)
    ensures f.Csv? && |Rows(f.records)| > 0 && "timestamp" in Rows(f.records)[|Rows(f.records)| - 1] ==>
              r == Ok(parseIso(Rows(f.records)[|Rows(f.records)| - 1]["timestamp"]))
    ensures r == Raised(NoneTimestamp) <==>
              && f.Csv? && |Rows(f.records)| > 0 && "timestamp" !in Rows(f.records)[|Rows(f.records)| - 1]
              && "timestamp" in f.records[0]
    ensures r.Ok? && r.value.Some? ==>
              f.Csv? && |Rows(f.records)| > 0 && "timestamp" in Rows(f.records)[|Rows(f.records)| - 1]
              && parseIso(Rows(f.records)[|Rows(f.records)| - 1]["timestamp"]) == r.value
  {
    match f
    case Missing => Ok(None)
    case Unreadable(e) => if e == DecodeError then Ok(None) else Raised(ReadFailed(e))
    case Csv(records) =>
      var rows := Rows(records);
      if |rows| == 0 then Ok(None)
      else
        var last := rows[|rows| - 1];
        if "timestamp" in last then Ok(parseIso(last["timestamp"]))
        else if "timestamp" in records[0] then Raised(NoneTimestamp)
        else Ok(None)
  }

  /** After a capped append of a row carrying a timestamp, that timestamp is the one found last. */
  lemma {:induction false} TimestampAfterAppend<T>(f: File, row: Row, fieldnames: seq<string>, parseIso: string -> Option<T>)
    requires |fieldnames| > 0 && Distinct(fieldnames)
    requires Fits(row, fieldnames) && AllFit(ExistingRows(f), fieldnames)
    requires "timestamp" in row
    ensures GetLastTimestamp(AppendRow(f, row, fieldnames), parseIso) == Ok(parseIso(row["timestamp"]))
  {
    LastRowAfterAppend(f, row, fieldnames);
    CompleteKeeps(fieldnames, row, "timestamp");
    LastTimestampIs(AppendRow(f, row, fieldnames), parseIso, Complete(fieldnames, row), row["timestamp"]);
  }

  lemma {:induction false} LastTimestampIs<T>(g: File, parseIso: string -> Option<T>, last: Row, stamp: string)
    requires g.Csv? && |Rows(g.records)| > 0 && Rows(g.records)[|Rows(g.records)| - 1] == last
    requires "timestamp" in last && last["timestamp"] == stamp
    ensures GetLastTimestamp(g, parseIso) == Ok(parseIso(stamp))
  {
  }

  lemma {:induction false} CompleteKeeps(fieldnames: seq<string>, row: Row, key: string)
    requires Fits(row, fieldnames) && key in row
    ensures key in Complete(fieldnames, row) && Complete(fieldnames, row)[key] == row[key]
  {
  }

  /** After a capped append, the row read back last is the appended row, completed to the header. */
  lemma {:induction false} LastRowAfterAppend(f: File, row: Row, fieldnames: seq<string>)
    requires |fieldnames| > 0 && Distinct(fieldnames)
    requires Fits(row, fieldnames) && AllFit(ExistingRows(f), fieldnames)
    ensures var rows := Rows(AppendRow(f, row, fieldnames).records);
            |rows| > 0 && rows[|rows| - 1] == Complete(fieldnames, row)
  {
    AppendKeepsRecentRows(f, row, fieldnames);
    PruneCompleteLast(fieldnames, ExistingRows(f), row);
  }

  lemma {:induction false} PruneCompleteLast(fieldnames: seq<string>, rows: seq<Row>, x: Row)
    ensures var p := Prune(CompleteAll(fieldnames, rows + [x]));
            |p| > 0 && p[|p| - 1] == Complete(fieldnames, x)
  {
    var c := CompleteAll(fieldnames, rows + [x]);
    PruneLast(c);
    assert c[|c| - 1] == Complete(fieldnames, (rows + [x])[|rows|]);
  }

  // ---------------------------------------------------------------- uncapped append

  /**
   * The file effect of `update_occupancy_csv`: open for appending, write the
   * header only if the file did not exist, then write the row. Nothing is
   * read and nothing is pruned; a file that cannot be read stays unreadable.
   */
  function AppendUncapped(f: File, row: Row, fieldnames: seq<string>): (r: File)
    requires Fits(row, fieldnames)
    ensures f.Missing? ==> r == Write(fieldnames, [row])
    ensures f.Csv? ==> r.Csv? && |r.records| == |f.records| + 1 && r.records[..|f.records|] == f.records
    ensures f.Unreadable? ==> r == f
  {
    match f
    case Missing => Write(fieldnames, [row])
    case Unreadable(_) => f
    case Csv(records) => Csv(records + [Encode(fieldnames, row)])
  }

  /** With the header already in place, the uncapped append adds the row after all existing rows, however many there are. */
  lemma {:induction false} UncappedAppendGrows(f: File, row: Row, fieldnames: seq<string>)
    requires |fieldnames| > 0 && Distinct(fieldnames) && Fits(row, fieldnames)
    requires f.Csv? && |f.records| > 0 && f.records[0] == fieldnames
    ensures AppendUncapped(f, row, fieldnames).records[0] == fieldnames
    ensures Rows(AppendUncapped(f, row, fieldnames).records) == Rows(f.records) + [Complete(fieldnames, row)]
  {
    var recs := f.records + [Encode(fieldnames, row)];
    assert recs[1..] == f.records[1..] + [Encode(fieldnames, row)];
    assert recs[1..][..|recs| - 2] == f.records[1..];
    DecodeEncoded(fieldnames, row);
  }

  /** A missing file gets the header and the row: a one-row log. */
  lemma {:induction false} UncappedAppendCreates(row: Row, fieldnames: seq<string>)
    requires |fieldnames| > 0 && Distinct(fieldnames) && Fits(row, fieldnames)
    ensures AppendUncapped(Missing, row, fieldnames).records[0] == fieldnames
    ensures Rows(AppendUncapped(Missing, row, fieldnames).records) == [Complete(fieldnames, row)]
  {
    WriteThenRead(fieldnames, [row]);
  }

  /** An existing but empty file gets no header: the row's cells become the header and the log reads as empty. */
  lemma {:induction false} UncappedAppendToEmptyFile(row: Row, fieldnames: seq<string>)
    requires Fits(row, fieldnames)
    ensures AppendUncapped(Csv([]), row, fieldnames).records == [Encode(fieldnames, row)]
    ensures Rows(AppendUncapped(Csv([]), row, fieldnames).records) == []
  {
  }
}
