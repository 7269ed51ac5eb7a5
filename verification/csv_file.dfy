/**
 * A CSV file as the `csv` module sees it: a sequence of records (lists of
 * fields), the first of which is the header. `DictReader` turns the records
 * after the header into rows keyed by header names; `DictWriter` turns rows
 * back into records in field-name order.
 */
module CsvFile {

  /** One `DictReader` / `DictWriter` row: column name to cell text. */
  type Row = map<string, string>

  /** Why a file that exists could not be read, by the Python exception class it raises. */
  datatype ReadError =
    | OsError      // `OSError` (`IOError`): permission denied, a directory, ...
    | DecodeError  // `UnicodeDecodeError`, a `ValueError`
    | CsvError     // `csv.Error`, e.g. a field over the parser's size limit

  /** The state of one file on disk. */
  datatype File =
    | Missing
    | Unreadable(error: ReadError)
    | Csv(records: seq<seq<string>>)

  /** `DictWriter` accepts a row only when each of its keys is a field name (it raises `ValueError` otherwise). */
  predicate Fits(row: Row, fieldnames: seq<string>) {
    row.Keys <= NameSet(fieldnames)
  }

  /** The field names as a set. */
  function NameSet(fieldnames: seq<string>): set<string> {
    set k | k in fieldnames
  }

  predicate AllFit(rows: seq<Row>, fieldnames: seq<string>) {
    forall i :: 0 <= i < |rows| ==> Fits(rows[i], fieldnames)
  }

  predicate Distinct(names: seq<string>) {
    forall a, b :: 0 <= a < b < |names| ==> names[a] != names[b]
  }

  /** Pairs names with values position by position; a repeated name keeps its last value. */
  function Zip(names: seq<string>, values: seq<string>): (r: Row)
    requires |names| == |values|
    ensures r.Keys == set k | k in names
  {
    if |names| == 0 then map[]
    else
      var n := |names| - 1;
      var front := Zip(names[..n], values[..n]);
      assert (set k | k in names) == (set k | k in names[..n]) + {names[n]} by {
        assert names == names[..n] + [names[n]];
      }
      front[names[n] := values[n]]
  }

  /** With distinct names every name is paired with the value at its own position. */
  lemma {:induction false} ZipValues(names: seq<string>, values: seq<string>)
    requires |names| == |values| && Distinct(names)
    ensures forall i :: 0 <= i < |names| ==> Zip(names, values)[names[i]] == values[i]
    decreases |names|
  {
    if |names| > 0 {
      var n := |names| - 1;
      DistinctPrefix(names, n);
      ZipValues(names[..n], values[..n]);
      forall i | 0 <= i < n ensures Zip(names, values)[names[i]] == values[i] {
        ZipKeepsEarlier(names, values, i);
      }
    }
  }

  /** The value a distinct name is paired with. */
  lemma {:induction false} ZipAt(names: seq<string>, values: seq<string>, i: nat, key: string, value: string)
    requires |names| == |values| && Distinct(names) && i < |names|
    requires names[i] == key && values[i] == value
    ensures key in Zip(names, values) && Zip(names, values)[key] == value
  {
    ZipValues(names, values);
  }

  /** A name other than the last keeps the value the shorter zip gave it. */
  lemma {:induction false} ZipKeepsEarlier(names: seq<string>, values: seq<string>, i: nat)
    requires |names| == |values| && i < |names| - 1 && names[i] != names[|names| - 1]
    ensures var n := |names| - 1;
            names[i] in Zip(names[..n], values[..n])
            && Zip(names, values)[names[i]] == Zip(names[..n], values[..n])[names[..n][i]]
  {
    var n := |names| - 1;
    assert names[..n][i] == names[i];
  }

  lemma {:induction false} DistinctPrefix(names: seq<string>, n: nat)
    requires n <= |names| && Distinct(names)
    ensures Distinct(names[..n])
  {
    forall a, b | 0 <= a < b < n ensures names[..n][a] != names[..n][b] {
      assert names[..n][a] == names[a] && names[..n][b] == names[b];
    }
  }

  /**
   * The row `DictReader` makes of one record under `header`: the fields both
   * have, keyed by header name. Header names past the end of a short record
   * are absent (Python stores `None` under them), and fields past the end of
   * the header are dropped (Python stores them under the key `None`, which no
   * column name equals).
   */
  function Decode(header: seq<string>, record: seq<string>): (r: Row)
    ensures Fits(r, header)
  {
    var m := if |header| < |record| then |header| else |record|;
    Zip(header[..m], record[..m]) - (set k | k in header[m..])
  }

  /** A record at least as long as a header of distinct names decodes field by field. */
  lemma {:induction false} DecodeFull(header: seq<string>, record: seq<string>)
    requires |record| >= |header| && Distinct(header)
    ensures forall i :: 0 <= i < |header| ==> header[i] in Decode(header, record) && Decode(header, record)[header[i]] == record[i]
  {
    var m := |header|;
    assert header[..m] == header && header[m..] == [];
    assert (set k | k in header[m..]) == {};
    var z := Zip(header, record[..m]);
    ZipValues(header, record[..m]);
    assert Decode(header, record) == z;
  }

  /** `list(DictReader(...))` over the records that follow the header; blank records (`[]`) are skipped. */
  function DecodeAll(header: seq<string>, records: seq<seq<string>>): (rows: seq<Row>)
    ensures |rows| <= |records|
    ensures AllFit(rows, header)
  {
    if |records| == 0 then []
    else
      var front := DecodeAll(header, records[..|records| - 1]);
      var last := records[|records| - 1];
      if last == [] then front else front + [Decode(header, last)]
  }

  /** The rows of a readable file: the first record is the header, the rest are data. */
  function Rows(records: seq<seq<string>>): (rows: seq<Row>)
    ensures |records| > 0 ==> |rows| < |records| && AllFit(rows, records[0])
    ensures |records| <= 1 ==> rows == []
  {
    if |records| == 0 then [] else DecodeAll(records[0], records[1..])
  }

  /** `DictWriter.writerow`: the row's cells in field-name order, `""` for the names it lacks. */
  function Encode(fieldnames: seq<string>, row: Row): (record: seq<string>)
    ensures |record| == |fieldnames|
    ensures forall i :: 0 <= i < |fieldnames| ==>
              record[i] == (if fieldnames[i] in row then row[fieldnames[i]] else "")
  {
    seq(|fieldnames|, i requires 0 <= i < |fieldnames| =>
      if fieldnames[i] in row then row[fieldnames[i]] else "")
  }

  function EncodeAll(fieldnames: seq<string>, rows: seq<Row>): (records: seq<seq<string>>)
    ensures |records| == |rows|
    ensures forall i :: 0 <= i < |rows| ==> records[i] == Encode(fieldnames, rows[i])
  {
    seq(|rows|, i requires 0 <= i < |rows| => Encode(fieldnames, rows[i]))
  }

  /** `writeheader()` then `writerows(rows)` into a truncated file. */
  function Write(fieldnames: seq<string>, rows: seq<Row>): (f: File)
    requires AllFit(rows, fieldnames)
    ensures f.Csv? && |f.records| == |rows| + 1 && f.records[0] == fieldnames
  {
    Csv([fieldnames] + EncodeAll(fieldnames, rows))
  }

  /** A row as it reads back after being written under `fieldnames`: every field present, `""` where the row had none. */
  function Complete(fieldnames: seq<string>, row: Row): (r: Row)
    ensures r.Keys == NameSet(fieldnames)
    ensures forall k :: k in row && k in r ==> r[k] == row[k]
    ensures forall k :: k in r && k !in row ==> r[k] == ""
  {
    map k | k in fieldnames :: if k in row then row[k] else ""
  }

  function CompleteAll(fieldnames: seq<string>, rows: seq<Row>): (r: seq<Row>)
    ensures |r| == |rows|
    ensures forall i :: 0 <= i < |rows| ==> r[i] == Complete(fieldnames, rows[i])
  {
    seq(|rows|, i requires 0 <= i < |rows| => Complete(fieldnames, rows[i]))
  }

  /** A row that already names every field is its own completion. */
  lemma {:induction false} CompleteFullRow(fieldnames: seq<string>, row: Row)
    requires row.Keys == NameSet(fieldnames)
    ensures Complete(fieldnames, row) == row
  {
  }

  /** A written row reads back as its completion: every field present, `""` where the row had none. */
  lemma {:induction false} DecodeEncoded(fieldnames: seq<string>, row: Row)
    requires Distinct(fieldnames) && Fits(row, fieldnames)
    ensures Decode(fieldnames, Encode(fieldnames, row)) == Complete(fieldnames, row)
  {
    var d := Decode(fieldnames, Encode(fieldnames, row));
    var c := Complete(fieldnames, row);
    DecodedKeys(fieldnames, row);
    forall i | 0 <= i < |fieldnames| ensures d[fieldnames[i]] == c[fieldnames[i]] {
      DecodedCell(fieldnames, row, i);
    }
    SameRow(fieldnames, d, c);
  }

  /** Two rows over the same field names that agree on every field are equal. */
  lemma {:induction false} SameRow(fieldnames: seq<string>, a: Row, b: Row)
    requires a.Keys == NameSet(fieldnames) && b.Keys == NameSet(fieldnames)
    requires forall i :: 0 <= i < |fieldnames| ==> a[fieldnames[i]] == b[fieldnames[i]]
    ensures a == b
  {
    forall k | k in a ensures a[k] == b[k] {
      var i :| 0 <= i < |fieldnames| && fieldnames[i] == k;
    }
  }

  lemma {:induction false} DecodedKeys(fieldnames: seq<string>, row: Row)
    requires Distinct(fieldnames)
    ensures Decode(fieldnames, Encode(fieldnames, row)).Keys == NameSet(fieldnames)
  {
    var e := Encode(fieldnames, row);
    DecodeFull(fieldnames, e);
  }

  lemma {:induction false} DecodedCell(fieldnames: seq<string>, row: Row, i: nat)
    requires Distinct(fieldnames) && i < |fieldnames|
    ensures var d := Decode(fieldnames, Encode(fieldnames, row));
            fieldnames[i] in d && d[fieldnames[i]] == Complete(fieldnames, row)[fieldnames[i]]
  {
    var e := Encode(fieldnames, row);
    DecodeFull(fieldnames, e);
    assert e[i] == (if fieldnames[i] in row then row[fieldnames[i]] else "");
  }

  lemma {:induction false} CompleteAllSnoc(fieldnames: seq<string>, rows: seq<Row>)
    requires |rows| > 0
    ensures CompleteAll(fieldnames, rows)
         == CompleteAll(fieldnames, rows[..|rows| - 1]) + [Complete(fieldnames, rows[|rows| - 1])]
  {
    var n := |rows| - 1;
    var a := CompleteAll(fieldnames, rows);
    var b := CompleteAll(fieldnames, rows[..n]) + [Complete(fieldnames, rows[n])];
    forall i | 0 <= i < |a| ensures a[i] == b[i] {
      if i < n {
        assert rows[..n][i] == rows[i];
      }
    }
  }

  lemma {:induction false} DecodeAllEncoded(fieldnames: seq<string>, rows: seq<Row>)
    requires |fieldnames| > 0 && Distinct(fieldnames) && AllFit(rows, fieldnames)
    ensures DecodeAll(fieldnames, EncodeAll(fieldnames, rows)) == CompleteAll(fieldnames, rows)
    decreases |rows|
  {
    if |rows| > 0 {
      var n := |rows| - 1;
      var recs := EncodeAll(fieldnames, rows);
      assert recs[..n] == EncodeAll(fieldnames, rows[..n]);
      assert |recs[n]| == |fieldnames|;
      calc {
        DecodeAll(fieldnames, recs);
        DecodeAll(fieldnames, recs[..n]) + [Decode(fieldnames, recs[n])];
        { DecodeAllEncoded(fieldnames, rows[..n]); DecodeEncoded(fieldnames, rows[n]); }
        CompleteAll(fieldnames, rows[..n]) + [Complete(fieldnames, rows[n])];
      }
      CompleteAllSnoc(fieldnames, rows);
    }
  }

  /**
   * Reading back what `DictWriter` wrote yields each row completed with `""`
   * for the fields it lacked, in the order written, none skipped.
   */
  lemma {:induction false} WriteThenRead(fieldnames: seq<string>, rows: seq<Row>)
    requires |fieldnames| > 0 && Distinct(fieldnames) && AllFit(rows, fieldnames)
    ensures Rows(Write(fieldnames, rows).records) == CompleteAll(fieldnames, rows)
  {
    var recs := Write(fieldnames, rows).records;
    assert recs[1..] == EncodeAll(fieldnames, rows);
    DecodeAllEncoded(fieldnames, rows);
  }
}
