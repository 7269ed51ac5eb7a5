/**
 * The row both producers hand to the log: a `"timestamp"` cell and then one
 * cell per catalog floor, filled in catalog order exactly as the producers'
 * nested loops assign `row_data[col_name] = value`. Counts are written with
 * `str(int)` by the CSV writer, so the row stores their decimal text.
 */
module Snapshot {
  import opened Text
  import opened Catalog
  import opened CsvFile

  /** The column of every floor, in catalog order (the header without its timestamp column). */
  function Columns(libs: seq<Library>): (cols: seq<string>)
    ensures |cols| == |Slots(libs)|
    ensures forall k :: 0 <= k < |cols| ==> cols[k] == SlotColumn(Slots(libs)[k])
    ensures Header(libs) == [TimestampColumn] + cols
  {
    Header(libs)[1..]
  }

  function DecimalAll(counts: seq<int>): (cells: seq<string>)
    ensures |cells| == |counts|
    ensures forall k :: 0 <= k < |counts| ==> cells[k] == Decimal(counts[k])
  {
    seq(|counts|, k requires 0 <= k < |counts| => Decimal(counts[k]))
  }

  /**
   * `{"timestamp": stamp}` followed by `row_data[column] = count` for every
   * floor in catalog order, `counts` holding one count per floor.
   */
  function BuildRow(stamp: string, libs: seq<Library>, counts: seq<int>): (row: Row)
    requires |counts| == FloorCount(libs)
    ensures row.Keys == NameSet(Header(libs))
  {
    Zip(Header(libs), [stamp] + DecimalAll(counts))
  }

  /** The row carries the timestamp it was built with. */
  lemma {:induction false} BuildRowStamp(stamp: string, libs: seq<Library>, counts: seq<int>)
    requires |counts| == FloorCount(libs)
    ensures TimestampColumn in BuildRow(stamp, libs, counts)
    ensures BuildRow(stamp, libs, counts)[TimestampColumn] == stamp
  {
    var h := Header(libs);
    var v := [stamp] + DecimalAll(counts);
    ZipFirst(h, v);
  }

  /** Floor `k` of the catalog finds its count, in decimal, under its column. */
  lemma {:induction false} BuildRowCell(stamp: string, libs: seq<Library>, counts: seq<int>, k: nat)
    requires |counts| == FloorCount(libs) && k < |counts|
    requires NamesDistinct(libs) && forall i :: 0 <= i < |libs| ==> NumberedFromOne(libs[i])
    ensures SlotColumn(Slots(libs)[k]) in BuildRow(stamp, libs, counts)
    ensures BuildRow(stamp, libs, counts)[SlotColumn(Slots(libs)[k])] == Decimal(counts[k])
  {
    HeaderDistinct(libs);
    ZipAt(Header(libs), [stamp] + DecimalAll(counts), k + 1, SlotColumn(Slots(libs)[k]), Decimal(counts[k]));
  }

  /** The first name keeps the first value when it does not come back later. */
  lemma {:induction false} ZipFirst(names: seq<string>, values: seq<string>)
    requires |names| == |values| && |names| > 0
    requires forall i :: 0 < i < |names| ==> names[i] != names[0]
    ensures names[0] in Zip(names, values) && Zip(names, values)[names[0]] == values[0]
    decreases |names|
  {
    var n := |names| - 1;
    if n > 0 {
      ZipFirst(names[..n], values[..n]);
      assert names[..n][0] == names[0] && values[..n][0] == values[0];
    }
  }

  /**
   * With distinct library names and floors numbered from one, the row holds
   * exactly the header's columns, the given timestamp, and each floor's count
   * under that floor's column.
   */
  lemma {:induction false} BuildRowCells(stamp: string, libs: seq<Library>, counts: seq<int>)
    requires |counts| == FloorCount(libs)
    requires NamesDistinct(libs) && forall i :: 0 <= i < |libs| ==> NumberedFromOne(libs[i])
    ensures Distinct(Header(libs))
    ensures BuildRow(stamp, libs, counts).Keys == NameSet(Header(libs))
    ensures BuildRow(stamp, libs, counts)[TimestampColumn] == stamp
    ensures forall k :: 0 <= k < |counts| ==>
              BuildRow(stamp, libs, counts)[SlotColumn(Slots(libs)[k])] == Decimal(counts[k])
  {
    HeaderDistinct(libs);
    BuildRowStamp(stamp, libs, counts);
    forall k | 0 <= k < |counts|
      ensures BuildRow(stamp, libs, counts)[SlotColumn(Slots(libs)[k])] == Decimal(counts[k])
    {
      BuildRowCell(stamp, libs, counts, k);
    }
  }
}
