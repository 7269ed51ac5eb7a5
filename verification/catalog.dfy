/**
 * The static library catalog (`LIBRARIES`) and the column names derived from
 * it. A column name `"{library} Floor {n}"` is the only link between a floor
 * of the catalog and a cell of the occupancy log, so its derivation is
 * defined once here and shown injective.
 */
module Catalog {
  import opened Optional
  import opened Text

  /** One floor of the configuration: its number, its seat capacity and a static occupancy figure. */
  datatype Floor = Floor(number: int, capacity: int, occupied: int)

  /** A library building: name, floors in display order, and an address when one is configured. */
  datatype Library = Library(name: string, floors: seq<Floor>, address: Option<string>)

  /** A floor seen from the flattened catalog: the library's position, the floor's position in it, and both records' data. */
  datatype Slot = Slot(lib: nat, index: nat, name: string, floor: Floor)

  const TimestampColumn: string := "timestamp"

  /** The column that holds a floor's count in the log: `f"{name} Floor {number}"`. */
  function ColumnName(name: string, number: int): (c: string)
    ensures |c| > |name| + 7 && c[..|name|] == name && c[|name|] == ' '
  {
    name + " Floor " + Decimal(number)
  }

  /** No two (library name, floor number) pairs share a column. */
  lemma {:induction false} ColumnNameInjective(n1: string, f1: int, n2: string, f2: int)
    requires ColumnName(n1, f1) == ColumnName(n2, f2)
    ensures n1 == n2 && f1 == f2
  {
    SplitAtLastSpace(n1 + " Floor ", Decimal(f1), n2 + " Floor ", Decimal(f2));
    DecimalInjective(f1, f2);
    assert n1 == (n1 + " Floor ")[..|n1|] && n2 == (n2 + " Floor ")[..|n2|];
  }

  /** Two ways of writing a string as a prefix ending in a space followed by a space-free suffix are the same way. */
  lemma {:induction false} SplitAtLastSpace(a: string, d1: string, b: string, d2: string)
    requires |a| > 0 && a[|a| - 1] == ' ' && |b| > 0 && b[|b| - 1] == ' '
    requires forall i :: 0 <= i < |d1| ==> d1[i] != ' '
    requires forall i :: 0 <= i < |d2| ==> d2[i] != ' '
    requires a + d1 == b + d2
    ensures a == b && d1 == d2
  {
    var s := a + d1;
    assert s[|a| - 1] == ' ' && s[|b| - 1] == ' ';
    assert forall i :: |a| <= i < |s| ==> s[i] == d1[i - |a|];
    assert forall i :: |b| <= i < |s| ==> s[i] == d2[i - |b|];
    assert |a| == |b|;
    assert a == s[..|a|] && b == s[..|b|];
  }

  /** No column name collides with the timestamp column. */
  lemma {:induction false} ColumnNameIsNotTimestamp(name: string, number: int)
    ensures ColumnName(name, number) != TimestampColumn
  {
    var c := ColumnName(name, number);
    assert ' ' !in TimestampColumn;
    assert c[|name|] in c;
  }

  function SlotColumn(s: Slot): string {
    ColumnName(s.name, s.floor.number)
  }

  function FloorCount(libs: seq<Library>): nat {
    if |libs| == 0 then 0 else FloorCount(libs[..|libs| - 1]) + |libs[|libs| - 1].floors|
  }

  /** Slot `(lib, index)` comes strictly before slot `(lib', index')` in library-then-floor order. */
  predicate Before(a: Slot, b: Slot) {
    a.lib < b.lib || (a.lib == b.lib && a.index < b.index)
  }

  function LibrarySlots(i: nat, lib: Library): (r: seq<Slot>)
    ensures |r| == |lib.floors|
    ensures forall j :: 0 <= j < |r| ==> r[j] == Slot(i, j, lib.name, lib.floors[j])
  {
    seq(|lib.floors|, j requires 0 <= j < |lib.floors| => Slot(i, j, lib.name, lib.floors[j]))
  }

  /**
   * Every floor of the catalog, library by library and floor by floor within a
   * library: the iteration order of the nested `for lib ... for floor_data`
   * loops the producers and the header use.
   */
  function Slots(libs: seq<Library>): (r: seq<Slot>)
    ensures |r| == FloorCount(libs)
    ensures forall k :: 0 <= k < |r| ==>
      && r[k].lib < |libs| && r[k].index < |libs[r[k].lib].floors|
      && r[k].name == libs[r[k].lib].name && r[k].floor == libs[r[k].lib].floors[r[k].index]
  {
    if |libs| == 0 then []
    else
      var front := Slots(libs[..|libs| - 1]);
      var r := front + LibrarySlots(|libs| - 1, libs[|libs| - 1]);
      assert forall k :: 0 <= k < |front| ==> r[k] == front[k];
      r
  }

  /** The slots run library by library, and floor by floor within a library. */
  lemma {:induction false} SlotsOrdered(libs: seq<Library>)
    ensures forall k1, k2 :: 0 <= k1 < k2 < |Slots(libs)| ==> Before(Slots(libs)[k1], Slots(libs)[k2])
    decreases |libs|
  {
    if |libs| > 0 {
      var last := |libs| - 1;
      SlotsOrdered(libs[..last]);
      OrderedAppend(Slots(libs[..last]), LibrarySlots(last, libs[last]), last);
    }
  }

  /** Slots of earlier libraries followed by the floors of library `last`, in order, stay ordered. */
  lemma {:induction false} OrderedAppend(front: seq<Slot>, tail: seq<Slot>, last: nat)
    requires forall k1, k2 :: 0 <= k1 < k2 < |front| ==> Before(front[k1], front[k2])
    requires forall k :: 0 <= k < |front| ==> front[k].lib < last
    requires forall j :: 0 <= j < |tail| ==> tail[j].lib == last && tail[j].index == j
    ensures forall k1, k2 :: 0 <= k1 < k2 < |front + tail| ==> Before((front + tail)[k1], (front + tail)[k2])
  {
    var r := front + tail;
    forall k1, k2 | 0 <= k1 < k2 < |r| ensures Before(r[k1], r[k2]) {
      if k2 < |front| {
        assert r[k1] == front[k1] && r[k2] == front[k2];
      } else if k1 < |front| {
        assert r[k1] == front[k1] && r[k2] == tail[k2 - |front|];
      } else {
        assert r[k1] == tail[k1 - |front|] && r[k2] == tail[k2 - |front|];
      }
    }
  }

  /** Floor `j` of library `i` sits at position `FloorCount(libs[..i]) + j` of the flattened catalog. */
  lemma {:induction false} SlotAt(libs: seq<Library>, i: nat, j: nat)
    requires i < |libs| && j < |libs[i].floors|
    ensures FloorCount(libs[..i]) + j < |Slots(libs)|
    ensures Slots(libs)[FloorCount(libs[..i]) + j] == Slot(i, j, libs[i].name, libs[i].floors[j])
    decreases |libs|
  {
    var last := |libs| - 1;
    if i < last {
      SlotAt(libs[..last], i, j);
      assert libs[..last][..i] == libs[..i] && libs[..last][i] == libs[i];
      SlotsKeepFront(libs, FloorCount(libs[..i]) + j);
    } else {
      SlotsOfLast(libs, i, j);
    }
  }

  /** Adding a library leaves the slots of the libraries before it where they were. */
  lemma {:induction false} SlotsKeepFront(libs: seq<Library>, p: nat)
    requires |libs| > 0 && p < |Slots(libs[..|libs| - 1])|
    ensures p < |Slots(libs)| && Slots(libs)[p] == Slots(libs[..|libs| - 1])[p]
  {
  }

  /** The last library's floors come last, in order. */
  lemma {:induction false} SlotsOfLast(libs: seq<Library>, i: nat, j: nat)
    requires i == |libs| - 1 && j < |libs[i].floors|
    ensures FloorCount(libs[..i]) + j < |Slots(libs)|
    ensures Slots(libs)[FloorCount(libs[..i]) + j] == Slot(i, j, libs[i].name, libs[i].floors[j])
  {
  }

  /** `get_column_names()`: the timestamp column, then one column per floor in catalog order. */
  function Header(libs: seq<Library>): (h: seq<string>)
    ensures |h| == 1 + FloorCount(libs) && h[0] == TimestampColumn
    ensures forall k :: 0 <= k < |Slots(libs)| ==> h[k + 1] == SlotColumn(Slots(libs)[k])
  {
    [TimestampColumn] + seq(|Slots(libs)|, k requires 0 <= k < |Slots(libs)| => SlotColumn(Slots(libs)[k]))
  }

  // ---------------------------------------------------------------- seat sums

  /** Total seats over a list of floors. */
  function Capacity(floors: seq<Floor>): int {
    if |floors| == 0 then 0 else Capacity(floors[..|floors| - 1]) + floors[|floors| - 1].capacity
  }

  /** Total occupied seats over a list of floors. */
  function Occupied(floors: seq<Floor>): int {
    if |floors| == 0 then 0 else Occupied(floors[..|floors| - 1]) + floors[|floors| - 1].occupied
  }

  /** Total seats over the whole catalog. */
  function TotalCapacity(libs: seq<Library>): int {
    if |libs| == 0 then 0 else TotalCapacity(libs[..|libs| - 1]) + Capacity(libs[|libs| - 1].floors)
  }

  lemma {:induction false} CapacityPrefixStep(floors: seq<Floor>, k: nat)
    requires 0 < k <= |floors|
    ensures Capacity(floors[..k]) == Capacity(floors[..k - 1]) + floors[k - 1].capacity
  {
    assert floors[..k][..k - 1] == floors[..k - 1];
  }

  lemma {:induction false} TotalsPrefixStep(libs: seq<Library>, k: nat)
    requires 0 < k <= |libs|
    ensures TotalCapacity(libs[..k]) == TotalCapacity(libs[..k - 1]) + Capacity(libs[k - 1].floors)
    ensures FloorCount(libs[..k]) == FloorCount(libs[..k - 1]) + |libs[k - 1].floors|
  {
    assert libs[..k][..k - 1] == libs[..k - 1];
  }

  // ---------------------------------------------------------------- well-formedness

  predicate NamesDistinct(libs: seq<Library>) {
    forall i1, i2 :: 0 <= i1 < i2 < |libs| ==> libs[i1].name != libs[i2].name
  }

  /** Floors are numbered 1, 2, ..., n in list order. */
  predicate NumberedFromOne(lib: Library) {
    forall j :: 0 <= j < |lib.floors| ==> lib.floors[j].number == j + 1
  }

  predicate FloorSound(f: Floor) {
    f.capacity > 0 && 0 <= f.occupied <= f.capacity
  }

  predicate LibrarySound(lib: Library) {
    && NumberedFromOne(lib)
    && (forall j :: 0 <= j < |lib.floors| ==> FloorSound(lib.floors[j]))
    && lib.address.Some? && |lib.address.value| > 0
  }

  predicate WellFormed(libs: seq<Library>) {
    NamesDistinct(libs) && forall i :: 0 <= i < |libs| ==> LibrarySound(libs[i])
  }

  /** Distinct library names and per-library floor numbering make every derived column distinct. */
  lemma {:induction false} ColumnsDistinct(libs: seq<Library>)
    requires NamesDistinct(libs)
    requires forall i :: 0 <= i < |libs| ==> NumberedFromOne(libs[i])
    ensures forall k1, k2 :: 0 <= k1 < k2 < |Slots(libs)| ==>
              SlotColumn(Slots(libs)[k1]) != SlotColumn(Slots(libs)[k2])
    ensures forall k :: 0 <= k < |Slots(libs)| ==> SlotColumn(Slots(libs)[k]) != TimestampColumn
  {
    var r := Slots(libs);
    SlotsOrdered(libs);
    forall k1, k2 | 0 <= k1 < k2 < |r|
      ensures SlotColumn(r[k1]) != SlotColumn(r[k2])
    {
      assert Before(r[k1], r[k2]);
      assert r[k1].name != r[k2].name || r[k1].floor.number != r[k2].floor.number;
      if SlotColumn(r[k1]) == SlotColumn(r[k2]) {
        ColumnNameInjective(r[k1].name, r[k1].floor.number, r[k2].name, r[k2].floor.number);
      }
    }
    forall k | 0 <= k < |r| ensures SlotColumn(r[k]) != TimestampColumn {
      ColumnNameIsNotTimestamp(r[k].name, r[k].floor.number);
    }
  }

  /** The header names no column twice. */
  lemma {:induction false} HeaderDistinct(libs: seq<Library>)
    requires NamesDistinct(libs)
    requires forall i :: 0 <= i < |libs| ==> NumberedFromOne(libs[i])
    ensures forall a, b :: 0 <= a < b < |Header(libs)| ==> Header(libs)[a] != Header(libs)[b]
  {
    ColumnsDistinct(libs);
    var h := Header(libs);
    forall a, b | 0 <= a < b < |h| ensures h[a] != h[b] {
      if a == 0 {
        assert h[b] == SlotColumn(Slots(libs)[b - 1]);
      } else {
        assert h[a] == SlotColumn(Slots(libs)[a - 1]) && h[b] == SlotColumn(Slots(libs)[b - 1]);
      }
    }
  }
}
