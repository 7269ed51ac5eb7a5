/**
 * The camera-based producer: `count_people_in_images` and the loop of
 * `start_background_generator`. The detector is a parameter (`detect` gives
 * the number of people it finds in an image) and so is the set of image
 * files present on disk.
 */
module Vision {
  import opened Optional
  import opened Text
  import opened Catalog
  import opened CsvFile
  import opened SnapshotStore
  import opened Snapshot

  /** Each detected person stands for this many occupants. */
  const PeoplePerDetection: nat := 8

  /** Frames are numbered `1..FrameCount` and cycled through. */
  const FrameCount: nat := 9

  /** The image `data/lib_images/{library}/floor{floor}/frame{frame}.png`. */
  datatype Image = Image(library: string, floor: int, frame: int)

  function SlotImage(s: Slot, frame: int): Image {
    Image(s.name, s.floor.number, frame)
  }

  /** Python's `needle in haystack` on strings: `needle` occurs somewhere in `haystack`. */
  predicate IsInfix(needle: string, haystack: string)
    decreases |haystack|
  {
    (|needle| <= |haystack| && haystack[..|needle|] == needle)
    || (|haystack| > 0 && IsInfix(needle, haystack[1..]))
  }

  /**
   * The images of frame `frame` that exist, each with the column its count
   * goes to, in catalog order; floors whose image is missing are skipped.
   */
  function BatchOf(slots: seq<Slot>, frame: int, present: set<Image>): (b: seq<(string, Image)>)
    ensures |b| <= |slots|
    ensures forall k :: 0 <= k < |b| ==> b[k].1 in present && b[k].1.frame == frame
  {
    if |slots| == 0 then []
    else
      var s := slots[|slots| - 1];
      BatchOf(slots[..|slots| - 1], frame, present)
      + (if SlotImage(s, frame) in present then [(SlotColumn(s), SlotImage(s, frame))] else [])
  }

  // ---------------------------------------------------------------- capacity clamp

  /** The capacity of the first floor of a library whose column is `key` (the inner loop and its `break`). */
  function FirstFloorMatch(name: string, floors: seq<Floor>, key: string): Option<int> {
    if |floors| == 0 then None
    else if ColumnName(name, floors[0].number) == key then Some(floors[0].capacity)
    else FirstFloorMatch(name, floors[1..], key)
  }

  /** One turn of the outer loop: a library whose name occurs in `key` clamps `count` to its matching floor's capacity. */
  function ClampInLibrary(lib: Library, key: string, count: int): (r: int)
    ensures r <= count
  {
    if IsInfix(lib.name, key) then
      match FirstFloorMatch(lib.name, lib.floors, key)
      case Some(capacity) => if count > capacity then capacity else count
      case None => count
    else count
  }

  /** The clamp loop of `count_people_in_images` over the whole catalog, library by library. */
  function ClampToCatalog(libs: seq<Library>, key: string, count: int): (r: int)
    ensures r <= count
  {
    if |libs| == 0 then count
    else ClampInLibrary(libs[|libs| - 1], key, ClampToCatalog(libs[..|libs| - 1], key, count))
  }

  lemma {:induction false} FirstFloorMatchNone(name: string, floors: seq<Floor>, key: string)
    requires forall m :: 0 <= m < |floors| ==> ColumnName(name, floors[m].number) != key
    ensures FirstFloorMatch(name, floors, key) == None
    decreases |floors|
  {
    if |floors| > 0 {
      FirstFloorMatchNone(name, floors[1..], key);
    }
  }

  lemma {:induction false} FirstFloorMatchAt(name: string, floors: seq<Floor>, key: string, j: nat)
    requires j < |floors| && ColumnName(name, floors[j].number) == key
    requires forall m :: 0 <= m < j ==> ColumnName(name, floors[m].number) != key
    ensures FirstFloorMatch(name, floors, key) == Some(floors[j].capacity)
    decreases j
  {
    if j > 0 {
      FirstFloorMatchAt(name, floors[1..], key, j - 1);
    }
  }

  /** A library never clamps the column of another library's floor. */
  lemma {:induction false} ClampOtherLibrary(lib: Library, name: string, number: int, count: int)
    requires lib.name != name
    ensures ClampInLibrary(lib, ColumnName(name, number), count) == count
  {
    var key := ColumnName(name, number);
    forall m | 0 <= m < |lib.floors| ensures ColumnName(lib.name, lib.floors[m].number) != key {
      if ColumnName(lib.name, lib.floors[m].number) == key {
        ColumnNameInjective(lib.name, lib.floors[m].number, name, number);
      }
    }
    FirstFloorMatchNone(lib.name, lib.floors, key);
  }

  /** A library's name occurs in each of its columns. */
  lemma {:induction false} NameInColumn(name: string, number: int)
    ensures IsInfix(name, ColumnName(name, number))
  {
  }

  /** A library clamps its own floor's column to that floor's capacity. */
  lemma {:induction false} ClampOwnFloor(lib: Library, j: nat, count: int)
    requires NumberedFromOne(lib) && j < |lib.floors|
    ensures ClampInLibrary(lib, ColumnName(lib.name, lib.floors[j].number), count)
         == Min(lib.floors[j].capacity, count)
  {
    var key := ColumnName(lib.name, lib.floors[j].number);
    NameInColumn(lib.name, lib.floors[j].number);
    forall m | 0 <= m < j ensures ColumnName(lib.name, lib.floors[m].number) != key {
      if ColumnName(lib.name, lib.floors[m].number) == key {
        ColumnNameInjective(lib.name, lib.floors[m].number, lib.name, lib.floors[j].number);
      }
    }
    FirstFloorMatchAt(lib.name, lib.floors, key, j);
  }

  /**
   * In a catalog with distinct names and floors numbered from one, the clamp
   * loop sets a floor's count to `min(capacity, count)`: only that floor's
   * library matches, and only at that floor.
   */
  lemma {:induction false} ClampIsCapacity(libs: seq<Library>, i: nat, j: nat, count: int)
    requires NamesDistinct(libs) && forall i' :: 0 <= i' < |libs| ==> NumberedFromOne(libs[i'])
    requires i < |libs| && j < |libs[i].floors|
    ensures ClampToCatalog(libs, ColumnName(libs[i].name, libs[i].floors[j].number), count)
         == Min(libs[i].floors[j].capacity, count)
    decreases |libs|
  {
    var n := |libs| - 1;
    var key := ColumnName(libs[i].name, libs[i].floors[j].number);
    var front := libs[..n];
    if i < n {
      assert front[i] == libs[i];
      ClampIsCapacity(front, i, j, count);
      assert libs[n].name != libs[i].name;
      ClampOtherLibrary(libs[n], libs[i].name, libs[i].floors[j].number, ClampToCatalog(front, key, count));
    } else {
      ClampUnmatched(front, libs[i].name, libs[i].floors[j].number, count);
      ClampOwnFloor(libs[i], j, count);
    }
  }

  /** Libraries none of which is named `name` leave the count of a `name` column alone. */
  lemma {:induction false} ClampUnmatched(libs: seq<Library>, name: string, number: int, count: int)
    requires forall i :: 0 <= i < |libs| ==> libs[i].name != name
    ensures ClampToCatalog(libs, ColumnName(name, number), count) == count
    decreases |libs|
  {
    if |libs| > 0 {
      var n := |libs| - 1;
      ClampUnmatched(libs[..n], name, number, count);
      ClampOtherLibrary(libs[n], name, number, count);
    }
  }

  // ---------------------------------------------------------------- counting

  /** `counts[key] = final_count` for every image of the batch, in order: `8 *` the people detected, clamped. */
  function CountBatch(libs: seq<Library>, batch: seq<(string, Image)>, detect: Image -> nat): (counts: map<string, int>)
    ensures counts.Keys == set k | 0 <= k < |batch| :: batch[k].0
  {
    if |batch| == 0 then map[]
    else
      var n := |batch| - 1;
      var front := CountBatch(libs, batch[..n], detect);
      assert (set k | 0 <= k < |batch| :: batch[k].0) == (set k | 0 <= k < n :: batch[..n][k].0) + {batch[n].0} by {
        forall k | 0 <= k < n ensures batch[..n][k] == batch[k] { }
      }
      front[batch[n].0 := ClampToCatalog(libs, batch[n].0, PeoplePerDetection * detect(batch[n].1))]
  }

  /**
   * `count_people_in_images(model, frame)`: `Raised` when the detector fails
   * on a non-empty batch. An empty batch never reaches the detector and
   * yields no counts.
   */
  function CountPeople(libs: seq<Library>, frame: int, present: set<Image>, model: Image -> nat, modelFails: bool)
    : (r: Result<map<string, int>, ()>)
    ensures |BatchOf(Slots(libs), frame, present)| == 0 ==> r == Ok(map[])
    ensures r.Raised? <==> modelFails && |BatchOf(Slots(libs), frame, present)| > 0
  {
    var batch := BatchOf(Slots(libs), frame, present);
    if |batch| == 0 then Ok(map[])
    else if modelFails then Raised(())
    else Ok(CountBatch(libs, batch, model))
  }

  /** The value counted for a floor whose image exists. */
  function SlotCount(libs: seq<Library>, s: Slot, frame: int, detect: Image -> nat): int {
    ClampToCatalog(libs, SlotColumn(s), PeoplePerDetection * detect(SlotImage(s, frame)))
  }

  predicate ColumnsDistinctIn(slots: seq<Slot>) {
    forall a, b :: 0 <= a < b < |slots| ==> SlotColumn(slots[a]) != SlotColumn(slots[b])
  }

  /** `c` holds a count for exactly the floors of `slots` whose image exists, each the clamped detection. */
  predicate CountsMatch(libs: seq<Library>, slots: seq<Slot>, frame: int, present: set<Image>,
                        detect: Image -> nat, c: map<string, int>)
  {
    forall k :: 0 <= k < |slots| ==>
      && (SlotColumn(slots[k]) in c <==> SlotImage(slots[k], frame) in present)
      && (SlotColumn(slots[k]) in c ==> c[SlotColumn(slots[k])] == SlotCount(libs, slots[k], frame, detect))
  }

  lemma {:induction false} CountBatchSnoc(libs: seq<Library>, batch: seq<(string, Image)>, x: (string, Image),
                                         detect: Image -> nat)
    ensures CountBatch(libs, batch + [x], detect)
         == CountBatch(libs, batch, detect)[x.0 := ClampToCatalog(libs, x.0, PeoplePerDetection * detect(x.1))]
  {
    assert (batch + [x])[..|batch|] == batch;
  }

  /** Every key counted from a batch of `slots` is the column of one of them. */
  lemma {:induction false} CountKeysFrom(libs: seq<Library>, slots: seq<Slot>, frame: int, present: set<Image>,
                                        detect: Image -> nat, key: string)
    requires key in CountBatch(libs, BatchOf(slots, frame, present), detect)
    ensures exists m :: 0 <= m < |slots| && key == SlotColumn(slots[m])
  {
    var b := BatchOf(slots, frame, present);
    var k :| 0 <= k < |b| && b[k].0 == key;
    BatchColumnFrom(slots, frame, present, k);
  }

  /** Counting the batch of one more floor adds that floor's count exactly when its image exists. */
  lemma {:induction false} CountSlotsSnoc(libs: seq<Library>, slots: seq<Slot>, frame: int, present: set<Image>,
                                         detect: Image -> nat)
    requires |slots| > 0
    ensures var n := |slots| - 1;
            var fc := CountBatch(libs, BatchOf(slots[..n], frame, present), detect);
            CountBatch(libs, BatchOf(slots, frame, present), detect)
              == if SlotImage(slots[n], frame) in present
                 then fc[SlotColumn(slots[n]) := SlotCount(libs, slots[n], frame, detect)]
                 else fc
  {
    var n := |slots| - 1;
    var s := slots[n];
    var fb := BatchOf(slots[..n], frame, present);
    if SlotImage(s, frame) in present {
      CountBatchSnoc(libs, fb, (SlotColumn(s), SlotImage(s, frame)), detect);
    } else {
      assert BatchOf(slots, frame, present) == fb + [] == fb;
    }
  }

  lemma {:induction false} CountsMatchSnoc(libs: seq<Library>, slots: seq<Slot>, frame: int,
                                          present: set<Image>, detect: Image -> nat, fc: map<string, int>,
                                          c: map<string, int>)
    requires |slots| > 0
    requires CountsMatch(libs, slots[..|slots| - 1], frame, present, detect, fc)
    requires forall k :: 0 <= k < |slots| - 1 ==> SlotColumn(slots[k]) != SlotColumn(slots[|slots| - 1])
    requires SlotColumn(slots[|slots| - 1]) !in fc
    requires c == if SlotImage(slots[|slots| - 1], frame) in present
                  then fc[SlotColumn(slots[|slots| - 1]) := SlotCount(libs, slots[|slots| - 1], frame, detect)]
                  else fc
    ensures CountsMatch(libs, slots, frame, present, detect, c)
  {
    var n := |slots| - 1;
    var col := SlotColumn(slots[n]);
    UpdateKeepsOthers(fc, c, col, SlotImage(slots[n], frame) in present, SlotCount(libs, slots[n], frame, detect));
    forall k | 0 <= k < |slots|
      ensures (SlotColumn(slots[k]) in c <==> SlotImage(slots[k], frame) in present)
      ensures SlotColumn(slots[k]) in c ==> c[SlotColumn(slots[k])] == SlotCount(libs, slots[k], frame, detect)
    {
      if k < n {
        assert slots[..n][k] == slots[k];
        OtherColumnKept(fc, c, col, SlotImage(slots[n], frame) in present, SlotCount(libs, slots[n], frame, detect),
                        SlotColumn(slots[k]), SlotImage(slots[k], frame) in present, SlotCount(libs, slots[k], frame, detect));
      }
    }
  }

  /** A column counted correctly before the update is still counted correctly after it. */
  lemma {:induction false} OtherColumnKept(fc: map<string, int>, c: map<string, int>, col: string, counted: bool, v: int,
                                          key: string, has: bool, w: int)
    requires c == if counted then fc[col := v] else fc
    requires key != col && (key in fc <==> has) && (key in fc ==> fc[key] == w)
    ensures (key in c <==> has) && (key in c ==> c[key] == w)
  {
  }

  /** Counting one more floor, or skipping it, leaves every other column's count as it was. */
  lemma {:induction false} UpdateKeepsOthers(fc: map<string, int>, c: map<string, int>, col: string, counted: bool, v: int)
    requires c == if counted then fc[col := v] else fc
    ensures col in c <==> counted || col in fc
    ensures counted ==> c[col] == v
    ensures forall key :: key != col ==> (key in c <==> key in fc) && (key in c ==> c[key] == fc[key])
  {
  }

  /** A key that is no slot's column gets no count. */
  lemma {:induction false} ForeignKeyUncounted(libs: seq<Library>, slots: seq<Slot>, frame: int, present: set<Image>,
                                              detect: Image -> nat, key: string)
    requires forall m :: 0 <= m < |slots| ==> key != SlotColumn(slots[m])
    ensures key !in CountBatch(libs, BatchOf(slots, frame, present), detect)
  {
    if key in CountBatch(libs, BatchOf(slots, frame, present), detect) {
      CountKeysFrom(libs, slots, frame, present, detect, key);
    }
  }

  /** With distinct columns, the last floor's column is not among the counts of the floors before it. */
  lemma {:induction false} LastColumnUncounted(libs: seq<Library>, slots: seq<Slot>, frame: int, present: set<Image>,
                                              detect: Image -> nat)
    requires |slots| > 0 && ColumnsDistinctIn(slots)
    ensures SlotColumn(slots[|slots| - 1]) !in CountBatch(libs, BatchOf(slots[..|slots| - 1], frame, present), detect)
  {
    var n := |slots| - 1;
    var front := slots[..n];
    var key := SlotColumn(slots[n]);
    forall m | 0 <= m < |front| ensures key != SlotColumn(front[m]) {
      assert front[m] == slots[m];
    }
    ForeignKeyUncounted(libs, front, frame, present, detect, key);
  }

  /** Dropping the last slot keeps the columns distinct, and the last column differs from all before it. */
  lemma {:induction false} ColumnsDistinctFront(slots: seq<Slot>)
    requires |slots| > 0 && ColumnsDistinctIn(slots)
    ensures ColumnsDistinctIn(slots[..|slots| - 1])
    ensures forall k :: 0 <= k < |slots| - 1 ==> SlotColumn(slots[k]) != SlotColumn(slots[|slots| - 1])
  {
    var front := slots[..|slots| - 1];
    forall a, b | 0 <= a < b < |front| ensures SlotColumn(front[a]) != SlotColumn(front[b]) {
      assert front[a] == slots[a] && front[b] == slots[b];
    }
  }

  /** One more slot: the counts still match when they matched for the slots before it. */
  lemma {:induction false} CountsOfSlotsStep(libs: seq<Library>, slots: seq<Slot>, frame: int, present: set<Image>,
                                            detect: Image -> nat)
    requires |slots| > 0 && ColumnsDistinctIn(slots)
    requires CountsMatch(libs, slots[..|slots| - 1], frame, present, detect,
                         CountBatch(libs, BatchOf(slots[..|slots| - 1], frame, present), detect))
    ensures CountsMatch(libs, slots, frame, present, detect, CountBatch(libs, BatchOf(slots, frame, present), detect))
  {
    var fc := CountBatch(libs, BatchOf(slots[..|slots| - 1], frame, present), detect);
    ColumnsDistinctFront(slots);
    LastColumnUncounted(libs, slots, frame, present, detect);
    CountSlotsSnoc(libs, slots, frame, present, detect);
    CountsMatchSnoc(libs, slots, frame, present, detect, fc,
                    CountBatch(libs, BatchOf(slots, frame, present), detect));
  }

  /**
   * Over slots with distinct columns, a floor has a count exactly when its
   * image exists, and then the count is that image's clamped detection.
   */
  lemma {:induction false} CountsOfSlots(libs: seq<Library>, slots: seq<Slot>, frame: int, present: set<Image>,
                                        detect: Image -> nat)
    requires ColumnsDistinctIn(slots)
    ensures CountsMatch(libs, slots, frame, present, detect, CountBatch(libs, BatchOf(slots, frame, present), detect))
    decreases |slots|
  {
    if |slots| > 0 {
      ColumnsDistinctFront(slots);
      CountsOfSlots(libs, slots[..|slots| - 1], frame, present, detect);
      CountsOfSlotsStep(libs, slots, frame, present, detect);
    }
  }

  /** Every batch entry is the column of one of the slots it came from. */
  lemma {:induction false} BatchColumnFrom(slots: seq<Slot>, frame: int, present: set<Image>, k: nat)
    requires k < |BatchOf(slots, frame, present)|
    ensures exists m :: 0 <= m < |slots| && BatchOf(slots, frame, present)[k].0 == SlotColumn(slots[m])
    decreases |slots|
  {
    var n := |slots| - 1;
    var fb := BatchOf(slots[..n], frame, present);
    if k < |fb| {
      BatchColumnFrom(slots[..n], frame, present, k);
      var m :| 0 <= m < n && fb[k].0 == SlotColumn(slots[..n][m]);
      assert slots[..n][m] == slots[m];
      assert BatchOf(slots, frame, present)[k] == fb[k];
    } else {
      assert BatchOf(slots, frame, present)[k].0 == SlotColumn(slots[n]);
    }
  }

  /**
   * For a catalog with distinct names and floors numbered from one,
   * `count_people_in_images` reports a floor exactly when its image exists,
   * as `min(capacity, 8 * people detected)`, and reports no other key.
   */
  lemma {:induction false} CountPeopleCorrect(libs: seq<Library>, frame: int, present: set<Image>,
                                             model: Image -> nat, modelFails: bool)
    requires NamesDistinct(libs) && forall i :: 0 <= i < |libs| ==> NumberedFromOne(libs[i])
    requires CountPeople(libs, frame, present, model, modelFails).Ok?
    ensures var c := CountPeople(libs, frame, present, model, modelFails).value;
            forall k :: 0 <= k < |Slots(libs)| ==>
              && (SlotColumn(Slots(libs)[k]) in c <==> SlotImage(Slots(libs)[k], frame) in present)
              && (SlotColumn(Slots(libs)[k]) in c ==>
                    c[SlotColumn(Slots(libs)[k])]
                    == Min(Slots(libs)[k].floor.capacity, PeoplePerDetection * model(SlotImage(Slots(libs)[k], frame))))
    ensures var c := CountPeople(libs, frame, present, model, modelFails).value;
            forall key :: key in c ==> exists k :: 0 <= k < |Slots(libs)| && key == SlotColumn(Slots(libs)[k])
  {
    var slots := Slots(libs);
    var c := CountPeople(libs, frame, present, model, modelFails).value;
    assert c == CountBatch(libs, BatchOf(slots, frame, present), model);
    ColumnsDistinct(libs);
    CountsOfSlots(libs, slots, frame, present, model);
    forall k | 0 <= k < |slots|
      ensures SlotCount(libs, slots[k], frame, model)
           == Min(slots[k].floor.capacity, PeoplePerDetection * model(SlotImage(slots[k], frame)))
    {
      ClampIsCapacity(libs, slots[k].lib, slots[k].index, PeoplePerDetection * model(SlotImage(slots[k], frame)));
    }
    forall key | key in c ensures exists k :: 0 <= k < |slots| && key == SlotColumn(slots[k]) {
      CountKeysFrom(libs, slots, frame, present, model, key);
    }
  }

  // ---------------------------------------------------------------- the loop

  /** `counts.get(key, 0)` for every floor column, in catalog order: floors without an image count as empty. */
  function FilledCounts(libs: seq<Library>, counts: map<string, int>): (r: seq<int>)
    ensures |r| == FloorCount(libs)
    ensures forall k :: 0 <= k < |r| ==>
              r[k] == if SlotColumn(Slots(libs)[k]) in counts then counts[SlotColumn(Slots(libs)[k])] else 0
  {
    var slots := Slots(libs);
    seq(|slots|, k requires 0 <= k < |slots| =>
      if SlotColumn(slots[k]) in counts then counts[SlotColumn(slots[k])] else 0)
  }

  /** The row the loop appends: the timestamp and one count per floor column. */
  function VisionRow(stamp: string, libs: seq<Library>, counts: map<string, int>): (row: Row)
    ensures row.Keys == NameSet(Header(libs))
  {
    BuildRow(stamp, libs, FilledCounts(libs, counts))
  }

  /** The count a floor should get from one frame: its clamped detection when its image exists, `0` otherwise. */
  function ExpectedCount(s: Slot, frame: int, present: set<Image>, model: Image -> nat): int {
    if SlotImage(s, frame) in present
    then Min(s.floor.capacity, PeoplePerDetection * model(SlotImage(s, frame)))
    else 0
  }

  lemma {:induction false} FilledCountsExpected(libs: seq<Library>, frame: int, present: set<Image>,
                                               model: Image -> nat, modelFails: bool)
    requires NamesDistinct(libs) && forall i :: 0 <= i < |libs| ==> NumberedFromOne(libs[i])
    requires CountPeople(libs, frame, present, model, modelFails).Ok?
    ensures var counts := FilledCounts(libs, CountPeople(libs, frame, present, model, modelFails).value);
            forall k :: 0 <= k < |counts| ==> counts[k] == ExpectedCount(Slots(libs)[k], frame, present, model)
  {
    CountPeopleCorrect(libs, frame, present, model, modelFails);
  }

  /**
   * What one successful count puts in the log: the timestamp, and under each
   * floor column a number that reads back as `min(capacity, 8 * people)` when
   * that floor's image exists and as `0` when it does not.
   */
  lemma {:induction false} VisionRowCells(stamp: string, libs: seq<Library>, frame: int, present: set<Image>,
                                         model: Image -> nat, modelFails: bool)
    requires NamesDistinct(libs) && forall i :: 0 <= i < |libs| ==> NumberedFromOne(libs[i])
    requires CountPeople(libs, frame, present, model, modelFails).Ok?
    ensures var row := VisionRow(stamp, libs, CountPeople(libs, frame, present, model, modelFails).value);
            && row[TimestampColumn] == stamp
            && forall k :: 0 <= k < |Slots(libs)| ==>
                 ParseInt(row[SlotColumn(Slots(libs)[k])]) == Some(ExpectedCount(Slots(libs)[k], frame, present, model))
  {
    var counts := FilledCounts(libs, CountPeople(libs, frame, present, model, modelFails).value);
    FilledCountsExpected(libs, frame, present, model, modelFails);
    BuildRowCells(stamp, libs, counts);
    forall k | 0 <= k < |counts| ensures ParseInt(Decimal(counts[k])) == Some(counts[k]) {
      ParseDecimalRoundTrip(counts[k]);
    }
  }

  /** `frame_index += 1`, back to `1` after the last frame. */
  function NextFrame(frame: int): (r: int)
    ensures r <= FrameCount && (frame >= 0 ==> 1 <= r)
    ensures frame < FrameCount ==> r == frame + 1
    ensures frame >= FrameCount ==> r == 1
  {
    if frame + 1 > FrameCount then 1 else frame + 1
  }

  /** The frame read after `n` successful iterations, counting from the first frame. */
  function FrameAfter(n: nat): int {
    if n == 0 then 1 else NextFrame(FrameAfter(n - 1))
  }

  /** The first nine iterations read frames `1` to `9` in turn. */
  lemma {:induction false} FramesInOrder(n: nat)
    requires n < FrameCount
    ensures FrameAfter(n) == n + 1
  {
    if n > 0 {
      FramesInOrder(n - 1);
    }
  }

  /** After nine iterations the loop is back at the frame it started from. */
  lemma {:induction false} FramesRepeat(n: nat)
    ensures FrameAfter(n + FrameCount) == FrameAfter(n)
  {
    if n == 0 {
      FramesInOrder(FrameCount - 1);
    } else {
      FramesRepeat(n - 1);
    }
  }

  /** The frames are visited in the cycle `1, 2, ..., 9, 1, 2, ...`. */
  lemma {:induction false} FrameCycle(n: nat)
    ensures FrameAfter(n) == n % FrameCount + 1
    decreases n
  {
    if n < FrameCount {
      FramesInOrder(n);
    } else {
      var m := n - FrameCount;
      FrameCycle(m);
      FramesRepeat(m);
      ModShift(m);
    }
  }

  lemma {:induction false} ModShift(m: nat)
    ensures (m + FrameCount) % FrameCount == m % FrameCount
  {
  }

  /** What the loop carries from one iteration to the next: the frame to read and the log file. */
  datatype Camera = Camera(frame: int, log: File)

  /** The loop's starting point: frame `1` and the log as found on disk. */
  function Start(log: File): Camera {
    Camera(1, log)
  }

  /**
   * What one iteration sees: the time, the image files on disk, how the
   * detector behaves, and whether the process may write the log path (a
   * read-only file or a directory may not be written).
   */
  datatype Sight = Sight(stamp: string, present: set<Image>, model: Image -> nat, modelFails: bool, logWritable: bool)

  /**
   * One iteration of the loop: count the current frame, build the row, append
   * it. An exception from either step leaves the frame where it was, so the
   * same frame is tried again; a failed append still leaves behind the file it
   * truncated and partly rewrote.
   */
  function Tick(libs: seq<Library>, cam: Camera, sight: Sight): (r: Camera)
    ensures r.frame == cam.frame || r.frame == NextFrame(cam.frame)
    ensures 1 <= cam.frame <= FrameCount ==> 1 <= r.frame <= FrameCount
    ensures r.frame != cam.frame ==> r.log.Csv? && |r.log.records| >= 2 && r.log.records[0] == Header(libs)
  {
    match CountPeople(libs, cam.frame, sight.present, sight.model, sight.modelFails)
    case Raised(_) => cam
    case Ok(counts) =>
      match TryAppendRow(cam.log, VisionRow(sight.stamp, libs, counts), Header(libs), sight.logWritable)
      case Ok(log) => Camera(NextFrame(cam.frame), log)
      case Raised(partial) => Camera(cam.frame, partial)
  }

  /** A detector failure on a non-empty batch changes nothing: no row is written and the frame is retried. */
  lemma {:induction false} FailedCountKeepsState(libs: seq<Library>, cam: Camera, sight: Sight)
    requires sight.modelFails && |BatchOf(Slots(libs), cam.frame, sight.present)| > 0
    ensures Tick(libs, cam, sight) == cam
  {
  }

  /**
   * An append that raises (`OSError` on a log it may not write, `DictWriter`'s
   * `ValueError` on a log with a foreign header) does not advance the frame: the same frame is tried again, on the
   * file the failed append left behind.
   */
  lemma {:induction false} FailedAppendKeepsFrame(libs: seq<Library>, cam: Camera, sight: Sight)
    requires CountPeople(libs, cam.frame, sight.present, sight.model, sight.modelFails).Ok?
    requires var c := CountPeople(libs, cam.frame, sight.present, sight.model, sight.modelFails);
             TryAppendRow(cam.log, VisionRow(sight.stamp, libs, c.value), Header(libs), sight.logWritable).Raised?
    ensures var c := CountPeople(libs, cam.frame, sight.present, sight.model, sight.modelFails);
            Tick(libs, cam, sight)
            == Camera(cam.frame, TryAppendRow(cam.log, VisionRow(sight.stamp, libs, c.value), Header(libs), sight.logWritable).error)
  {
  }

  /**
   * When the log may not be written (a read-only file, a directory) the
   * iteration raises, in the count or in `open(csv_file, 'w')`: nothing is
   * written and the frame is retried.
   */
  lemma {:induction false} UnwritableLogStalls(libs: seq<Library>, cam: Camera, sight: Sight)
    requires !sight.logWritable
    ensures Tick(libs, cam, sight) == cam
  {
  }

  /**
   * On a log this catalog wrote (or none at all), an iteration whose detector
   * works and which may write the log appends exactly its row and moves to the
   * next frame.
   */
  lemma {:induction false} TickAppends(libs: seq<Library>, cam: Camera, sight: Sight)
    requires AllFit(ExistingRows(cam.log), Header(libs))
    requires !sight.modelFails && sight.logWritable
    ensures var c := CountPeople(libs, cam.frame, sight.present, sight.model, sight.modelFails);
            && c.Ok?
            && Tick(libs, cam, sight)
               == Camera(NextFrame(cam.frame), AppendRow(cam.log, VisionRow(sight.stamp, libs, c.value), Header(libs)))
  {
    var c := CountPeople(libs, cam.frame, sight.present, sight.model, sight.modelFails);
    AppendOfFittingRow(cam.log, VisionRow(sight.stamp, libs, c.value), Header(libs));
  }

  lemma {:induction false} AppendOfFittingRow(f: File, row: Row, fieldnames: seq<string>)
    requires Fits(row, fieldnames) && AllFit(ExistingRows(f), fieldnames)
    ensures TryAppendRow(f, row, fieldnames, true) == Ok(AppendRow(f, row, fieldnames))
  {
  }

  /** No iteration's detector call raises, and every iteration may write the log. */
  predicate TicksWork(sights: seq<Sight>) {
    forall i :: 0 <= i < |sights| ==> !sights[i].modelFails && sights[i].logWritable
  }

  /** After the first iteration, the remaining iterations still work. */
  lemma {:induction false} WorkingTail(sights: seq<Sight>)
    requires |sights| > 0 && TicksWork(sights)
    ensures !sights[0].modelFails && sights[0].logWritable && TicksWork(sights[1..])
  {
    var rest := sights[1..];
    assert forall i :: 0 <= i < |rest| ==> rest[i] == sights[i + 1];
  }

  /** The loop over a sequence of iterations, in order. */
  function Run(libs: seq<Library>, cam: Camera, sights: seq<Sight>): Camera
    decreases |sights|
  {
    if |sights| == 0 then cam else Run(libs, Tick(libs, cam, sights[0]), sights[1..])
  }

  /** While the log may not be written the loop never leaves its frame and never writes, however long it runs. */
  lemma {:induction false} UnwritableLogNeverAdvances(libs: seq<Library>, cam: Camera, sights: seq<Sight>)
    requires forall i :: 0 <= i < |sights| ==> !sights[i].logWritable
    ensures Run(libs, cam, sights) == cam
    decreases |sights|
  {
    if |sights| > 0 {
      UnwritableLogStalls(libs, cam, sights[0]);
      var rest := sights[1..];
      assert forall i :: 0 <= i < |rest| ==> rest[i] == sights[i + 1];
      UnwritableLogNeverAdvances(libs, cam, rest);
    }
  }

  /** A working iteration on a log this catalog wrote advances the frame and leaves such a log. */
  lemma {:induction false} TickKeepsOwnLog(libs: seq<Library>, cam: Camera, sight: Sight)
    requires AllFit(ExistingRows(cam.log), Header(libs))
    requires !sight.modelFails && sight.logWritable
    ensures Tick(libs, cam, sight).frame == NextFrame(cam.frame)
    ensures AllFit(ExistingRows(Tick(libs, cam, sight).log), Header(libs))
  {
    TickAppends(libs, cam, sight);
  }

  /**
   * From the frame of iteration `k` on a log this catalog wrote, working
   * iterations keep cycling: the run ends at the frame of iteration `last`.
   */
  lemma {:induction false} RunFrom(libs: seq<Library>, cam: Camera, sights: seq<Sight>, k: nat, last: nat)
    requires cam.frame == FrameAfter(k) && AllFit(ExistingRows(cam.log), Header(libs))
    requires TicksWork(sights) && last == k + |sights|
    ensures Run(libs, cam, sights).frame == FrameAfter(last)
    ensures AllFit(ExistingRows(Run(libs, cam, sights).log), Header(libs))
    decreases |sights|
  {
    if |sights| > 0 {
      WorkingTail(sights);
      TickKeepsOwnLog(libs, cam, sights[0]);
      FrameAfterStep(k);
      RunFrom(libs, Tick(libs, cam, sights[0]), sights[1..], k + 1, last);
    }
  }

  lemma {:induction false} FrameAfterStep(k: nat)
    ensures FrameAfter(k + 1) == NextFrame(FrameAfter(k))
  {
  }

  /**
   * With a working detector, a log this catalog wrote (or none) and
   * permission to write it, every iteration succeeds: the loop started at frame `1` advances once per
   * iteration, and the log stays one this catalog wrote.
   */
  lemma {:induction false} RunCyclesFrames(libs: seq<Library>, log: File, sights: seq<Sight>)
    requires AllFit(ExistingRows(log), Header(libs))
    requires forall i :: 0 <= i < |sights| ==> !sights[i].modelFails && sights[i].logWritable
    ensures Run(libs, Start(log), sights).frame == FrameAfter(|sights|)
    ensures AllFit(ExistingRows(Run(libs, Start(log), sights).log), Header(libs))
  {
    RunFrom(libs, Start(log), sights, 0, |sights|);
  }
}
