/** The `LIBRARIES` constant of the configuration and the facts the rest of the dashboard relies on. */
module LibConfig {
  import opened Optional
  import opened Catalog

  const Olin := Library("Olin Library",
    [Floor(1, 170, 40), Floor(2, 170, 50), Floor(3, 170, 40), Floor(4, 170, 40), Floor(5, 170, 40)],
    Some("161 Ho Plaza, Ithaca, NY 14853"))
  const Uris := Library("Uris Library",
    [Floor(1, 130, 20), Floor(2, 130, 20), Floor(3, 130, 20), Floor(4, 130, 23)],
    Some("160 Ho Plaza, Ithaca, NY 14853"))
  const Mann := Library("Mann Library",
    [Floor(1, 130, 30), Floor(2, 130, 30), Floor(3, 120, 34)],
    Some("237 Mann Dr, Ithaca, NY 14853"))
  const Engineering := Library("Engineering Library (Carpenter Hall)",
    [Floor(1, 150, 1), Floor(2, 140, 2)],
    Some("313 Campus Rd, Ithaca, NY 14850"))
  const Catherwood := Library("Catherwood Library (ILR School)",
    [Floor(1, 110, 6), Floor(2, 100, 7)],
    Some("521 Ives Hall, Ithaca, NY 14853"))
  const Law := Library("Law Library",
    [Floor(1, 110, 90), Floor(2, 110, 80), Floor(3, 100, 87)],
    Some("524 College Ave, Ithaca, NY 14850"))
  const Clarke := Library("Clarke Africana Library",
    [Floor(1, 140, 100), Floor(2, 137, 115)],
    Some("310 Triphammer Rd, Ithaca, NY 14850"))

  /** `LIBRARIES`, in the order the configuration lists them. */
  const Libraries: seq<Library> := [Olin, Uris, Mann, Engineering, Catherwood, Law, Clarke]

  /** Seats of one library, summed floor by floor. */
  lemma {:induction false} LibraryCapacity(lib: Library, expected: int)
    requires |lib.floors| <= 5
    requires expected == (if |lib.floors| > 0 then lib.floors[0].capacity else 0)
                       + (if |lib.floors| > 1 then lib.floors[1].capacity else 0)
                       + (if |lib.floors| > 2 then lib.floors[2].capacity else 0)
                       + (if |lib.floors| > 3 then lib.floors[3].capacity else 0)
                       + (if |lib.floors| > 4 then lib.floors[4].capacity else 0)
    ensures Capacity(lib.floors) == expected
  {
    var F := lib.floors;
    var k := 0;
    while k < |F|
      invariant 0 <= k <= |F|
      invariant Capacity(F[..k]) == (if k > 0 then F[0].capacity else 0)
                                  + (if k > 1 then F[1].capacity else 0)
                                  + (if k > 2 then F[2].capacity else 0)
                                  + (if k > 3 then F[3].capacity else 0)
                                  + (if k > 4 then F[4].capacity else 0)
    {
      CapacityPrefixStep(F, k + 1);
      k := k + 1;
    }
    assert F[..k] == F;
  }

  lemma {:induction false} CatalogNamesDistinct()
    ensures NamesDistinct(Libraries)
  {
    var L := Libraries;
    assert L[0] == Olin && L[1] == Uris && L[2] == Mann && L[3] == Engineering;
    assert L[4] == Catherwood && L[5] == Law && L[6] == Clarke;
  }

  /** A library of at most five floors is sound when each floor, checked one by one, is. */
  lemma {:induction false} SoundFloorByFloor(lib: Library)
    requires |lib.floors| <= 5 && lib.address.Some? && |lib.address.value| > 0
    requires |lib.floors| > 0 ==> lib.floors[0].number == 1 && FloorSound(lib.floors[0])
    requires |lib.floors| > 1 ==> lib.floors[1].number == 2 && FloorSound(lib.floors[1])
    requires |lib.floors| > 2 ==> lib.floors[2].number == 3 && FloorSound(lib.floors[2])
    requires |lib.floors| > 3 ==> lib.floors[3].number == 4 && FloorSound(lib.floors[3])
    requires |lib.floors| > 4 ==> lib.floors[4].number == 5 && FloorSound(lib.floors[4])
    ensures LibrarySound(lib)
  {
  }

  lemma {:induction false} CatalogLibrariesSound()
    ensures forall i :: 0 <= i < |Libraries| ==> LibrarySound(Libraries[i])
  {
    SoundFloorByFloor(Olin);
    SoundFloorByFloor(Uris);
    SoundFloorByFloor(Mann);
    SoundFloorByFloor(Engineering);
    SoundFloorByFloor(Catherwood);
    SoundFloorByFloor(Law);
    SoundFloorByFloor(Clarke);
  }

  /** Seven libraries with pairwise distinct names, every one sound: floors numbered from 1, capacity above zero, static occupancy within capacity, a non-empty address. */
  lemma {:induction false} CatalogWellFormed()
    ensures |Libraries| == 7
    ensures WellFormed(Libraries)
  {
    CatalogNamesDistinct();
    CatalogLibrariesSound();
  }

  /** 21 floors and 2847 seats in all, the figure the home page shows. */
  lemma {:induction false} CatalogTotals()
    ensures FloorCount(Libraries) == 21
    ensures TotalCapacity(Libraries) == 2847
  {
    var L := Libraries;
    LibraryCapacity(Olin, 850);
    LibraryCapacity(Uris, 520);
    LibraryCapacity(Mann, 380);
    LibraryCapacity(Engineering, 290);
    LibraryCapacity(Catherwood, 210);
    LibraryCapacity(Law, 320);
    LibraryCapacity(Clarke, 277);
    TotalsPrefixStep(L, 1);
    TotalsPrefixStep(L, 2);
    TotalsPrefixStep(L, 3);
    TotalsPrefixStep(L, 4);
    TotalsPrefixStep(L, 5);
    TotalsPrefixStep(L, 6);
    TotalsPrefixStep(L, 7);
    assert L[..0] == [] && L[..7] == L;
  }

  /** The log's header therefore has 22 entries, none repeated. */
  lemma {:induction false} CatalogHeader()
    ensures |Header(Libraries)| == 22
    ensures forall a, b :: 0 <= a < b < |Header(Libraries)| ==> Header(Libraries)[a] != Header(Libraries)[b]
  {
    CatalogTotals();
    CatalogWellFormed();
    HeaderDistinct(Libraries);
  }
}
