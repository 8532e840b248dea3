/**
 * A search that finds too little: the program maps past the range it was
 * given, over a mapping that is there (kernel/src/subsystem/memory.rs).
 */
module PageClash {
  import opened Prelude
  import opened PageWalk
  import opened PageMap
  import opened PageScan
  import opened PageCount
  import opened PageRuns
  import opened PageManager

  const ROOT: Frame := 0x1000

  function Crowd(last: Entry): Table {
    seq(512, i => if i < 511 then Entry(0x4000_0000, {Present, HugePage}) else last)
  }

  function Single(first: Entry): Table {
    seq(512, i => if i == 0 then first else EMPTY)
  }

  /** Below slot 256 of the root only the very last page is free; below slot 257 only the first is mapped. */
  function Crowded(): Tables {
    map[ROOT := seq(512, i => if i == 256 then Entry(0x2000, {Present}) else if i == 257 then Entry(0x5000, {Present})
                              else EMPTY),
        0x2000 := Crowd(Entry(0x3000, {Present})),
        0x3000 := Crowd(Entry(0x4000, {Present})),
        0x4000 := Crowd(EMPTY),
        0x5000 := Single(Entry(0x6000, {Present})),
        0x6000 := Single(Entry(0x7000, {Present})),
        0x7000 := Single(Entry(0x9000, {Present}))]
  }

  ghost function Places(): Owners {
    map[ROOT := Place(Some(ROOT), 4, 0), 0x2000 := Place(None, 3, 256), 0x3000 := Place(None, 2, 256 * 512 + 511),
        0x4000 := Place(None, 1, (256 * 512 + 511) * 512 + 511), 0x5000 := Place(None, 3, 257),
        0x6000 := Place(None, 2, 257 * 512), 0x7000 := Place(None, 1, 257 * 512 * 512)]
  }

  lemma {:induction false} CrowdedInv()
    ensures Inv([], State(Crowded(), 0), Places()) && IsRoot(Places(), ROOT)
  {
    var m, own := Crowded(), Places();
    forall f | f in own ensures TableOwned(m, own, f) {
      forall i | 0 <= i < 512 ensures SlotOwned(own, f, own[f], i, m[f][i]) {
      }
    }
  }

  lemma {:induction false} CrowdedPage(w: nat)
    requires Low(256, 3) <= w < Low(257, 3)
    ensures Mapped(Crowded(), ROOT, w) <==> w != Low(257, 3) - 1
    ensures w == Low(257, 3) - 1 ==> HasTable(Crowded(), ROOT, w)
  {
    Below(256, w, 3);
    LowOfSlot(257);
    var m := Crowded();
    assert High(w, 2) == 256 * 512 + Digit(w, 3) && High(w, 1) == High(w, 2) * 512 + Digit(w, 2)
           && w == High(w, 1) * 512 + Digit(w, 1);
    assert Digit(w, 4) == 256;
    assert Resolve(m, ROOT, 4, w) == Resolve(m, 0x2000, 3, w);
    if Digit(w, 3) == 511 {
      assert Resolve(m, 0x2000, 3, w) == Resolve(m, 0x3000, 2, w);
      if Digit(w, 2) == 511 {
        assert Resolve(m, 0x3000, 2, w) == Resolve(m, 0x4000, 1, w);
        assert Reach(m, ROOT, 4, w, 1) == Reach(m, 0x2000, 3, w, 1) == Reach(m, 0x3000, 2, w, 1)
                 == Reach(m, 0x4000, 1, w, 1);
      }
    }
  }

  /** The page after the range is mapped, and has its tables. */
  lemma {:induction false} CrowdedNext(w: nat)
    requires w == Low(257, 3)
    ensures Resolve(Crowded(), ROOT, 4, w) == Some(Leaf(0x9000, 1)) && HasTable(Crowded(), ROOT, w)
  {
    LowOfSlot(257);
    var m := Crowded();
    assert Digit(w, 4) == 257 && Digit(w, 3) == 0 && Digit(w, 2) == 0 && Digit(w, 1) == 0;
    assert Resolve(m, ROOT, 4, w) == Resolve(m, 0x5000, 3, w) == Resolve(m, 0x6000, 2, w) == Resolve(m, 0x7000, 1, w);
    assert Reach(m, ROOT, 4, w, 1) == Reach(m, 0x5000, 3, w, 1) == Reach(m, 0x6000, 2, w, 1)
             == Reach(m, 0x7000, 1, w, 1);
  }

  lemma {:induction false} CrowdedSearch(from: nat, end: nat)
    requires from == Low(256, 3) && end == Low(257, 3)
    ensures Search(Crowded(), ROOT, from, 2, from, end) == FreeRun(Some(end - 1), 1)
  {
    var m := Crowded();
    LowOfSlot(256);
    LowOfSlot(257);
    forall q: nat | from <= q < end ensures Back(m, ROOT, from, q) == 0 {
      if from < q {
        CrowdedPage(q - 1);
      }
    }
    CrowdedPage(end - 1);
    SearchEnds(m, ROOT, from, 2, from, end, end, FreeRun(Some(end - 1), 1));
  }

  lemma {:induction false} CrowdedFurnished(from: nat, end: nat)
    requires from == Low(256, 3) && end == Low(257, 3)
    ensures Furnished(Crowded(), ROOT, from, end)
  {
    forall w: nat | from <= w < end ensures FurnishedAt(Crowded(), ROOT, w) {
      CrowdedPage(w);
    }
  }

  /** Whenever only the last page below slot 256 is free and the next page has its tables, that page is mapped anew. */
  method MapsPastRange(manager: MemoryManager, root: Frame, base: Frame, pf: PageFlags, ghost own0: Owners,
                       ghost end: nat)
    requires Inv(manager.frames, manager.St(), own0) && IsRoot(own0, root) && end == Low(257, 3)
    requires Search(manager.tables, root, Low(256, 3), 2, Low(256, 3), end) == FreeRun(Some(end - 1), 1)
    requires Furnished(manager.tables, root, Low(256, 3), end) && HasTable(manager.tables, root, end)
    modifies manager
    ensures At(manager.St(), root, end) == Some(Leaf(base + 0x1000, 1))
  {
    LowOfSlot(257);
    FurnishedNeeds(manager.tables, root, 256, 257, 2);
    ghost var st0 := manager.St();
    var r;
    ghost var run, k, own;
    r, run, k, own := manager.MapAnyContiguous(root, 256, 257, base, 2, pf, own0);
    assert RunMappedAt(st0, manager.St(), manager.tables, root, root, end - 1, base, k, end)
           && HasTable(manager.tables, root, end);
  }

  /** Asked for two pages below slot 256, it maps the last page there, and the first page below slot 257 anew. */
  method OverwritesMapping(manager: MemoryManager, base: Frame, pf: PageFlags)
    requires manager.frames == [] && manager.St() == State(Crowded(), 0)
    modifies manager
    ensures At(old(manager.St()), ROOT, Low(257, 3)) == Some(Leaf(0x9000, 1))
    ensures At(manager.St(), ROOT, Low(257, 3)) == Some(Leaf(base + 0x1000, 1))
  {
    ghost var end := Low(257, 3);
    CrowdedInv();
    CrowdedSearch(Low(256, 3), end);
    CrowdedFurnished(Low(256, 3), end);
    CrowdedNext(end);
    MapsPastRange(manager, ROOT, base, pf, Places(), end);
  }
}
