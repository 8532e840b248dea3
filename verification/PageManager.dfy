/** The memory manager: page tables edited in place, frames taken from the allocator. */
module PageManager {
  import opened Prelude
  import opened PageWalk
  import opened PageMap
  import opened PageAddress
  import opened PageScan
  import opened PageGrants
  import opened PageCount
  import opened PageRuns
  import opened PageRunGrants
  import opened FrameRuns

  class MemoryManager {
    const frames: seq<Frame>
    var tables: Tables
    var n: nat

    ghost function St(): State
      reads this
    {
      State(tables, n)
    }

    constructor (regions: seq<Region>, tables: Tables)
      ensures frames == UsableFrames(regions) && St() == State(tables, 0)
    {
      frames := UsableFrames(regions);
      this.tables, n := tables, 0;
    }

    method AllocateFrame() returns (r: Option<Frame>)
      modifies `n
      ensures n == old(n) + 1 && r == if old(n) < |frames| then Some(frames[old(n)]) else None
    {
      r := if n < |frames| then Some(frames[n]) else None;
      n := n + 1;
    }

    /** Takes `count` frames one by one and returns the first; they are in a row exactly if the row was long enough. */
    method AllocateFramesContiguous(count: nat, ghost regions: seq<Region>) returns (r: Option<Frame>)
      requires frames == UsableFrames(regions)
      modifies `n
      ensures var m := if count == 0 then 1 else count;
              && (r.Some? <==> old(n) + m <= |frames|)
              && (r.Some? ==> r.value == frames[old(n)] && n == old(n) + m)
              && (r.Some? ==> (InRow(frames, old(n), m, r.value) <==> m <= RowAt(regions, old(n))))
      ensures r.None? ==> |frames| < n
    {
      r := AllocateFrame();
      var i := 1;
      while i < count
        invariant 1 <= i && (i <= count || i == 1) && n == old(n) + i
        invariant r == if old(n) < |frames| then Some(frames[old(n)]) else None
        invariant i > 1 ==> n <= |frames|
      {
        var next := AllocateFrame();
        if next.None? {
          return None;
        }
        i := i + 1;
      }
      if r.Some? {
        RowExact(regions, old(n), i);
      }
    }

    method SetEntry(f: Frame, i: nat, e: Entry)
      requires f in tables && i < 512
      modifies `tables
      ensures tables == SetSlot(old(tables), f, i, e)
    {
      tables := tables[f := tables[f][i := e]];
    }

    method AllocateLowerLevelPageTable(f: Frame, i: nat) returns (ok: bool)
      requires f in tables && i < 512
      modifies this
      ensures ok <==> old(n) < |frames|
      ensures n == old(n) + 1
      ensures tables == if ok
                        then SetSlot(old(tables)[frames[old(n)] := Zeroed()], f, i, Entry(frames[old(n)], {Present}))
                        else old(tables)
    {
      var frame := AllocateFrame();
      match frame {
        case None => return false;
        case Some(a) =>
          tables := tables[a := Zeroed()];
          SetEntry(f, i, Entry(a, {Present}));
          return true;
      }
    }

    method AssignPropagableFlags(f: Frame, i: nat, pf: PageFlags)
      requires f in tables && i < 512
      modifies `tables
      ensures tables == SetSlot(old(tables), f, i, Propagate(old(tables[f][i]), pf))
      ensures f in tables && tables[f][i].address == old(tables[f][i].address)
      ensures forall x: Flag :: x in tables[f][i].flags <==> x in old(tables[f][i].flags) || Asked(pf, x)
    {
      SetEntry(f, i, Propagate(tables[f][i], pf));
    }

    /** One level of the way down: a missing table is added, a huge page stops the walk, permissions are passed on. */
    method DescendStep(f: Frame, level: nat, v: nat, pf: PageFlags,
                       ghost own0: Owners) returns (stop: Option<Outcome>, ghost own: Owners)
      requires Inv(frames, St(), own0) && OnWalk(own0, f, level, v) && 2 <= level
      modifies this
      ensures Inv(frames, St(), own) && f in tables
      ensures var d := Descend(frames, old(St()), f, level, v, pf);
              match stop
              case None =>
                && OnWalk(own, tables[f][Digit(v, level)].address, level - 1, v)
                && d == Descend(frames, St(), tables[f][Digit(v, level)].address, level - 1, v, pf)
              case Some(o) => d == if o == HugePageMapped then Blocked(St()) else NoFrames(St())
      ensures stop.Some? ==> stop.value == HugePageMapped || stop.value == Panicked
    {
      own := own0;
      StepDown(tables, own, f, level, v);
      var i := Digit(v, level);
      if !tables[f][i].IsPresent() {
        ghost var st := St();
        var ok := AllocateLowerLevelPageTable(f, i);
        if !ok {
          return Some(Panicked), own;
        }
        AssignPropagableFlags(f, i, pf);
        LinkedLemma(frames, st, own, f, i, pf);
        ghost var e := Entry(frames[st.n], {Present});
        SlotTwice(st.tables[frames[st.n] := Zeroed()], f, i, e, Propagate(e, pf));
        own := own[frames[st.n] := ChildPlace(f, own[f], i)];
        StepDown(tables, own, f, level, v);
      } else {
        if level < 4 && tables[f][i].IsHuge() {
          return Some(HugePageMapped), own;
        }
        Reflag(tables, own, f, i, Propagate(tables[f][i], pf));
        AssignPropagableFlags(f, i, pf);
      }
      return None, own;
    }

    /** Maps the page at `address` to `frame`. */
    method MapInner(root: Frame, address: nat, frame: Frame, pf: PageFlags, ghost own0: Owners)
      returns (outcome: Outcome, ghost own: Owners)
      requires Inv(frames, St(), own0) && IsRoot(own0, root)
      requires address < TWO_64 && SignExtend(address) == address && address % TWO_12 == 0
      modifies this
      ensures Step(St(), outcome) == Map(frames, old(St()), root, PageNumber(address), frame, pf)
      ensures Inv(frames, St(), own) && Extends(own, own0)
      ensures Grants(old(tables), tables, own0, own, root, PageNumber(address), frame, pf, outcome == Ok)
      ensures outcome == Ok ==> HasRights(tables, root, PageNumber(address), frame, pf)
    {
      var v := PageNumber(address);
      outcome := MapPage(root, v, frame, pf, own0);
      own := MapGrants(frames, old(St()), own0, root, v, frame, pf);
      if outcome == Ok {
        MapRights(frames, old(St()), own0, root, v, frame, pf);
      }
    }

    /** The walk down to page `v` and the entry of the page. */
    method MapPage(root: Frame, v: nat, frame: Frame, pf: PageFlags, ghost own0: Owners) returns (outcome: Outcome)
      requires Inv(frames, St(), own0) && IsRoot(own0, root) && v < PAGES
      modifies this
      ensures Step(St(), outcome) == Map(frames, old(St()), root, v, frame, pf)
    {
      var f, level := root, 4;
      ghost var own := own0;
      RootOnWalk(tables, own, root, v);
      while level > 1
        invariant 1 <= level <= 4
        invariant Inv(frames, St(), own) && OnWalk(own, f, level, v)
        invariant Descend(frames, St(), f, level, v, pf) == Descend(frames, old(St()), root, 4, v, pf)
      {
        var stop;
        stop, own := DescendStep(f, level, v, pf, own);
        if stop.Some? {
          return stop.value;
        }
        f, level := tables[f][Digit(v, level)].address, level - 1;
      }
      StepDown(tables, own, f, 1, v);
      if tables[f][Digit(v, 1)].IsPresent() {
        return AlreadyMapped;
      }
      SetEntry(f, Digit(v, 1), LeafEntry(frame, pf));
      return Ok;
    }

    /** Removes the mapping of the page at `address`. */
    method UnmapInner(root: Frame, address: nat, ghost own: Owners) returns (outcome: Outcome)
      requires Inv(frames, St(), own) && IsRoot(own, root)
      requires address < TWO_64 && Canonical(address) && address % TWO_12 == 0
      modifies `tables
      ensures Step(St(), outcome) == Unmap(old(St()), root, 4, PageNumber(address))
    {
      var v := PageNumber(address);
      var f, level := root, 4;
      RootOnWalk(tables, own, root, v);
      while true
        invariant 1 <= level <= 4 && tables == old(tables)
        invariant OnWalk(own, f, level, v)
        invariant Unmap(St(), f, level, v) == Unmap(old(St()), root, 4, v)
        decreases level
      {
        StepDown(tables, own, f, level, v);
        var i := Digit(v, level);
        if !tables[f][i].IsPresent() {
          return NonExistentMapping;
        }
        if level == 1 || (level < 4 && tables[f][i].IsHuge()) {
          if !Aligned(v, level - 1) {
            return Panicked;
          }
          SetEntry(f, i, EMPTY);
          return Ok;
        }
        f, level := tables[f][i].address, level - 1;
      }
    }

    /** Walks the tables for one address. */
    method TranslateAddress(root: Frame, address: nat, ghost own: Owners) returns (r: Option<nat>)
      requires Owned(tables, own) && IsRoot(own, root) && address < TWO_64
      ensures r == Translate(tables, root, address)
    {
      if !Canonical(address) {
        return None;
      }
      var v := PageNumber(address);
      var f, level := root, 4;
      RootOnWalk(tables, own, root, v);
      while true
        invariant 1 <= level <= 4 && OnWalk(own, f, level, v)
        invariant Resolve(tables, f, level, v) == Resolve(tables, root, 4, v)
        decreases level
      {
        StepDown(tables, own, f, level, v);
        var e := tables[f][Digit(v, level)];
        if !e.IsPresent() {
          return None;
        }
        if level == 1 || (level < 4 && e.IsHuge()) {
          return Some(e.address + address % Span(level));
        }
        f, level := e.address, level - 1;
      }
    }

    // ── Scans ───────────────────────────────────────────────────────────────

    /** Makes sure there is a table below the slot, for a scan to go on in. */
    method OpenSlot(f: Frame, level: nat, prefix: nat, i: nat, ghost root: Frame, ghost own0: Owners)
      returns (ok: bool, child: Frame, ghost own: Owners)
      requires Inv(frames, St(), own0) && IsRoot(own0, root) && Covers(tables, own0, root, f, level, prefix)
      requires 2 <= level && i < 512 && !(tables[f][i].IsPresent() && level < 4 && tables[f][i].IsHuge())
      modifies this
      ensures SlotTried(frames, old(St()), St(), own0, own, root, f, level, prefix, i, ok, child)
    {
      own, ok, child := own0, true, tables[f][i].address;
      ghost var st := St();
      SlotThere(frames, st, own0, root, f, level, prefix, i, child);
      if !tables[f][i].IsPresent() {
        ok := AllocateLowerLevelPageTable(f, i);
        child := tables[f][i].address;
        if ok {
          SlotAdded(frames, st, own0, root, f, level, prefix, i);
          PropagateNothing(Entry(frames[st.n], {Present}));
          own := own0[frames[st.n] := ChildPlace(f, own0[f], i)];
        }
      }
    }

    /**
     * Looks for the first free page below table `f`, in slots `lo` to `hi`, adding the tables on its way. Page `v` is
     * that page; the scan adds the tables that are missing on the way to it, and none if there is no such page.
     */
    method Scan(f: Frame, level: nat, prefix: nat, lo: nat, hi: nat, ghost root: Frame, ghost own: Owners)
      returns (r: ScanResult, ghost v: nat)
      requires Inv(frames, St(), own) && IsRoot(own, root) && Covers(tables, own, root, f, level, prefix)
               && lo <= hi <= 512
      modifies this
      ensures r.Full? ==> MappedBetween(old(tables), root, level, prefix, lo, hi) && St() == old(St())
      ensures !r.Full? ==> FirstFree(old(tables), root, level, prefix, lo, hi, v)
      ensures !r.Full? ==> ScanEnds(frames, old(St()), St(), f, level, v, r)
      decreases level, 1
    {
      v := 0;
      for i := lo to hi
        invariant St() == old(St()) && MappedBetween(tables, root, level, prefix, lo, i)
      {
        SlotSeen(tables, own, root, f, level, prefix, lo, hi, i);
        if level == 1 {
          v := prefix * 512 + i;
          if prefix * 512 + i != 0 && !tables[f][i].IsPresent() {
            return Found(prefix * 512 + i), v;
          }
        } else if !(tables[f][i].IsPresent() && level < 4 && tables[f][i].IsHuge()) {
          r, v := ScanBelow(f, level, prefix, i, root, own);
          BelowSeen(old(tables), root, level, prefix, lo, hi, i, r, v);
          if !r.Full? {
            return;
          }
        }
      }
      return Full, v;
    }

    /** The part of a scan below one slot. */
    method ScanBelow(f: Frame, level: nat, prefix: nat, i: nat, ghost root: Frame, ghost own: Owners)
      returns (r: ScanResult, ghost v: nat)
      requires Inv(frames, St(), own) && IsRoot(own, root) && Covers(tables, own, root, f, level, prefix)
      requires 2 <= level && i < 512 && !(tables[f][i].IsPresent() && level < 4 && tables[f][i].IsHuge())
      modifies this
      ensures r.Full? ==> SlotMapped(old(tables), root, level - 1, prefix * 512 + i) && St() == old(St())
      ensures !r.Full? ==> FirstFree(old(tables), root, level - 1, prefix * 512 + i, 0, 512, v)
      ensures !r.Full? ==> ScanEnds(frames, old(St()), St(), f, level, v, r)
      decreases level, 0
    {
      ghost var st0 := St();
      var p := prefix * 512 + i;
      var ok, child;
      ghost var own1;
      ok, child, own1 := OpenSlot(f, level, prefix, i, root, own);
      if !ok {
        v := FirstPage(p, level - 1);
        TriedStarved(frames, st0, St(), own, own1, root, f, level, prefix, i, child, v);
        return OutOfFrames, v;
      }
      ghost var st1 := St();
      r, v := Scan(child, level - 1, p, 0, 512, root, own1);
      TriedScanned(frames, st0, st1, St(), own, own1, root, f, level, prefix, i, child, r, v);
    }

    /**
     * Maps `frame` at the first free page below slots `lo` to `hi` of the root.
     * It panics, here without an address, exactly if every page there is mapped or too few frames are left for the
     * tables that are missing on the way to the first free page.
     */
    method MapAnyInner(root: Frame, lo: nat, hi: nat, frame: Frame, pf: PageFlags, ghost own0: Owners)
      returns (address: Option<nat>, ghost v: nat, ghost own: Owners)
      requires Inv(frames, St(), own0) && IsRoot(own0, root) && lo <= hi <= 512
      modifies this
      ensures Inv(frames, St(), own) && Extends(own, own0)
      ensures MappedBetween(old(tables), root, 4, 0, lo, hi) ==> address.None? && St() == old(St())
      ensures !MappedBetween(old(tables), root, 4, 0, lo, hi) ==>
                var k := Missing(old(tables), root, v, 4);
                && FirstFree(old(tables), root, 4, 0, lo, hi, v)
                && (address.None? <==> Short(|frames|, old(n), k)) && n == Counter(|frames|, old(n), k)
      ensures address.None? ==> SameView(old(tables), tables, own0)
      ensures address.Some? ==>
                && address.value == AddressOf(v) && Step(St(), Ok) == Map(frames, old(St()), root, v, frame, pf)
                && OnlyMapped(old(St()), St(), own0, root, v, frame)
                && Grants(old(tables), tables, own0, own, root, v, frame, pf, true)
                && HasRights(tables, root, v, frame, pf)
      ensures address.Some? ==> forall r: Frame, w: nat :: IsRoot(own0, r) && w < PAGES ==>
                At(Unmap(St(), root, 4, v).st, r, w) == At(old(St()), r, w)
    {
      CoversRoot(tables, own0, root);
      var r;
      r, v := Scan(root, 4, 0, lo, hi, root, own0);
      if r.Full? {
        return None, v, own0;
      }
      own := ScannedLemma(frames, old(St()), own0, root, v);
      if r.OutOfFrames? {
        return None, v, own;
      }
      MapsAfterScan(frames, old(St()), own0, root, v, frame, pf);
      PageOfAddress(r.v);
      CanonicalIsSignExtended(AddressOf(r.v));
      var outcome, _ := MapInner(root, AddressOf(r.v), frame, pf, own);
      own := MapGrants(frames, old(St()), own0, root, v, frame, pf);
      return Some(AddressOf(r.v)), v, own;
    }

    /**
     * Maps `frame` at the first free page, lets the caller use it, and unmaps it
     * again. The caller is a function of what the tables are while it runs.
     */
    method MapTemporary<T>(root: Frame, lo: nat, hi: nat, frame: Frame, pf: PageFlags, f: (Tables, nat) -> T,
                           ghost own0: Owners)
      returns (result: Option<T>, ghost during: State, ghost v: nat, ghost own: Owners)
      requires Inv(frames, St(), own0) && IsRoot(own0, root) && lo <= hi <= 512
      modifies this
      ensures Inv(frames, St(), own) && Extends(own, own0)
      ensures MappedBetween(old(tables), root, 4, 0, lo, hi) ==> result.None? && St() == old(St())
      ensures !MappedBetween(old(tables), root, 4, 0, lo, hi) ==>
                var k := Missing(old(tables), root, v, 4);
                && FirstFree(old(tables), root, 4, 0, lo, hi, v)
                && (result.None? <==> Short(|frames|, old(n), k)) && n == Counter(|frames|, old(n), k)
      ensures result.Some? ==>
                && result.value == f(during.tables, AddressOf(v))
                && Step(during, Ok) == Map(frames, old(St()), root, v, frame, pf)
                && HasRights(during.tables, root, v, frame, pf)
                && OnlyMapped(old(St()), during, own0, root, v, frame)
      ensures forall r: Frame, w: nat :: IsRoot(own0, r) && w < PAGES ==> At(St(), r, w) == At(old(St()), r, w)
    {
      var address;
      address, v, own := MapAnyInner(root, lo, hi, frame, pf, own0);
      during := St();
      if address.None? {
        ViewKept(old(tables), tables, own0);
        return None, during, v, own;
      }
      result := Some(f(tables, address.value));
      PageOfAddress(v);
      UnmapLemma(frames, St(), own, root, v);
      var outcome := UnmapInner(root, address.value, own);
    }

    // ── Runs of pages ───────────────────────────────────────────────────────

    /** Visits one slot of a level-1 table: stops at a complete run, else lengthens or drops the run. */
    method VisitPage(f: Frame, prefix: nat, i: nat, need: nat, run0: FreeRun,
                     ghost m0: Tables, ghost from: nat, ghost root: Frame, ghost own: Owners)
      returns (run: FreeRun, stop: bool)
      requires Covers(tables, own, root, f, 1, prefix) && i < 512 && SameLeaves(m0, tables, root) && 0 < need
      requires Searched(m0, root, from, need, prefix * 512 + i, run0) && Ready(tables, root, run0)
      ensures Ready(tables, root, run)
      ensures if stop then run == run0 && Stops(m0, root, from, need, prefix * 512 + i)
              else Searched(m0, root, from, need, prefix * 512 + i + 1, run)
    {
      run, stop := run0, false;
      var v := prefix * 512 + i;
      SlotPage(tables, own, root, f, prefix, i);
      assert SameLeaf(m0, tables, root, v) && HasTable(tables, root, v);
      if v == 0 {
        SearchPage(m0, root, from, need, v, run0);
        return;
      }
      if run.len >= need {
        stop := true;
        return;
      }
      SearchPage(m0, root, from, need, v, run0);
      if tables[f][i].IsPresent() {
        if run.len > 0 {
          run := NO_RUN;
        }
        return;
      }
      run := FreeRun(if run.len == 0 then Some(v) else run.start, run.len + 1);
    }

    /**
     * Looks for `need` free pages in a row below table `f`, from page `a` up to page `b`, continuing the run found so
     * far. It ends at page `at`, and takes a frame for every table missing on the way to the pages it has seen.
     */
    method ScanRun(f: Frame, level: nat, prefix: nat, lo: nat, hi: nat, need: nat, run0: FreeRun,
                   ghost m0: Tables, ghost from: nat, ghost a: nat, ghost b: nat, ghost root: Frame, ghost own0: Owners)
      returns (run: FreeRun, stop: bool, ok: bool, ghost at: nat, ghost own: Owners)
      requires Inv(frames, St(), own0) && IsRoot(own0, root) && Covers(tables, own0, root, f, level, prefix)
      requires lo <= hi <= 512 && 0 < need && SameLeaves(m0, tables, root)
      requires a == Low(prefix * 512 + lo, level - 1) && b == Low(prefix * 512 + hi, level - 1)
      requires Searched(m0, root, from, need, a, run0) && Ready(tables, root, run0)
      modifies this
      ensures Inv(frames, St(), own) && Widened(old(tables), tables, own0, own, root, a, b)
              && (n == old(n) ==> St() == old(St()))
      ensures EndsAt(m0, root, from, need, a, b, run, stop, ok, at) && (ok ==> Ready(tables, root, run))
      ensures Counted(|frames|, old(n), n, ok, old(tables), root, level, a, Seen(stop, ok, at))
      decreases level, 3
    {
      own, run, stop, ok, at := own0, run0, false, true, a;
      ghost var st0 := St();
      WidenedNothing(tables, own0, root, a, a);
      for i := lo to hi
        invariant Inv(frames, St(), own) && ok && !stop && (n == st0.n ==> St() == st0)
        invariant at == Low(prefix * 512 + i, level - 1) && Widened(st0.tables, tables, own0, own, root, a, at)
        invariant Searched(m0, root, from, need, at, run) && Ready(tables, root, run)
        invariant Counted(|frames|, st0.n, n, true, st0.tables, root, level, a, at)
      {
        ghost var here, next := at, Low(prefix * 512 + (i + 1), level - 1);
        LowOrder(prefix * 512, lo, i, hi, level - 1);
        run, stop, ok, at, own :=
          ScanRunNext(f, level, prefix, i, need, run, m0, from, st0, a, here, next, b, root, own0, own);
        if !ok || stop {
          return;
        }
      }
    }

    /** One slot more of a search that began with the tables and the counter of `st0`. */
    method ScanRunNext(f: Frame, level: nat, prefix: nat, i: nat, need: nat, run0: FreeRun, ghost m0: Tables,
                       ghost from: nat, ghost st0: State, ghost a: nat, ghost here: nat, ghost next: nat, ghost b: nat,
                       ghost root: Frame, ghost own0: Owners, ghost own1: Owners)
      returns (run: FreeRun, stop: bool, ok: bool, ghost at: nat, ghost own: Owners)
      requires Owned(st0.tables, own0) && IsRoot(own0, root) && Covers(st0.tables, own0, root, f, level, prefix)
      requires i < 512 && 0 < need && SameLeaves(m0, st0.tables, root)
      requires Inv(frames, St(), own1) && Widened(st0.tables, tables, own0, own1, root, a, here)
               && (n == st0.n ==> St() == st0)
      requires here == Low(prefix * 512 + i, level - 1) && next == Low(prefix * 512 + (i + 1), level - 1)
               && a <= here < next <= b
      requires Searched(m0, root, from, need, here, run0) && Ready(tables, root, run0)
      requires Counted(|frames|, st0.n, n, true, st0.tables, root, level, a, here)
      modifies this
      ensures Inv(frames, St(), own) && (n == st0.n ==> St() == st0)
      ensures Widened(st0.tables, tables, own0, own, root, a, if ok && !stop then next else b)
      ensures EndsAt(m0, root, from, need, here, next, run, stop, ok, at) && (ok ==> Ready(tables, root, run))
      ensures Counted(|frames|, st0.n, n, ok, st0.tables, root, level, a, Seen(stop, ok, at))
      decreases level, 2
    {
      ghost var st1 := St();
      CoversGrown(st0.tables, tables, own0, own1, root, f, level, prefix);
      LeavesKept(m0, st0.tables, tables, own0, root);
      assert prefix * 512 + (i + 1) == prefix * 512 + i + 1;
      run, stop, ok, at, own := ScanRunSlot(f, level, prefix, i, need, run0, m0, from, here, next, root, own1);
      WidenedTrans(st0.tables, st1.tables, tables, own0, own1, own, root, a, here, next);
      CountedOn(|frames|, st0.n, st1.n, n, ok, st0.tables, st1.tables, own0, own1, root, level, prefix, i, a, here,
                Seen(stop, ok, at));
      WidenedMore(st0.tables, tables, own0, own, root, a, next, b);
    }

    /** The part of that search at one slot: a page, a huge page, or a table. */
    method ScanRunSlot(f: Frame, level: nat, prefix: nat, i: nat, need: nat, run0: FreeRun, ghost m0: Tables,
                       ghost from: nat, ghost a: nat, ghost b: nat, ghost root: Frame, ghost own0: Owners)
      returns (run: FreeRun, stop: bool, ok: bool, ghost at: nat, ghost own: Owners)
      requires Inv(frames, St(), own0) && IsRoot(own0, root) && Covers(tables, own0, root, f, level, prefix)
      requires i < 512 && 0 < need && SameLeaves(m0, tables, root)
      requires a == Low(prefix * 512 + i, level - 1) && b == Low(prefix * 512 + i + 1, level - 1)
      requires Searched(m0, root, from, need, a, run0) && Ready(tables, root, run0)
      modifies this
      ensures Inv(frames, St(), own) && Widened(old(tables), tables, own0, own, root, a, b)
              && (n == old(n) ==> St() == old(St()))
      ensures EndsAt(m0, root, from, need, a, b, run, stop, ok, at) && (ok ==> Ready(tables, root, run))
      ensures Counted(|frames|, old(n), n, ok, old(tables), root, level, a, Seen(stop, ok, at))
      decreases level, 1
    {
      own, ok := own0, true;
      LowMonotone(prefix * 512 + i, prefix * 512 + i + 1, level - 1);
      WidenedNothing(tables, own0, root, a, b);
      if level == 1 {
        run, stop := VisitPage(f, prefix, i, need, run0, m0, from, root, own);
        at := if stop then a else b;
        AbsentNone(tables, root, 1, a, Seen(stop, ok, at));
        return;
      }
      if tables[f][i].IsPresent() && level < 4 && tables[f][i].IsHuge() {
        HugeSeen(m0, tables, own0, root, f, level, prefix, i, from, need, a, b, run0);
        run, stop, at := if run0.len > 0 then NO_RUN else run0, false, b;
        return;
      }
      run, stop, ok, at, own := ScanRunBelow(f, level, prefix, i, need, run0, m0, from, a, b, root, own0);
    }

    method ScanRunBelow(f: Frame, level: nat, prefix: nat, i: nat, need: nat, run0: FreeRun, ghost m0: Tables,
                        ghost from: nat, ghost a: nat, ghost b: nat, ghost root: Frame, ghost own0: Owners)
      returns (run: FreeRun, stop: bool, ok: bool, ghost at: nat, ghost own: Owners)
      requires Inv(frames, St(), own0) && IsRoot(own0, root) && Covers(tables, own0, root, f, level, prefix)
      requires 2 <= level && i < 512 && !(tables[f][i].IsPresent() && level < 4 && tables[f][i].IsHuge())
      requires 0 < need && SameLeaves(m0, tables, root)
      requires a == Low(prefix * 512 + i, level - 1) < b == Low(prefix * 512 + i + 1, level - 1)
      requires Searched(m0, root, from, need, a, run0) && Ready(tables, root, run0)
      modifies this
      ensures Inv(frames, St(), own) && Widened(old(tables), tables, own0, own, root, a, b)
              && (n == old(n) ==> St() == old(St()))
      ensures EndsAt(m0, root, from, need, a, b, run, stop, ok, at) && (ok ==> Ready(tables, root, run))
      ensures Counted(|frames|, old(n), n, ok, old(tables), root, level, a, Seen(stop, ok, at))
      decreases level, 0
    {
      ghost var st, own1 := St(), own0;
      var child;
      ok, child, own1 := OpenSlot(f, level, prefix, i, root, own0);
      if !ok {
        CountedStarved(|frames|, st.n, n, st.tables, own0, root, f, level, prefix, i, a);
        return run0, false, ok, a, own1;
      }
      run, stop, ok, at, own :=
        ScanRunOpened(f, child, level, prefix, i, need, run0, st, m0, from, a, b, root, own0, own1);
    }

    /** The part of that search in the table `child` below a slot, which may have been added since `st`. */
    method ScanRunOpened(ghost f: Frame, child: Frame, level: nat, prefix: nat, i: nat, need: nat, run0: FreeRun,
                         ghost st: State, ghost m0: Tables, ghost from: nat, ghost a: nat, ghost b: nat,
                         ghost root: Frame, ghost own0: Owners, ghost own1: Owners)
      returns (run: FreeRun, stop: bool, ok: bool, ghost at: nat, ghost own: Owners)
      requires Owned(st.tables, own0) && IsRoot(own0, root) && Covers(st.tables, own0, root, f, level, prefix)
               && 2 <= level && i < 512
      requires Inv(frames, St(), own1) && Widened(st.tables, tables, own0, own1, root, a, b)
      requires Covers(tables, own1, root, child, level - 1, prefix * 512 + i)
      requires if st.tables[f][i].IsPresent() then !EndsWalk(st.tables[f][i], level) && St() == st
               else EmptyTable(tables, child) && st.n < |frames| && n == st.n + 1
      requires 0 < need && SameLeaves(m0, st.tables, root)
      requires a == Low(prefix * 512 + i, level - 1) < b == Low(prefix * 512 + i + 1, level - 1)
      requires Searched(m0, root, from, need, a, run0) && Ready(st.tables, root, run0)
      modifies this
      ensures Inv(frames, St(), own) && Widened(st.tables, tables, own0, own, root, a, b) && (n == st.n ==> St() == st)
      ensures EndsAt(m0, root, from, need, a, b, run, stop, ok, at) && (ok ==> Ready(tables, root, run))
      ensures Counted(|frames|, st.n, n, ok, st.tables, root, level, a, Seen(stop, ok, at))
      decreases level - 1, 5
    {
      ghost var st1 := St();
      SearchOpened(m0, st.tables, tables, own0, own1, root, a, b, run0);
      run, stop, ok, at, own :=
        ScanRunTable(child, level - 1, prefix * 512 + i, need, run0, m0, from, a, b, root, own1);
      SlotSearched(|frames|, st, st1, St(), ok, own0, own1, own, root, f, child, level, prefix, i, a, b,
                   Seen(stop, ok, at));
    }

    /** The part of that search in all slots of one table. */
    method ScanRunTable(f: Frame, level: nat, prefix: nat, need: nat, run0: FreeRun, ghost m0: Tables, ghost from: nat,
                        ghost a: nat, ghost b: nat, ghost root: Frame, ghost own0: Owners)
      returns (run: FreeRun, stop: bool, ok: bool, ghost at: nat, ghost own: Owners)
      requires Inv(frames, St(), own0) && IsRoot(own0, root) && Covers(tables, own0, root, f, level, prefix)
      requires 0 < need && SameLeaves(m0, tables, root)
      requires a == Low(prefix, level) && b == Low(prefix + 1, level)
      requires Searched(m0, root, from, need, a, run0) && Ready(tables, root, run0)
      modifies this
      ensures Inv(frames, St(), own) && Widened(old(tables), tables, own0, own, root, a, b)
              && (n == old(n) ==> St() == old(St()))
      ensures EndsAt(m0, root, from, need, a, b, run, stop, ok, at) && (ok ==> Ready(tables, root, run))
      ensures Counted(|frames|, old(n), n, ok, old(tables), root, level, a, Seen(stop, ok, at))
      decreases level, 4
    {
      LowChild(prefix, level);
      run, stop, ok, at, own := ScanRun(f, level, prefix, 0, 512, need, run0, m0, from, a, b, root, own0);
    }

    method StartIndices(v: nat) returns (x: Indices)
      requires v < PAGES
      ensures x.Valid() && x.Page() == v
    {
      x := IndicesOf(v);
    }

    /** The next page in the order of the scan; none after the last. */
    method NextIndices(x: Indices) returns (r: Option<Indices>)
      requires x.Valid()
      ensures r.None? <==> x.Page() + 1 == PAGES
      ensures r.Some? ==> r.value.Valid() && r.value.Page() == x.Page() + 1
    {
      var i4, i3, i2, i1 := x.i4, x.i3, x.i2, x.i1;
      i1 := i1 + 1;
      if i1 >= 512 {
        i1, i2 := 0, i2 + 1;
        if i2 >= 512 {
          i2, i3 := 0, i3 + 1;
          if i3 >= 512 {
            i3, i4 := 0, i4 + 1;
            if i4 >= 512 {
              return None;
            }
          }
        }
      }
      return Some(Indices(i4, i3, i2, i1));
    }

    /** Whether the tables on the way to page `v` are all there. */
    method HasTables(root: Frame, v: nat, ghost own: Owners) returns (has: bool)
      requires Owned(tables, own) && IsRoot(own, root) && v < PAGES
      ensures has <==> HasTable(tables, root, v)
    {
      var f, level := root, 4;
      RootOnWalk(tables, own, root, v);
      while level > 1
        invariant 1 <= level <= 4 && OnWalk(own, f, level, v)
        invariant Reach(tables, f, level, v, 1) == Reach(tables, root, 4, v, 1)
      {
        StepDown(tables, own, f, level, v);
        var e := tables[f][Digit(v, level)];
        if !e.IsPresent() || (level < 4 && e.IsHuge()) {
          return false;
        }
        f, level := e.address, level - 1;
      }
      StepDown(tables, own, f, 1, v);
      return true;
    }

    /** Maps page `v` to `frame` without looking at what it holds. */
    method PutPage(root: Frame, v: nat, frame: Frame, pf: PageFlags, ghost own0: Owners)
      requires Inv(frames, St(), own0) && IsRoot(own0, root) && HasTable(tables, root, v)
      modifies `tables
      ensures St() == Overwritten(frames, old(St()), root, v, frame, pf)
    {
      var f, level := root, 4;
      RootOnWalk(tables, own0, root, v);
      DescendPresent(frames, St(), root, 4, v, pf);
      while level > 1
        invariant 1 <= level <= 4 && Owned(tables, own0) && OnWalk(own0, f, level, v)
        invariant Reach(tables, f, level, v, 1).Some?
        invariant Descend(frames, St(), f, level, v, pf) == Descend(frames, old(St()), root, 4, v, pf)
      {
        StepDown(tables, own0, f, level, v);
        var i := Digit(v, level);
        var e := tables[f][i];
        Reflag(tables, own0, f, i, Propagate(e, pf));
        ReflagReach(tables, f, i, Propagate(e, pf), e.address, level - 1, v, 1);
        AssignPropagableFlags(f, i, pf);
        StepDown(tables, own0, f, level, v);
        f, level := e.address, level - 1;
      }
      SetEntry(f, Digit(v, 1), LeafEntry(frame, pf));
    }

    /**
     * Maps `count` pages from `start` on, one by one, carrying the four indices. It does not look at what
     * they hold, and panics after the last page there is. Where a table is missing or a huge page is in the
     * way, the program writes through whatever address the entry holds; the model ends there.
     */
    method MapPages(root: Frame, start: nat, base: Frame, count: nat, pf: PageFlags, ghost st0: State,
                    ghost own0: Owners, ghost own: Owners)
      returns (r: RunEnd, ghost k: nat)
      requires Inv(frames, St(), own) && Extends(own, own0) && IsRoot(own0, root) && 0 < count && start < PAGES
      requires Progress(st0, St(), tables, own0, root, start, base, 0)
      modifies `tables
      ensures Wrote(frames, old(tables), St(), own, root, start, base, k, pf)
      ensures k <= count && start + k <= PAGES && Progress(st0, St(), old(tables), own0, root, start, base, k)
      ensures EndsWith(old(tables), root, r, start, count, k)
    {
      var x := StartIndices(start);
      var first, last := 0, 0;
      k := 0;
      WroteNothing(frames, St(), own, root, start, base, pf);
      for i := 0 to count
        invariant Wrote(frames, old(tables), St(), own, root, start, base, i, pf)
        invariant k == i && x.Valid() && x.Page() == start + i < PAGES
        invariant Progress(st0, St(), old(tables), own0, root, start, base, i)
        invariant (i > 0 ==> first == start) && (i == count ==> last == start + count - 1)
      {
        var v := x.Page();
        var has := MapNext(root, start, base, i, v, pf, old(tables), st0, own0, own);
        if !has {
          return Astray, k;
        }
        k := k + 1;
        first := if i == 0 then v else first;
        last := if i + 1 == count then v else last;
        var next := NextIndices(x);
        if next.None? {
          return LastPage, k;
        }
        x := next.value;
      }
      r := Done(first, last);
    }

    /** Maps page `k` of the run, if its tables are there. */
    method MapNext(root: Frame, start: nat, base: Frame, k: nat, v: nat, pf: PageFlags,
                   ghost m0: Tables, ghost st0: State, ghost own0: Owners, ghost own: Owners)
      returns (has: bool)
      requires IsRoot(own0, root) && Extends(own, own0) && Owned(m0, own)
      requires Wrote(frames, m0, St(), own, root, start, base, k, pf)
      requires v == start + k < PAGES && Progress(st0, St(), m0, own0, root, start, base, k)
      modifies `tables
      ensures has <==> HasTable(m0, root, v)
      ensures Wrote(frames, m0, St(), own, root, start, base, if has then k + 1 else k, pf)
      ensures Progress(st0, St(), m0, own0, root, start, base, if has then k + 1 else k)
    {
      ghost var st, frame := St(), base + k * 0x1000;
      assert SameWay(m0, tables, root, v);
      has := HasTables(root, v, own);
      if has {
        OverwriteLemma(frames, st, own, root, v, frame, pf);
        PutPage(root, v, base + k * 0x1000, pf, own);
        ghost var s := Overwritten(frames, st, root, v, frame, pf);
        assert St() == s;
        ProgressStep(st0, st, s, m0, own0, own, root, start, base, k, v, frame);
        WroteMore(frames, m0, st, own, root, start, base, k, v, frame, pf);
      }
    }

    /** The search for `count` free pages in a row below slots `lo` to `hi` of the root. */
    method FindRun(root: Frame, lo: nat, hi: nat, count: nat, ghost from: nat, ghost end: nat, ghost own0: Owners)
      returns (run: FreeRun, ok: bool, ghost at: nat, ghost own: Owners)
      requires Inv(frames, St(), own0) && IsRoot(own0, root) && lo <= hi <= 512 && 0 < count
      requires from == Low(lo, 3) && end == Low(hi, 3)
      modifies this
      ensures Inv(frames, St(), own) && Widened(old(tables), tables, own0, own, root, from, end)
      ensures SameLeaves(old(tables), tables, root)
      ensures Counted(|frames|, old(n), n, ok, old(tables), root, 4, from,
                      SearchEnd(old(tables), root, from, count, from, end))
      ensures n == old(n) ==> St() == old(St())
      ensures ok ==> run == Search(old(tables), root, from, count, from, end) && Ready(tables, root, run)
      ensures ok ==> Searched(old(tables), root, from, count, at, run) && from <= at <= end
      ensures ok && at < end ==> Stops(old(tables), root, from, count, at)
    {
      CoversRoot(tables, own0, root);
      LowMonotone(lo, hi, 3);
      SearchStart(tables, root, from, count);
      var stop;
      run, stop, ok, at, own := ScanRun(root, 4, 0, lo, hi, count, NO_RUN, tables, from, from, end, root, own0);
      LeavesKept(old(tables), old(tables), tables, own0, root);
      if ok {
        SearchEnds(old(tables), root, from, count, from, at, end, run);
      }
      CountedSearch(|frames|, old(n), n, old(tables), root, from, count, end, run, stop, ok, at);
    }

    /**
     * Looks for `count` free pages in a row below slots `lo` to `hi` of the root and maps the `count` frames from
     * `base` on at the run the search ends with, whether or not it is long enough.
     */
    method MapAnyContiguous(root: Frame, lo: nat, hi: nat, base: Frame, count: nat, pf: PageFlags, ghost own0: Owners)
      returns (r: Placement, ghost run: FreeRun, ghost k: nat, ghost own: Owners)
      requires Inv(frames, St(), own0) && IsRoot(own0, root) && lo <= hi <= 512 && 0 < count
      modifies this
      ensures Inv(frames, St(), own) && Extends(own, own0)
      ensures run == Search(old(tables), root, Low(lo, 3), count, Low(lo, 3), Low(hi, 3))
      ensures n == Counter(|frames|, old(n), TablesNeeded(old(tables), root, lo, hi, count))
      ensures Short(|frames|, old(n), TablesNeeded(old(tables), root, lo, hi, count)) || run.len == 0 ==>
                r == Panic && k == 0 && SameView(old(tables), tables, own0)
      ensures !Short(|frames|, old(n), TablesNeeded(old(tables), root, lo, hi, count)) && run.len > 0 ==>
                && Extent(old(tables), root, run, hi, count, k) && Placed(r, run.start.value, count, k)
                && RunMapped(old(St()), St(), tables, own0, root, run.start.value, base, k)
                && Written(tables, root, run.start.value, k)
                && FoundGrants(old(tables), tables, own0, own, root, run.start.value, base, k, pf)
    {
      ghost var from, end := Low(lo, 3), Low(hi, 3);
      run, k := Search(tables, root, from, count, from, end), 0;
      var found, ok;
      ghost var at;
      found, ok, at, own := FindRun(root, lo, hi, count, from, end, own0);
      if !ok || found.start.None? {
        return Panic, run, k, own;
      }
      r, k := MapFound(root, hi, base, count, pf, found, old(St()), from, end, at, own0, own);
    }

    /** Maps the frames at the run that the search of the tables of `st0` ended with. */
    method MapFound(root: Frame, ghost hi: nat, base: Frame, count: nat, pf: PageFlags, run: FreeRun, ghost st0: State,
                    ghost from: nat, ghost end: nat, ghost at: nat, ghost own0: Owners, ghost own1: Owners)
      returns (r: Placement, ghost k: nat)
      requires Inv(frames, St(), own1) && IsRoot(own0, root) && Owned(st0.tables, own0)
      requires 0 < count && hi <= 512 && end == Low(hi, 3) && Widened(st0.tables, tables, own0, own1, root, from, end)
      requires Searched(st0.tables, root, from, count, at, run) && at <= end
               && (at < end ==> Stops(st0.tables, root, from, count, at))
      requires Ready(tables, root, run) && 0 < run.len
      modifies `tables
      ensures Inv(frames, St(), own1) && FoundGrants(st0.tables, tables, own0, own1, root, run.start.value, base, k, pf)
      ensures Extent(st0.tables, root, run, hi, count, k) && Placed(r, run.start.value, count, k)
      ensures RunMapped(st0, St(), tables, own0, root, run.start.value, base, k)
              && Written(tables, root, run.start.value, k)
    {
      ghost var m1 := tables;
      BeforeWriting(st0, St(), own0, root, base, run);
      var ending;
      ending, k := MapPages(root, run.start.value, base, count, pf, st0, own0, own1);
      WroteFound(frames, st0.tables, m1, St(), own0, own1, root, run.start.value, base, k, pf);
      RunMappedAfter(st0, St(), m1, own0, root, run.start.value, base, k);
      EndPlaced(m1, root, ending, run.start.value, count, k);
      RunExtent(st0.tables, m1, own0, own1, root, from, hi, end, count, at, run, k);
      r := PlacementOf(ending);
    }

    /** A new root table in frame `s` that shares the upper half of the kernel's root `k`. */
    method CreateAddressSpace(k: Frame, s: Frame)
      requires k in tables && s != k
      modifies `tables
      ensures tables == old(tables)[s := NewRoot(old(tables[k]))]
      ensures forall i :: 0 <= i < 512 ==> tables[s][i] == if i < 256 then EMPTY else old(tables[k][i])
    {
      var t := Zeroed();
      for i := 256 to 512
        invariant |t| == 512
        invariant forall j :: 0 <= j < 512 ==>
                    t[j] == if 256 <= j < i then Entry(tables[k][j].address, tables[k][j].flags) else EMPTY
      {
        t := t[i := Entry(tables[k][i].address, tables[k][i].flags)];
      }
      assert t == NewRoot(tables[k]);
      tables := tables[s := t];
    }
  }

  lemma {:induction false} ViewKept(m: Tables, m': Tables, own: Owners)
    requires Owned(m, own) && SameView(m, m', own)
    ensures forall r: Frame, w: nat :: IsRoot(own, r) && w < PAGES ==> Resolve(m', r, 4, w) == Resolve(m, r, 4, w)
  {
    forall r: Frame, w: nat | IsRoot(own, r) && w < PAGES ensures Resolve(m', r, 4, w) == Resolve(m, r, 4, w) {
      RootOnWalk(m, own, r, w);
      assert Resolve(m', r, own[r].level, w) == Resolve(m, r, own[r].level, w);
    }
  }

  /** The state that a scan to page `v` leaves. */
  lemma {:induction false} ScannedLemma(frames: seq<Frame>, st: State, own: Owners, root: Frame, v: nat)
    returns (own': Owners)
    requires Inv(frames, st, own) && IsRoot(own, root) && v < PAGES && At(st, root, v).None?
    ensures var d, k := Descend(frames, st, root, 4, v, NO_FLAGS), Missing(st.tables, root, v, 4);
            && Inv(frames, d.st, own') && Extends(own', own) && SameView(st.tables, d.st.tables, own)
            && d.st.n == Counter(|frames|, st.n, k) && if Short(|frames|, st.n, k) then d.NoFrames? else d.Reached?
  {
    RootOnWalk(st.tables, own, root, v);
    DescendTakes(frames, st, own, root, root, 4, v, NO_FLAGS);
    own' := DescendLemma(frames, st, own, root, 4, v, NO_FLAGS);
  }

  /** Mapping the page that a scan has come to is mapping it at once. */
  lemma {:induction false} MapsAfterScan(frames: seq<Frame>, st: State, own: Owners, root: Frame, v: nat, frame: Frame,
                                         pf: PageFlags)
    requires Inv(frames, st, own) && IsRoot(own, root) && v < PAGES && At(st, root, v).None?
    requires Descend(frames, st, root, 4, v, NO_FLAGS).Reached?
    ensures var s := Map(frames, st, root, v, frame, pf);
            && s == Map(frames, Descend(frames, st, root, 4, v, NO_FLAGS).st, root, v, frame, pf) && s.outcome == Ok
            && s.st.n == Counter(|frames|, st.n, Missing(st.tables, root, v, 4))
            && OnlyMapped(st, s.st, own, root, v, frame) && HasRights(s.st.tables, root, v, frame, pf)
            && forall r: Frame, w: nat :: IsRoot(own, r) && w < PAGES ==>
                 At(Unmap(s.st, root, 4, v).st, r, w) == At(st, r, w)
  {
    RootOnWalk(st.tables, own, root, v);
    DescendTwice(frames, st, own, root, 4, v, pf);
    var own' := ScannedLemma(frames, st, own, root, v);
    MapTakes(frames, st, own, root, v, frame, pf);
    MapOnly(frames, st, st, own, own, root, v, frame, pf);
    MapRights(frames, st, own, root, v, frame, pf);
    UnmapUndoesMap(frames, st, own, root, v, frame, pf);
  }
}
