/** Runs of free pages: what the search for several pages in a row finds, and what mapping them changes. */
module PageRuns {
  import opened Prelude
  import opened PageWalk
  import opened PageMap
  import opened PageScan
  import opened PageCount
  import opened PageAddress

  // ── What there is to find ─────────────────────────────────────────────────

  datatype FreeRun = FreeRun(start: Option<nat>, len: nat)

  const NO_RUN := FreeRun(None, 0)

  ghost predicate IsFree(m: Tables, root: Frame, w: nat) {
    0 < w && !Mapped(m, root, w)
  }

  ghost predicate IsHuge(m: Tables, root: Frame, w: nat) {
    Mapped(m, root, w) && Resolve(m, root, 4, w).value.level >= 2
  }

  ghost predicate AllFree(m: Tables, root: Frame, start: nat, len: nat) {
    forall w: nat :: start <= w < start + len ==> IsFree(m, root, w)
  }

  /** How many free pages there are right before page `p`, back to `from`. */
  ghost function Back(m: Tables, root: Frame, from: nat, p: nat): (k: nat)
    ensures k > 0 ==> from + k <= p
    ensures k <= p && AllFree(m, root, p - k, k)
    decreases p
  {
    if p <= from || !IsFree(m, root, p - 1) then 0 else Back(m, root, from, p - 1) + 1
  }

  ghost function RunAt(m: Tables, root: Frame, from: nat, p: nat): FreeRun {
    var k := Back(m, root, from, p);
    FreeRun(if k == 0 then None else Some(p - k), k)
  }

  /** The search ends at page `p`: the run before it is long enough, and `p` is not part of a huge page. */
  ghost predicate Stops(m: Tables, root: Frame, from: nat, need: nat, p: nat) {
    Back(m, root, from, p) >= need && !IsHuge(m, root, p)
  }

  /** The search has come to page `p` with the run `run`. */
  ghost predicate Searched(m: Tables, root: Frame, from: nat, need: nat, p: nat, run: FreeRun) {
    && from <= p && run == RunAt(m, root, from, p)
    && forall q: nat :: from <= q < p ==> !Stops(m, root, from, need, q)
  }

  /** The run the search of the pages from `p` up to `end` ends with. */
  ghost function Search(m: Tables, root: Frame, from: nat, need: nat, p: nat, end: nat): FreeRun
    decreases end - p
  {
    if p >= end || Stops(m, root, from, need, p) then RunAt(m, root, from, p)
    else Search(m, root, from, need, p + 1, end)
  }

  lemma {:induction false} SearchEnds(m: Tables, root: Frame, from: nat, need: nat, p: nat, at: nat, end: nat,
                                      run: FreeRun)
    requires Searched(m, root, from, need, at, run) && from <= p <= at <= end
    requires at < end ==> Stops(m, root, from, need, at)
    ensures Search(m, root, from, need, p, end) == run
    decreases at - p
  {
    if p < at {
      assert !Stops(m, root, from, need, p);
      SearchEnds(m, root, from, need, p + 1, at, end, run);
    }
  }

  /** Where the search ends. */
  lemma {:induction false} SearchPlace(m: Tables, root: Frame, from: nat, need: nat, p: nat, end: nat) returns (at: nat)
    requires from <= p <= end && forall q: nat :: from <= q < p ==> !Stops(m, root, from, need, q)
    ensures p <= at <= end && (at < end ==> Stops(m, root, from, need, at))
    ensures Searched(m, root, from, need, at, Search(m, root, from, need, p, end))
    decreases end - p
  {
    if p >= end || Stops(m, root, from, need, p) {
      at := p;
    } else {
      at := SearchPlace(m, root, from, need, p + 1, end);
    }
  }

  lemma {:induction false} BackAtLeast(m: Tables, root: Frame, from: nat, s: nat, k: nat)
    requires from <= s && AllFree(m, root, s, k)
    ensures Back(m, root, from, s + k) >= k
    decreases k
  {
    if k > 0 {
      assert IsFree(m, root, s + k - 1);
      BackAtLeast(m, root, from, s, k - 1);
    }
  }

  /** A run of the search is never longer than asked for. */
  lemma {:induction false} BackBounded(m: Tables, root: Frame, from: nat, need: nat, p: nat, run: FreeRun)
    requires Searched(m, root, from, need, p, run)
    ensures run.len <= need
  {
    if from < p && IsFree(m, root, p - 1) {
      assert !Stops(m, root, from, need, p - 1);
    }
  }

  /** A stretch of `need` free pages that the search can see: no huge page follows it in the range. */
  ghost predicate Findable(m: Tables, root: Frame, from: nat, need: nat, end: nat, s: nat) {
    from <= s && s + need <= end && AllFree(m, root, s, need) && (s + need < end ==> !IsHuge(m, root, s + need))
  }

  /**
   * The search finds a run that is long enough exactly if there is a stretch of
   * that many free pages in the range that is not followed by a huge page. What
   * it ends with is free and in the range, and at its end if it is too short.
   */
  lemma {:induction false} SearchExact(m: Tables, root: Frame, from: nat, need: nat, end: nat)
    requires 0 < need && from <= end
    ensures Search(m, root, from, need, from, end).len >= need <==>
            exists s: nat :: Findable(m, root, from, need, end, s)
    ensures var run := Search(m, root, from, need, from, end);
            && run.len <= need && (run.len == 0 <==> run.start.None?)
            && (run.len > 0 ==>
                  && from <= run.start.value && run.start.value + run.len <= end
                       && AllFree(m, root, run.start.value, run.len)
                  && (run.len < need ==> run.start.value + run.len == end))
  {
    var run := Search(m, root, from, need, from, end);
    var at := SearchPlace(m, root, from, need, from, end);
    BackBounded(m, root, from, need, at, run);
    if run.len >= need {
      assert Findable(m, root, from, need, end, at - need);
    } else {
      forall s: nat ensures !Findable(m, root, from, need, end, s) {
        var v := s + need;
        if from <= s && v <= end && AllFree(m, root, s, need) {
          BackAtLeast(m, root, from, s, need);
          assert v < end ==> !Stops(m, root, from, need, v);
        }
      }
    }
  }

  /** Huge pages hold whole level-1 tables' worth of pages. */
  lemma {:induction false} HugeBlock(m: Tables, f: Frame, level: nat, v: nat, w: nat)
    requires High(v, 1) == High(w, 1) && Resolve(m, f, level, v).Some? && Resolve(m, f, level, v).value.level >= 2
    ensures Resolve(m, f, level, w) == Resolve(m, f, level, v)
    decreases level
  {
    if level >= 2 {
      SameDigits(v, w, 1, level);
      var e := m[f][Digit(v, level)];
      if !EndsWalk(e, level) {
        HugeBlock(m, e.address, level - 1, v, w);
      }
    }
  }

  /**
   * When the search finds too little, every stretch of enough free pages ends at
   * the last page of a level-1 table, with a huge page right after it.
   */
  lemma {:induction false} SearchMisses(m: Tables, root: Frame, from: nat, need: nat, end: nat, s: nat)
    requires 0 < need && from <= end && Search(m, root, from, need, from, end).len < need
    requires from <= s && s + need <= end && AllFree(m, root, s, need)
    ensures s + need < end && IsHuge(m, root, s + need) && Digit(s + need - 1, 1) == 511
  {
    SearchExact(m, root, from, need, end);
    assert !Findable(m, root, from, need, end, s);
    var v := s + need;
    assert IsFree(m, root, v - 1);
    if Digit(v - 1, 1) != 511 {
      assert High(v, 1) == High(v - 1, 1) by { assert High(v - 1, 0) == v - 1; }
      HugeBlock(m, root, 4, v, v - 1);
    }
  }

  // ── How far the search goes ───────────────────────────────────────────────

  /** The page after the last one that the search looks at. */
  ghost function SearchEnd(m: Tables, root: Frame, from: nat, need: nat, p: nat, end: nat): nat
    decreases end - p
  {
    if p >= end then end else if Stops(m, root, from, need, p) then p + 1
    else SearchEnd(m, root, from, need, p + 1, end)
  }

  /** The tables that a search for `count` pages below slots `lo` to `hi` of the root has to add. */
  ghost function TablesNeeded(m: Tables, root: Frame, lo: nat, hi: nat, count: nat): nat {
    Absent(m, root, 4, Low(lo, 3), SearchEnd(m, root, Low(lo, 3), count, Low(lo, 3), Low(hi, 3)))
  }

  /** The search from page `a` up to `b` has ended at page `at`: stopped there, starved there, or come to the end. */
  ghost predicate EndsAt(m: Tables, root: Frame, from: nat, need: nat, a: nat, b: nat, run: FreeRun, stop: bool,
                         ok: bool, at: nat)
  {
    && a <= at <= b && (forall q: nat :: from <= q < at ==> !Stops(m, root, from, need, q))
    && (ok ==> Searched(m, root, from, need, at, run))
    && (if ok && !stop then at == b else at < b) && (ok && stop ==> Stops(m, root, from, need, at))
  }

  /** The page after the last one looked at. */
  function Seen(stop: bool, ok: bool, at: nat): nat {
    if ok && !stop then at else at + 1
  }

  lemma {:induction false} SearchEndIs(m: Tables, root: Frame, from: nat, need: nat, p: nat, end: nat, at: nat)
    requires from <= p <= at <= end && forall q: nat :: from <= q < at ==> !Stops(m, root, from, need, q)
    ensures at < end ==> at + 1 <= SearchEnd(m, root, from, need, p, end)
    ensures at < end && Stops(m, root, from, need, at) ==> SearchEnd(m, root, from, need, p, end) == at + 1
    ensures at == end ==> SearchEnd(m, root, from, need, p, end) == end
    decreases at - p
  {
    if p < at {
      SearchEndIs(m, root, from, need, p + 1, end, at);
    } else if at < end && !Stops(m, root, from, need, at) {
      SearchEndAfter(m, root, from, need, at + 1, end);
    }
  }

  lemma {:induction false} SearchEndAfter(m: Tables, root: Frame, from: nat, need: nat, p: nat, end: nat)
    requires p <= end
    ensures p <= SearchEnd(m, root, from, need, p, end) <= end
    decreases end - p
  {
    if p < end && !Stops(m, root, from, need, p) {
      SearchEndAfter(m, root, from, need, p + 1, end);
    }
  }

  /** The count of the whole search depends on the tables before it only. */
  lemma {:induction false} CountedSearch(frames: nat, n0: nat, n: nat, m: Tables, root: Frame, from: nat, need: nat,
                                         end: nat, run: FreeRun, stop: bool, ok: bool, at: nat)
    requires from <= end && EndsAt(m, root, from, need, from, end, run, stop, ok, at)
    requires Counted(frames, n0, n, ok, m, root, 4, from, Seen(stop, ok, at))
    ensures Counted(frames, n0, n, ok, m, root, 4, from, SearchEnd(m, root, from, need, from, end))
  {
    SearchEndIs(m, root, from, need, from, end, at);
    if !ok {
      AbsentSplit(m, root, 4, from, at + 1, SearchEnd(m, root, from, need, from, end));
    }
  }

  // ── One step of the search ────────────────────────────────────────────────

  lemma {:induction false} SearchStart(m: Tables, root: Frame, from: nat, need: nat)
    ensures Searched(m, root, from, need, from, NO_RUN)
  {
  }

  /** A page that is not part of a huge page, before the run is long enough. */
  lemma {:induction false} SearchPage(m: Tables, root: Frame, from: nat, need: nat, p: nat, run: FreeRun)
    requires Searched(m, root, from, need, p, run) && run.len < need
    ensures Searched(m, root, from, need, p + 1,
                     if IsFree(m, root, p) then FreeRun(if run.len == 0 then Some(p) else run.start, run.len + 1)
                     else NO_RUN)
  {
  }

  /** A huge page from page `p` up to page `q` ends the run, whatever its length. */
  lemma {:induction false} SearchHuge(m: Tables, root: Frame, from: nat, need: nat, p: nat, q: nat, run: FreeRun)
    requires Searched(m, root, from, need, p, run) && p < q && forall w: nat :: p <= w < q ==> IsHuge(m, root, w)
    ensures Searched(m, root, from, need, q, NO_RUN)
  {
    assert IsHuge(m, root, q - 1);
  }

  /** Every page is mapped in `m'` as it is in `m`. */
  ghost predicate SameLeaves(m: Tables, m': Tables, root: Frame) {
    forall w: nat :: w < PAGES ==> SameLeaf(m, m', root, w)
  }

  predicate SameLeaf(m: Tables, m': Tables, root: Frame, w: nat) {
    Resolve(m', root, 4, w) == Resolve(m, root, 4, w)
  }

  lemma {:induction false} LeavesKept(m0: Tables, m: Tables, m': Tables, own: Owners, root: Frame)
    requires Owned(m, own) && IsRoot(own, root) && SameView(m, m', own) && SameLeaves(m0, m, root)
    ensures SameLeaves(m0, m', root)
  {
    forall w: nat | w < PAGES ensures SameLeaf(m0, m', root, w) {
      RootOnWalk(m, own, root, w);
      assert SameLeaf(m0, m, root, w);
      assert Resolve(m', root, own[root].level, w) == Resolve(m, root, own[root].level, w);
    }
  }

  /** What a slot of a level-1 table says about its page. */
  lemma {:induction false} SlotPage(m: Tables, own: Owners, root: Frame, f: Frame, prefix: nat, i: nat)
    requires Covers(m, own, root, f, 1, prefix) && i < 512
    ensures var v, e := prefix * 512 + i, m[f][i];
            && v < PAGES && Reach(m, root, 4, v, 1) == Some(f)
            && Resolve(m, root, 4, v) == if e.IsPresent() then Some(Leaf(e.address, 1)) else None
  {
    var v := prefix * 512 + i;
    assert High(v, 1) == prefix;
    ResolveFrom(m, root, 4, v, 1);
  }

  /** A huge slot maps all the pages below it. */
  lemma {:induction false} HugeSlot(m0: Tables, m: Tables, own: Owners, root: Frame, f: Frame, level: nat, prefix: nat,
                                    i: nat, w: nat)
    requires Covers(m, own, root, f, level, prefix) && i < 512 && 2 <= level && SameLeaves(m0, m, root)
    requires m[f][i].IsPresent() && EndsWalk(m[f][i], level)
    requires Low(prefix * 512 + i, level - 1) <= w < Low(prefix * 512 + i + 1, level - 1)
    ensures IsHuge(m0, root, w) && Mapped(m, root, w)
  {
    Below(prefix * 512 + i, w, level - 1);
    PageBound(w, level - 1);
    assert High(w, level) == prefix && Digit(w, level) == i;
    ResolveFrom(m, root, 4, w, level);
    assert SameLeaf(m0, m, root, w);
  }

  /** A huge slot ends the run, and needs no table. */
  lemma {:induction false} HugeSeen(m0: Tables, m: Tables, own: Owners, root: Frame, f: Frame, level: nat, prefix: nat,
                                    i: nat, from: nat, need: nat, a: nat, b: nat, run: FreeRun)
    requires Covers(m, own, root, f, level, prefix) && i < 512 && 2 <= level && SameLeaves(m0, m, root)
    requires m[f][i].IsPresent() && EndsWalk(m[f][i], level)
    requires a == Low(prefix * 512 + i, level - 1) && b == Low(prefix * 512 + i + 1, level - 1)
    requires Searched(m0, root, from, need, a, run)
    ensures Searched(m0, root, from, need, b, NO_RUN) && Absent(m, root, level, a, b) == 0 && a < b
  {
    LowMonotone(prefix * 512 + i, prefix * 512 + i + 1, level - 1);
    forall w: nat | a <= w < b ensures IsHuge(m0, root, w) && Mapped(m, root, w) {
      HugeSlot(m0, m, own, root, f, level, prefix, i, w);
    }
    SearchHuge(m0, root, from, need, a, b, run);
    AbsentNone(m, root, level, a, b);
  }

  // ── Adding tables during the search ───────────────────────────────────────

  /** In every address space the way to every page is as before. */
  ghost predicate SameWays(m: Tables, m': Tables, own: Owners) {
    forall r: Frame, w: nat :: IsRoot(own, r) && w < PAGES ==> SameWay(m, m', r, w)
  }

  lemma {:induction false} SameWaysTrans(m1: Tables, m2: Tables, m3: Tables, own: Owners, own': Owners)
    requires SameWays(m1, m2, own) && SameWays(m2, m3, own') && Extends(own', own)
    ensures SameWays(m1, m3, own)
  {
    forall r: Frame, w: nat | IsRoot(own, r) && w < PAGES ensures SameWay(m1, m3, r, w) {
      assert SameWay(m1, m2, r, w) && SameWay(m2, m3, r, w);
    }
  }

  /** Tables may have been added, but only on the way to pages from `a` up to `b`; no translation has changed. */
  ghost predicate Widened(m: Tables, m': Tables, own: Owners, own': Owners, root: Frame, a: nat, b: nat) {
    && Extends(own', own) && SameView(m, m', own) && Grown(m, m', own) && NewGrown(m', own, own')
    && forall w: nat :: w < PAGES && !(a <= w < b) ==> SameWay(m, m', root, w)
  }

  lemma {:induction false} WidenedTrans(m1: Tables, m2: Tables, m3: Tables, own1: Owners, own2: Owners, own3: Owners,
                                        root: Frame, a: nat, b: nat, c: nat)
    requires Widened(m1, m2, own1, own2, root, a, b) && Widened(m2, m3, own2, own3, root, b, c) && a <= b <= c
    ensures Widened(m1, m3, own1, own3, root, a, c)
  {
    SameViewTrans(m1, m2, m3, own1, own2);
    GrownTrans(m1, m2, m3, own1, own2);
    NewGrownTrans(m2, m3, own1, own2, own3);
    forall w: nat | w < PAGES && !(a <= w < c) ensures SameWay(m1, m3, root, w) {
      assert SameWay(m1, m2, root, w) && SameWay(m2, m3, root, w);
    }
  }

  lemma {:induction false} WidenedTwice(m1: Tables, m2: Tables, m3: Tables, own1: Owners, own2: Owners, own3: Owners,
                                        root: Frame, a: nat, b: nat)
    requires Widened(m1, m2, own1, own2, root, a, b) && Widened(m2, m3, own2, own3, root, a, b)
    ensures Widened(m1, m3, own1, own3, root, a, b)
  {
    SameViewTrans(m1, m2, m3, own1, own2);
    GrownTrans(m1, m2, m3, own1, own2);
    NewGrownTrans(m2, m3, own1, own2, own3);
    forall w: nat | w < PAGES && !(a <= w < b) ensures SameWay(m1, m3, root, w) {
      assert SameWay(m1, m2, root, w) && SameWay(m2, m3, root, w);
    }
  }

  lemma {:induction false} WidenedMore(m: Tables, m': Tables, own: Owners, own': Owners, root: Frame, a: nat, b: nat,
                                       c: nat)
    requires Widened(m, m', own, own', root, a, b) && b <= c
    ensures Widened(m, m', own, own', root, a, c)
  {
    forall w: nat | w < PAGES && !(a <= w < c) ensures SameWay(m, m', root, w) {
      assert !(a <= w < b);
    }
  }

  lemma {:induction false} WidenedNothing(m: Tables, own: Owners, root: Frame, a: nat, b: nat)
    requires Owned(m, own)
    ensures Widened(m, m, own, own, root, a, b)
  {
    forall g | g in own ensures g in m { assert TableOwned(m, own, g); }
    forall w: nat | w < PAGES && !(a <= w < b) ensures SameWay(m, m, root, w) {
    }
  }

  /** A table hung into a slot is on the way to the pages of the slot only. */
  lemma {:induction false} LinkElsewhere(m: Tables, own: Owners, f: Frame, i: nat, new_: Frame, g: Frame, level: nat,
                                         w: nat, target: nat)
    requires Owned(m, own) && OnWalk(own, g, level, w) && f in own && f in m && 2 <= own[f].level && i < 512
             && new_ !in own
    requires High(w, own[f].level - 1) != own[f].prefix * 512 + i && 1 <= target
    ensures var m' := SetSlot(m[new_ := Zeroed()], f, i, Entry(new_, {Present}));
            Reach(m', g, level, w, target) == Reach(m, g, level, w, target)
    decreases level
  {
    StepDown(m, own, g, level, w);
    var e := m[g][Digit(w, level)];
    if level > 1 && e.IsPresent() && !EndsWalk(e, level) {
      LinkElsewhere(m, own, f, i, new_, e.address, level - 1, w, target);
    }
  }

  lemma {:induction false} LinkWays(m: Tables, m': Tables, own: Owners, root: Frame, f: Frame, i: nat, new_: Frame,
                                    a: nat, b: nat)
    requires Owned(m, own) && IsRoot(own, root) && f in own && f in m && 2 <= own[f].level && i < 512 && new_ !in own
    requires m' == SetSlot(m[new_ := Zeroed()], f, i, Entry(new_, {Present}))
    requires var p, k := own[f].prefix * 512 + i, own[f].level - 1; a == Low(p, k) && b == Low(p + 1, k)
    ensures forall w: nat :: w < PAGES && !(a <= w < b) ==> SameWay(m, m', root, w)
  {
    forall w: nat | w < PAGES && !(a <= w < b) ensures SameWay(m, m', root, w) {
      Below(own[f].prefix * 512 + i, w, own[f].level - 1);
      RootOnWalk(m, own, root, w);
      LinkElsewhere(m, own, f, i, new_, root, 4, w, 1);
      LinkElsewhere(m, own, f, i, new_, root, 4, w, 2);
      LinkElsewhere(m, own, f, i, new_, root, 4, w, 3);
    }
  }

  lemma {:induction false} LinkWidens(frames: seq<Frame>, st: State, own: Owners, root: Frame, f: Frame, i: nat,
                                      m': Tables, a: nat, b: nat)
    requires Inv(frames, st, own) && IsRoot(own, root) && f in own && f in st.tables && own[f].level >= 2 && i < 512
    requires !st.tables[f][i].IsPresent() && st.n < |frames| && m' == Linked(frames, st, f, i, NO_FLAGS).tables
    requires a == Low(own[f].prefix * 512 + i, own[f].level - 1)
             && b == Low(own[f].prefix * 512 + i + 1, own[f].level - 1)
    ensures var own' := own[frames[st.n] := ChildPlace(f, own[f], i)];
            Inv(frames, State(m', st.n + 1), own') && Widened(st.tables, m', own, own', root, a, b)
  {
    PropagateNothing(Entry(frames[st.n], {Present}));
    LinkInv(frames, st, own, f, i);
    LinkWays(st.tables, m', own, root, f, i, frames[st.n], a, b);
  }

  /** The outcome of making sure there is a table `child` below slot `i` of `f`. */
  ghost predicate SlotTried(frames: seq<Frame>, st: State, st': State, own: Owners, own': Owners, root: Frame, f: Frame,
                            level: nat, prefix: nat, i: nat, ok: bool, child: Frame)
    requires f in st.tables && i < 512 && 0 < level
  {
    && Inv(frames, st', own')
    && Widened(st.tables, st'.tables, own, own', root, Low(prefix * 512 + i, level - 1),
               Low(prefix * 512 + i + 1, level - 1))
    && (st.tables[f][i].IsPresent() ==> ok && own' == own)
    && (ok && !st.tables[f][i].IsPresent() ==> EmptyTable(st'.tables, child))
    && (ok ==> Covers(st'.tables, own', root, child, level - 1, prefix * 512 + i))
    && if ok then SlotOpen(frames, st, st', f, i, child)
       else |frames| <= st.n && st' == State(st.tables, st.n + 1)
  }

  lemma {:induction false} SlotThere(frames: seq<Frame>, st: State, own: Owners, root: Frame, f: Frame, level: nat,
                                     prefix: nat, i: nat, child: Frame)
    requires Inv(frames, st, own) && IsRoot(own, root) && Covers(st.tables, own, root, f, level, prefix)
    requires 2 <= level && i < 512 && !(st.tables[f][i].IsPresent() && EndsWalk(st.tables[f][i], level))
    ensures st.tables[f][i].IsPresent() && child == st.tables[f][i].address ==>
              SlotTried(frames, st, st, own, own, root, f, level, prefix, i, true, child)
    ensures !st.tables[f][i].IsPresent() && |frames| <= st.n ==>
              SlotTried(frames, st, State(st.tables, st.n + 1), own, own, root, f, level, prefix, i, false, child)
  {
    WidenedNothing(st.tables, own, root, Low(prefix * 512 + i, level - 1), Low(prefix * 512 + i + 1, level - 1));
    if st.tables[f][i].IsPresent() {
      CoversChild(st.tables, own, root, f, level, prefix, i);
    }
  }

  lemma {:induction false} SlotAdded(frames: seq<Frame>, st: State, own: Owners, root: Frame, f: Frame, level: nat,
                                     prefix: nat, i: nat)
    requires Inv(frames, st, own) && IsRoot(own, root) && Covers(st.tables, own, root, f, level, prefix)
    requires 2 <= level && i < 512 && !st.tables[f][i].IsPresent() && st.n < |frames|
    ensures SlotTried(frames, st, Linked(frames, st, f, i, NO_FLAGS), own,
                      own[frames[st.n] := ChildPlace(f, own[f], i)], root, f, level, prefix, i, true, frames[st.n])
  {
    var m', own' := Linked(frames, st, f, i, NO_FLAGS).tables, own[frames[st.n] := ChildPlace(f, own[f], i)];
    LinkWidens(frames, st, own, root, f, i, m', Low(prefix * 512 + i, level - 1), Low(prefix * 512 + i + 1, level - 1));
    AddedFacts(frames, st, own, f, level, i);
    CoversOpened(st.tables, m', own, own', root, f, level, prefix, i);
  }

  lemma {:induction false} AddedFacts(frames: seq<Frame>, st: State, own: Owners, f: Frame, level: nat, i: nat)
    requires f in own && f in st.tables && i < 512 && 2 <= level && st.n < |frames| && frames[st.n] !in own
    ensures var m' := Linked(frames, st, f, i, NO_FLAGS).tables;
            && f in m' && m'[f][i] == Entry(frames[st.n], {Present}) && !EndsWalk(m'[f][i], level)
            && EmptyTable(m', frames[st.n])
  {
    PropagateNothing(Entry(frames[st.n], {Present}));
  }

  /** A scan below a slot that there was no frame for. */
  lemma {:induction false} TriedStarved(frames: seq<Frame>, st: State, st': State, own: Owners, own': Owners,
                                        root: Frame, f: Frame, level: nat, prefix: nat, i: nat, child: Frame, v: nat)
    requires Covers(st.tables, own, root, f, level, prefix) && 2 <= level && i < 512
    requires SlotTried(frames, st, st', own, own', root, f, level, prefix, i, false, child)
    requires v == FirstPage(prefix * 512 + i, level - 1)
    ensures FirstFree(st.tables, root, level - 1, prefix * 512 + i, 0, 512, v)
    ensures ScanEnds(frames, st, st', f, level, v, OutOfFrames)
  {
    SlotStarved(frames, st, own, root, f, level, prefix, i);
  }

  /** A scan in the table below a slot, seen from before it was there. */
  lemma {:induction false} TriedScanned(frames: seq<Frame>, st0: State, st1: State, st2: State, own: Owners,
                                        own1: Owners, root: Frame, f: Frame, level: nat, prefix: nat, i: nat,
                                        child: Frame, r: ScanResult, v: nat)
    requires Owned(st0.tables, own) && IsRoot(own, root) && Covers(st0.tables, own, root, f, level, prefix)
    requires 2 <= level && i < 512 && !(st0.tables[f][i].IsPresent() && EndsWalk(st0.tables[f][i], level))
    requires SlotTried(frames, st0, st1, own, own1, root, f, level, prefix, i, true, child)
    requires r.Full? ==> MappedBetween(st1.tables, root, level - 1, prefix * 512 + i, 0, 512) && st2 == st1
    requires !r.Full? ==> FirstFree(st1.tables, root, level - 1, prefix * 512 + i, 0, 512, v)
    requires !r.Full? ==> ScanEnds(frames, st1, st2, child, level - 1, v, r)
    ensures r.Full? ==> SlotMapped(st0.tables, root, level - 1, prefix * 512 + i) && st2 == st0
    ensures !r.Full? ==> FirstFree(st0.tables, root, level - 1, prefix * 512 + i, 0, 512, v)
    ensures !r.Full? ==> ScanEnds(frames, st0, st2, f, level, v, r)
  {
    SlotScanned(frames, st0, st1, st2, own, root, f, child, level, prefix, i, r, v);
  }

  lemma {:induction false} WayKept(m: Tables, m': Tables, own: Owners, own': Owners, root: Frame, level: nat,
                                   prefix: nat, i: nat, a: nat, here: nat, w: nat)
    requires Owned(m, own) && IsRoot(own, root) && Widened(m, m', own, own', root, a, here)
    requires prefix < Positions(level) && 1 <= level <= 4 && i < 512 && here == Low(prefix * 512 + i, level - 1)
    requires a <= here <= w < Low(prefix * 512 + (i + 1), level - 1)
    ensures SameWay(m, m', root, w) && Mapped(m, root, w) == Mapped(m', root, w)
  {
    ViewMapped(m, m', own, root);
    Below(prefix * 512 + i, w, level - 1);
    PageBound(w, level - 1);
  }

  /** Counting on after tables have been added before page `here`. */
  lemma {:induction false} CountedOn(frames: nat, n0: nat, n1: nat, n: nat, ok: bool, m: Tables, m': Tables,
                                     own: Owners, own': Owners, root: Frame, level: nat, prefix: nat, i: nat, a: nat,
                                     here: nat, c: nat)
    requires Owned(m, own) && IsRoot(own, root) && Widened(m, m', own, own', root, a, here)
    requires prefix < Positions(level) && 1 <= level <= 4 && i < 512 && here == Low(prefix * 512 + i, level - 1)
    requires a <= here <= c <= Low(prefix * 512 + (i + 1), level - 1)
    requires Counted(frames, n0, n1, true, m, root, level, a, here)
             && Counted(frames, n1, n, ok, m', root, level, here, c)
    ensures Counted(frames, n0, n, ok, m, root, level, a, c)
  {
    forall w: nat | here <= w < c ensures SameWay(m, m', root, w) && Mapped(m, root, w) == Mapped(m', root, w) {
      WayKept(m, m', own, own', root, level, prefix, i, a, here, w);
    }
    CountedMore(frames, n0, n1, n, ok, m, m', root, level, a, here, c);
  }

  ghost predicate HasTable(m: Tables, root: Frame, w: nat) {
    w < PAGES && Reach(m, root, 4, w, 1).Some?
  }

  /** No table is missing on the way to the pages from `a` up to `b`. */
  ghost predicate Furnished(m: Tables, root: Frame, a: nat, b: nat) {
    forall w: nat :: a <= w < b ==> FurnishedAt(m, root, w)
  }

  ghost predicate FurnishedAt(m: Tables, root: Frame, w: nat) {
    Mapped(m, root, w) || HasTable(m, root, w)
  }

  lemma {:induction false} FurnishedAbsent(m: Tables, root: Frame, a: nat, c: nat)
    requires Furnished(m, root, a, c)
    ensures Absent(m, root, 4, a, c) == 0
    decreases c
  {
    if a < c {
      FurnishedAbsent(m, root, a, c - 1);
      assert FurnishedAt(m, root, c - 1);
      FurnishedOpens(m, root, c - 1, 4);
    }
  }

  lemma {:induction false} FurnishedOpens(m: Tables, root: Frame, w: nat, level: nat)
    requires level <= 4 && FurnishedAt(m, root, w)
    ensures Opens(m, root, w, level) == 0
    decreases level
  {
    if level > 1 {
      FurnishedOpens(m, root, w, level - 1);
      if HasTable(m, root, w) {
        ReachAbove(m, root, 4, w, level - 1);
      }
    }
  }

  /** Where no table is missing, none is needed. */
  lemma {:induction false} FurnishedNeeds(m: Tables, root: Frame, lo: nat, hi: nat, count: nat)
    requires lo <= hi && Furnished(m, root, Low(lo, 3), Low(hi, 3))
    ensures TablesNeeded(m, root, lo, hi, count) == 0
  {
    LowMonotone(lo, hi, 3);
    SearchEndAfter(m, root, Low(lo, 3), count, Low(lo, 3), Low(hi, 3));
    FurnishedAbsent(m, root, Low(lo, 3), SearchEnd(m, root, Low(lo, 3), count, Low(lo, 3), Low(hi, 3)));
  }

  /** A walk that comes to level 1 has come through every level above. */
  lemma {:induction false} ReachAbove(m: Tables, g: Frame, top: nat, w: nat, k: nat)
    requires 1 <= k <= top && Reach(m, g, top, w, 1).Some?
    ensures Reach(m, g, top, w, k).Some?
    decreases top
  {
    if k < top {
      ReachAbove(m, m[g][Digit(w, top)].address, top - 1, w, k);
    }
  }

  /** The pages of the run have their tables. */
  ghost predicate Ready(m: Tables, root: Frame, run: FreeRun) {
    run.len > 0 ==>
      && run.start.Some?
      && forall w: nat :: run.start.value <= w < run.start.value + run.len ==> HasTable(m, root, w)
  }

  lemma {:induction false} ReadyKept(m: Tables, m': Tables, own: Owners, root: Frame, run: FreeRun)
    requires Owned(m, own) && IsRoot(own, root) && Grown(m, m', own) && Ready(m, root, run)
    ensures Ready(m', root, run)
  {
    if run.len > 0 {
      forall w: nat | run.start.value <= w < run.start.value + run.len ensures HasTable(m', root, w) {
        assert HasTable(m, root, w);
        RootOnWalk(m, own, root, w);
        ReachGrown(m, m', own, root, 4, w, 1);
      }
    }
  }

  /** What the search needs to go on in a table that has been opened. */
  lemma {:induction false} SearchOpened(m0: Tables, m: Tables, m': Tables, own: Owners, own': Owners, root: Frame,
                                        a: nat, b: nat, run: FreeRun)
    requires Owned(m, own) && IsRoot(own, root) && Widened(m, m', own, own', root, a, b)
    requires SameLeaves(m0, m, root) && Ready(m, root, run)
    ensures SameLeaves(m0, m', root) && Ready(m', root, run) && IsRoot(own', root)
  {
    LeavesKept(m0, m, m', own, root);
    ReadyKept(m, m', own, root, run);
  }

  /** What the search of a table says, seen from before its slot was opened. */
  lemma {:induction false} SlotSearched(frames: nat, st: State, st1: State, st2: State, ok: bool, own: Owners,
                                        own1: Owners, own2: Owners, root: Frame, f: Frame, g: Frame, level: nat,
                                        prefix: nat, i: nat, a: nat, b: nat, c: nat)
    requires Owned(st.tables, own) && IsRoot(own, root) && Covers(st.tables, own, root, f, level, prefix) && 2 <= level
             && i < 512
    requires Widened(st.tables, st1.tables, own, own1, root, a, b)
             && Widened(st1.tables, st2.tables, own1, own2, root, a, b)
    requires Covers(st1.tables, own1, root, g, level - 1, prefix * 512 + i)
    requires if st.tables[f][i].IsPresent() then !EndsWalk(st.tables[f][i], level) && st1 == st
             else EmptyTable(st1.tables, g) && st.n < frames && st1.n == st.n + 1
    requires a == Low(prefix * 512 + i, level - 1) && b == Low(prefix * 512 + i + 1, level - 1) && a < c <= b
    requires Counted(frames, st1.n, st2.n, ok, st1.tables, root, level - 1, a, c) && (st2.n == st1.n ==> st2 == st1)
    ensures Widened(st.tables, st2.tables, own, own2, root, a, b) && (st2.n == st.n ==> st2 == st)
    ensures Counted(frames, st.n, st2.n, ok, st.tables, root, level, a, c)
  {
    WidenedTwice(st.tables, st1.tables, st2.tables, own, own1, own2, root, a, b);
    CountedBelow(frames, st.n, st1.n, st2.n, ok, st.tables, st1.tables, own, own1, root, f, g, level, prefix, i, a, b,
                 c);
  }

  // ── Writing the pages of a run ────────────────────────────────────────────

  /** Page `v` mapped to `frame` whatever it held, permissions passed on along the way. */
  function Overwritten(frames: seq<Frame>, st: State, root: Frame, v: nat, frame: Frame, pf: PageFlags): State {
    var d := Descend(frames, st, root, 4, v, pf);
    if d.Reached? && d.table in d.st.tables then
      State(SetSlot(d.st.tables, d.table, Digit(v, 1), LeafEntry(frame, pf)), d.st.n)
    else d.st
  }

  /** Where the tables are there, exactly that page changes, in the spaces that share its table, and no table
      comes or goes. */
  lemma {:induction false} OverwriteLemma(frames: seq<Frame>, st: State, own: Owners, root: Frame, v: nat, frame: Frame,
                                          pf: PageFlags)
    requires Inv(frames, st, own) && IsRoot(own, root) && HasTable(st.tables, root, v)
    ensures var s := Overwritten(frames, st, root, v, frame, pf);
            && Inv(frames, s, own) && s.n == st.n
            && OnlyOverwritten(st, s, own, root, v, frame)
            && SameWays(st.tables, s.tables, own)
  {
    var d, s := Descend(frames, st, root, 4, v, pf), Overwritten(frames, st, root, v, frame, pf);
    var f, e := d.table, LeafEntry(frame, pf);
    RootOnWalk(st.tables, own, root, v);
    DescendPresent(frames, st, root, 4, v, pf);
    PresentOwners(frames, st, own, root, 4, v, pf);
    var own' := DescendLemma(frames, st, own, root, 4, v, pf);
    EndSlot(d.st.tables, own', f, Digit(v, 1), e);
    DescendKeepsReach(frames, st, root, 4, v, pf, root, 4, v, 1);
    forall r: Frame, w: nat | IsRoot(own, r) && w < PAGES
      ensures OverwrittenAt(st, s, r, root, v, frame, w) && SameWay(st.tables, s.tables, r, w)
    {
      RootOnWalk(d.st.tables, own', r, w);
      assert Resolve(d.st.tables, r, own[r].level, w) == Resolve(st.tables, r, own[r].level, w);
      LeafWrite(d.st.tables, own', f, v, e, r, w);
      forall t | 1 <= t <= 3 ensures Reach(s.tables, r, 4, w, t) == Reach(st.tables, r, 4, w, t) {
        DescendKeepsReach(frames, st, root, 4, v, pf, r, 4, w, t);
        LeafReach(d.st.tables, own', f, Digit(v, 1), e, r, 4, w, t);
      }
    }
  }

  ghost predicate OnlyOverwritten(st: State, st': State, own: Owners, root: Frame, v: nat, frame: Frame) {
    forall r: Frame, w: nat :: IsRoot(own, r) && w < PAGES ==> OverwrittenAt(st, st', r, root, v, frame, w)
  }

  predicate OverwrittenAt(st: State, st': State, r: Frame, root: Frame, v: nat, frame: Frame, w: nat) {
    At(st', r, w) == if w == v && Shares(st.tables, r, root, v, 1) then Some(Leaf(frame, 1)) else At(st, r, w)
  }

  /** The pages from `start` on map the frames from `base` on, `k` of them, in the spaces that share their tables
      with `root` according to `m`; nothing else has changed. */
  ghost predicate RunMapped(st: State, st': State, m: Tables, own: Owners, root: Frame, start: nat, base: Frame, k: nat)
  {
    forall r: Frame, w: nat :: IsRoot(own, r) && w < PAGES ==> RunMappedAt(st, st', m, r, root, start, base, k, w)
  }

  predicate RunMappedAt(st: State, st': State, m: Tables, r: Frame, root: Frame, start: nat, base: Frame, k: nat,
                        w: nat)
  {
    At(st', r, w) == if start <= w < start + k
      && Shares(m, r, root, w, 1) then Some(Leaf(base + (w - start) * 0x1000, 1))
                     else At(st, r, w)
  }

  /** One more page of the run. */
  lemma {:induction false} RunStep(st0: State, st: State, st': State, m: Tables, own: Owners, own': Owners, root: Frame,
                                   start: nat, base: Frame, k: nat, v: nat, frame: Frame, k': nat)
    requires v == start + k && frame == base + k * 0x1000 && k' == k + 1 && v < PAGES
    requires Extends(own', own) && IsRoot(own, root) && SameWays(m, st.tables, own)
    requires RunMapped(st0, st, m, own, root, start, base, k) && OnlyOverwritten(st, st', own', root, v, frame)
    ensures RunMapped(st0, st', m, own, root, start, base, k')
  {
    assert SameWay(m, st.tables, root, v);
    forall r: Frame, w: nat | IsRoot(own, r) && w < PAGES
      ensures RunMappedAt(st0, st', m, r, root, start, base, k', w)
    {
      assert RunMappedAt(st0, st, m, r, root, start, base, k, w) && OverwrittenAt(st, st', r, root, v, frame, w);
      assert SameWay(m, st.tables, r, v);
    }
  }

  /** Which spaces share a table can be told before the writing or after it. */
  lemma {:induction false} RunMappedAfter(st: State, st': State, m: Tables, own: Owners, root: Frame, start: nat,
                                          base: Frame, k: nat)
    requires Progress(st, st', m, own, root, start, base, k) && IsRoot(own, root)
    ensures RunMapped(st, st', st'.tables, own, root, start, base, k) && Written(st'.tables, root, start, k)
  {
    forall r: Frame, w: nat | IsRoot(own, r) && w < PAGES
      ensures RunMappedAt(st, st', st'.tables, r, root, start, base, k, w)
    {
      assert RunMappedAt(st, st', m, r, root, start, base, k, w) && SameWay(m, st'.tables, r, w)
             && SameWay(m, st'.tables, root, w);
    }
    forall w: nat | start <= w < start + k ensures HasTable(st'.tables, root, w) {
      assert HasTable(m, root, w) && SameWay(m, st'.tables, root, w);
    }
  }

  /** Pages `start` to `start + k` had their tables. */
  ghost predicate Written(m: Tables, root: Frame, start: nat, k: nat) {
    forall w: nat :: start <= w < start + k ==> HasTable(m, root, w)
  }

  /** `k` pages of the run have been written, from the tables `m` on. */
  ghost predicate Progress(st0: State, st: State, m: Tables, own: Owners, root: Frame, start: nat, base: Frame, k: nat)
  {
    RunMapped(st0, st, m, own, root, start, base, k) && Written(m, root, start, k) && SameWays(m, st.tables, own)
  }

  lemma {:induction false} ProgressStep(st0: State, st: State, st': State, m: Tables, own: Owners, own': Owners,
                                        root: Frame, start: nat, base: Frame, k: nat, v: nat, frame: Frame)
    requires v == start + k && frame == base + k * 0x1000 && HasTable(st.tables, root, v)
    requires Extends(own', own) && IsRoot(own, root) && Progress(st0, st, m, own, root, start, base, k)
    requires OnlyOverwritten(st, st', own', root, v, frame) && SameWays(st.tables, st'.tables, own')
    ensures Progress(st0, st', m, own, root, start, base, k + 1)
  {
    assert SameWay(m, st.tables, root, v);
    RunStep(st0, st, st', m, own, own', root, start, base, k, v, frame, k + 1);
    SameWaysTrans(m, st.tables, st'.tables, own, own');
  }

  lemma {:induction false} LowOfSlot(hi: nat)
    ensures Low(hi, 3) == hi * 0x800_0000
  {
    assert Low(hi, 3) == Low(hi * 512, 2) == Low(hi * 512 * 512, 1) == Low(hi * 512 * 512 * 512, 0);
  }

  /**
   * How many pages are written: `count` if the tables and the pages last that long, and else up to the first page
   * without tables. The writing keeps to the run exactly if the run is long enough, or there is no page after
   * it, or the page after it has no tables; otherwise it goes on outside the range.
   */
  ghost predicate Extent(m: Tables, root: Frame, run: FreeRun, hi: nat, count: nat, k: nat) {
    && run.start.Some?
    && (k == count || (run.len <= k && (run.start.value + k < PAGES ==> !HasTable(m, root, run.start.value + k))))
    && (k <= run.len <==> count <= run.len || hi == 512 || !HasTable(m, root, Low(hi, 3)))
  }

  lemma {:induction false} RunExtent(m0: Tables, m1: Tables, own0: Owners, own1: Owners, root: Frame, from: nat,
                                     hi: nat, end: nat, count: nat, at: nat, run: FreeRun, k: nat)
    requires Searched(m0, root, from, count, at, run) && at <= end && (at < end ==> Stops(m0, root, from, count, at))
    requires Widened(m0, m1, own0, own1, root, from, end) && Ready(m1, root, run) && 0 < run.len
    requires hi <= 512 && end == Low(hi, 3) && k <= count && run.start.value + k <= PAGES
             && Written(m1, root, run.start.value, k)
    requires k == count || run.start.value + k == PAGES || !HasTable(m1, root, run.start.value + k)
    ensures Extent(m0, root, run, hi, count, k)
  {
    LowOfSlot(hi);
    var start := run.start.value;
    assert HasTable(m1, root, start + run.len - 1);
    if run.len <= k && start + k < PAGES && run.len < count {
      assert at == end;
      assert SameWay(m0, m1, root, start + k);
    }
    if run.len < count && hi < 512 {
      assert at == end == start + run.len;
      assert SameWay(m0, m1, root, end);
      if k > run.len {
        assert HasTable(m1, root, end);
      }
    }
  }

  lemma {:induction false} BeforeWriting(st0: State, st: State, own: Owners, root: Frame, base: Frame, run: FreeRun)
    requires Owned(st0.tables, own) && SameView(st0.tables, st.tables, own) && Ready(st.tables, root, run)
             && 0 < run.len
    ensures run.start.value < PAGES && Progress(st0, st, st.tables, own, root, run.start.value, base, 0)
  {
    assert HasTable(st.tables, root, run.start.value);
    forall r: Frame, w: nat | IsRoot(own, r) && w < PAGES
      ensures RunMappedAt(st0, st, st.tables, r, root, run.start.value, base, 0, w)
    {
      RootOnWalk(st0.tables, own, r, w);
      assert Resolve(st.tables, r, own[r].level, w) == Resolve(st0.tables, r, own[r].level, w);
    }
  }

  lemma {:induction false} AddressOrder(start: nat, count: nat)
    requires 0 < count
    ensures start + count <= PAGES ==> (AddressOf(start) < AddressOf(start + count - 1) <==> 2 <= count)
  {
    if 2 <= count && start + count <= PAGES {
      RangeMissesLast(start, count, start);
    }
  }

  /** How the writing of a run ends: with its first and last page, at the last page there is, or off the tables. */
  datatype RunEnd = Done(first: nat, last: nat) | LastPage | Astray

  /** What the caller gets: a range, a panic, or a program that has written outside the tables. */
  datatype Placement = Range(range: PageRange) | Panic | Stray

  /** The outcome once `k` of `count` pages from `start` on have been written. */
  predicate Placed(r: Placement, start: nat, count: nat, k: nat) {
    match r
    case Range(range) =>
      k == count && 2 <= count && start + count < PAGES
        && range == PageRange(AddressOf(start), AddressOf(start + count - 1))
    case Panic => start + k == PAGES || (k == count == 1)
    case Stray => k < count && start + k < PAGES
  }

  /** A range of one page or none is refused. */
  function PlacementOf(ending: RunEnd): Placement {
    match ending
    case Done(first, last) =>
      if AddressOf(first) < AddressOf(last) then Range(PageRange(AddressOf(first), AddressOf(last))) else Panic
    case LastPage => Panic
    case Astray => Stray
  }

  /** The writing ended like this after `k` of `count` pages from `start` on. */
  ghost predicate EndsWith(m: Tables, root: Frame, ending: RunEnd, start: nat, count: nat, k: nat) {
    match ending
    case Done(first, last) => k == count && start + k < PAGES && first == start && last == start + count - 1
    case LastPage => start + k == PAGES
    case Astray => k < count && start + k < PAGES && !HasTable(m, root, start + k)
  }

  lemma {:induction false} EndPlaced(m: Tables, root: Frame, ending: RunEnd, start: nat, count: nat, k: nat)
    requires 0 < count && EndsWith(m, root, ending, start, count, k)
    ensures Placed(PlacementOf(ending), start, count, k)
    ensures k == count || start + k == PAGES || !HasTable(m, root, start + k)
  {
    AddressOrder(start, count);
  }

  // ── The four-index carry chain ────────────────────────────────────────────

  /** Indices into the tables of levels 4 to 1. */
  datatype Indices = Indices(i4: nat, i3: nat, i2: nat, i1: nat) {
    predicate Valid() { i4 < 512 && i3 < 512 && i2 < 512 && i1 < 512 }

    function Page(): nat { ((i4 * 512 + i3) * 512 + i2) * 512 + i1 }
  }

  function IndicesOf(v: nat): (x: Indices)
    requires v < PAGES
    ensures x.Valid() && x.Page() == v
  {
    var a := v / 512;
    var b := a / 512;
    Indices(b / 512, b % 512, a % 512, v % 512)
  }
}
