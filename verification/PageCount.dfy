/** How many tables are missing on the way to pages, and so how many frames a scan takes. */
module PageCount {
  import opened Prelude
  import opened PageWalk
  import opened PageMap
  import opened PageScan

  // ── Pages below a slot ────────────────────────────────────────────────────

  /** The least page number with the digits `p` above level `k`. */
  function Low(p: nat, k: nat): nat
    decreases k
  {
    if k == 0 then p else Low(p * 512, k - 1)
  }

  /** The first page below a slot, and the one after its last, as pages of the table below. */
  lemma {:induction false} LowChild(p: nat, k: nat)
    requires 0 < k
    ensures Low(p, k) == Low(p * 512 + 0, k - 1) && Low(p + 1, k) == Low(p * 512 + 512, k - 1)
  {
    assert (p + 1) * 512 == p * 512 + 512;
  }

  lemma {:induction false} LowMonotone(p: nat, q: nat, k: nat)
    requires p <= q
    ensures Low(p, k) <= Low(q, k) && (p < q ==> Low(p, k) < Low(q, k))
    decreases k
  {
    if k > 0 {
      LowMonotone(p * 512, q * 512, k - 1);
    }
  }

  lemma {:induction false} LowOrder(p: nat, lo: nat, i: nat, hi: nat, k: nat)
    requires lo <= i < hi
    ensures Low(p + lo, k) <= Low(p + i, k) < Low(p + (i + 1), k) <= Low(p + hi, k)
  {
    LowMonotone(p + lo, p + i, k);
    LowMonotone(p + i, p + i + 1, k);
    LowMonotone(p + i + 1, p + hi, k);
  }

  /** `Low` and `High` are adjoint. */
  lemma {:induction false} LowHigh(p: nat, w: nat, k: nat)
    ensures Low(p, k) <= w <==> p <= High(w, k)
    decreases k
  {
    if k > 0 {
      LowHigh(p * 512, w, k - 1);
    }
  }

  /** The pages from `Low(p, k)` up to the next are those with the digits `p`. */
  lemma {:induction false} Below(p: nat, w: nat, k: nat)
    ensures Low(p, k) <= w < Low(p + 1, k) <==> High(w, k) == p
  {
    LowHigh(p, w, k);
    LowHigh(p + 1, w, k);
  }

  lemma {:induction false} PageBound(w: nat, k: nat)
    requires High(w, k) < Positions(k)
    ensures w < PAGES
    decreases k
  {
    if k > 0 {
      PageBound(w, k - 1);
    }
  }

  /** The walk, taken up again at a table on its way. */
  lemma {:induction false} ReachFrom(m: Tables, g: Frame, top: nat, v: nat, level: nat, target: nat)
    requires 0 < level <= top && target <= level && Reach(m, g, top, v, level).Some?
    ensures Reach(m, g, top, v, target) == Reach(m, Reach(m, g, top, v, level).value, level, v, target)
    decreases top
  {
    if level < top {
      ReachFrom(m, m[g][Digit(v, top)].address, top - 1, v, level, target);
    }
  }

  // ── Frames ────────────────────────────────────────────────────────────────

  /** Of `frames` frames, `n0` of them given out, too few are left for `k` more tables. */
  predicate Short(frames: nat, n0: nat, k: nat) {
    0 < k && frames < n0 + k
  }

  /** Where the counter stands after `k` tables were asked for, up to the first that fails. */
  function Counter(frames: nat, n0: nat, k: nat): nat {
    if !Short(frames, n0, k) then n0 + k else if n0 < frames then frames + 1 else n0 + 1
  }

  // ── Tables missing on the way to one page ─────────────────────────────────

  /** How many of the tables below `level` are missing on the way to page `v`. */
  function Missing(m: Tables, root: Frame, v: nat, level: nat): nat {
    if level <= 1 then 0
    else Missing(m, root, v, level - 1) + (if Reach(m, root, 4, v, level - 1).None? then 1 else 0)
  }

  /** Below an absent slot all are missing. */
  lemma {:induction false} MissingAbsent(m: Tables, root: Frame, f: Frame, level: nat, v: nat, k: nat)
    requires 1 <= k <= level <= 4 && Reach(m, root, 4, v, level) == Some(f) && f in m
             && !m[f][Digit(v, level)].IsPresent()
    ensures Missing(m, root, v, k) == k - 1
    decreases k
  {
    if k > 1 {
      MissingAbsent(m, root, f, level, v, k - 1);
      ReachFrom(m, root, 4, v, level, k - 1);
    }
  }

  /** The first page below a slot, leaving out page 0. */
  function FirstPage(p: nat, k: nat): nat {
    if Low(p, k) == 0 then 1 else Low(p, k)
  }

  /** Below an absent slot the first page is the first free one. */
  lemma {:induction false} AbsentSlotFirst(m: Tables, own: Owners, root: Frame, f: Frame, level: nat, prefix: nat,
                                           i: nat)
    requires Covers(m, own, root, f, level, prefix) && 2 <= level && i < 512 && !m[f][i].IsPresent()
    ensures var p := prefix * 512 + i; FirstFree(m, root, level - 1, p, 0, 512, FirstPage(p, level - 1))
  {
    var p, k := prefix * 512 + i, level - 1;
    var v := FirstPage(p, k);
    NextInBlock(p, k);
    Below(p, v, k);
    PageBound(v, k);
    assert High(v, level) == prefix && Digit(v, level) == i;
    ResolveFrom(m, root, 4, v, level);
    forall w: nat | High(w, k) == p ensures w == 0 || v <= w {
      Below(p, w, k);
    }
  }

  lemma {:induction false} NextInBlock(p: nat, k: nat)
    requires 0 < k
    ensures Low(p, k) + 1 < Low(p + 1, k)
    decreases k
  {
    if k == 1 {
      assert Low(p, 1) == Low(p * 512, 0) && Low(p + 1, 1) == Low((p + 1) * 512, 0);
    } else {
      NextInBlock(p * 512, k - 1);
      LowMonotone(p * 512 + 1, (p + 1) * 512, k - 1);
    }
  }

  predicate EmptyTable(m: Tables, f: Frame) {
    f in m && m[f] == Zeroed()
  }

  /** How the scan below table `f` to page `v` ends: with the tables on the way there, or with the frames all out. */
  predicate ScanEnds(frames: seq<Frame>, st: State, st': State, f: Frame, level: nat, v: nat, r: ScanResult) {
    var d := Descend(frames, st, f, level, v, NO_FLAGS);
    st' == d.st && if r.Found? then r.v == v && d.Reached? else r.OutOfFrames? && d.NoFrames?
  }

  /** The state once there is a table below slot `i` of `f`. */
  predicate SlotOpen(frames: seq<Frame>, st: State, st': State, f: Frame, i: nat, child: Frame)
    requires f in st.tables && i < 512
  {
    if st.tables[f][i].IsPresent() then st' == st && child == st.tables[f][i].address
    else st.n < |frames| && st' == Linked(frames, st, f, i, NO_FLAGS) && child == frames[st.n]
  }

  /** A scan that there is no frame for would have found the first page below the slot. */
  lemma {:induction false} SlotStarved(frames: seq<Frame>, st: State, own: Owners, root: Frame, f: Frame, level: nat,
                                       prefix: nat, i: nat)
    requires Covers(st.tables, own, root, f, level, prefix) && 2 <= level && i < 512
    requires !st.tables[f][i].IsPresent() && |frames| <= st.n
    ensures var v := FirstPage(prefix * 512 + i, level - 1);
            && FirstFree(st.tables, root, level - 1, prefix * 512 + i, 0, 512, v)
            && ScanEnds(frames, st, State(st.tables, st.n + 1), f, level, v, OutOfFrames)
  {
    AbsentSlotFirst(st.tables, own, root, f, level, prefix, i);
    assert Digit(FirstPage(prefix * 512 + i, level - 1), level) == i;
  }

  /** What the scan of the table below a slot says, seen from before the slot was opened. */
  lemma {:induction false} SlotScanned(frames: seq<Frame>, st0: State, st1: State, st2: State, own: Owners, root: Frame,
                                       f: Frame, g: Frame, level: nat, prefix: nat, i: nat, r: ScanResult, v: nat)
    requires Owned(st0.tables, own) && IsRoot(own, root) && Covers(st0.tables, own, root, f, level, prefix)
    requires 2 <= level && i < 512 && SameView(st0.tables, st1.tables, own) && SlotOpen(frames, st0, st1, f, i, g)
    requires st0.tables[f][i].IsPresent() ==> !EndsWalk(st0.tables[f][i], level)
    requires r.Full? ==> MappedBetween(st1.tables, root, level - 1, prefix * 512 + i, 0, 512) && st2 == st1
    requires !r.Full? ==> FirstFree(st1.tables, root, level - 1, prefix * 512 + i, 0, 512, v)
    requires !r.Full? ==> ScanEnds(frames, st1, st2, g, level - 1, v, r)
    ensures r.Full? ==> SlotMapped(st0.tables, root, level - 1, prefix * 512 + i) && st2 == st0
    ensures !r.Full? ==> FirstFree(st0.tables, root, level - 1, prefix * 512 + i, 0, 512, v)
    ensures !r.Full? ==> ScanEnds(frames, st0, st2, f, level, v, r)
  {
    ViewMapped(st0.tables, st1.tables, own, root);
    if r.Full? {
      FullTable(st1.tables, root, level - 1, prefix * 512 + i);
      if !st0.tables[f][i].IsPresent() {
        AbsentSlotFirst(st0.tables, own, root, f, level, prefix, i);
      }
    } else {
      assert Digit(v, level) == i;
      SameSlot(st0.tables, f, i);
    }
  }

  lemma {:induction false} SameSlot(m: Tables, f: Frame, i: nat)
    requires f in m && i < 512
    ensures SetSlot(m, f, i, Propagate(m[f][i], NO_FLAGS)) == m
  {
    PropagateNothing(m[f][i]);
    assert m[f][i := m[f][i]] == m[f];
  }

  // ── Frames that a map takes ───────────────────────────────────────────────

  /** From an absent slot on, a walk down takes a frame for every level above the first. */
  lemma {:induction false} DescendAbsent(frames: seq<Frame>, st: State, f: Frame, level: nat, v: nat, pf: PageFlags)
    requires 1 <= level && f in st.tables && !st.tables[f][Digit(v, level)].IsPresent()
    requires Distinct(frames) && forall j :: st.n <= j < |frames| ==> frames[j] != f
    ensures var d := Descend(frames, st, f, level, v, pf);
            && d.st.n == Counter(|frames|, st.n, level - 1)
            && if Short(|frames|, st.n, level - 1) then d.NoFrames? else d.Reached?
    decreases level
  {
    if level > 1 && st.n < |frames| {
      var st1 := Linked(frames, st, f, Digit(v, level), pf);
      assert st1.tables[frames[st.n]] == Zeroed();
      DescendAbsent(frames, st1, frames[st.n], level - 1, v, pf);
      CounterAdd(|frames|, st.n, 1, level - 2);
    }
  }

  lemma {:induction false} MissingReflag(m: Tables, f: Frame, i: nat, e: Entry, root: Frame, v: nat, level: nat)
    requires f in m && i < 512 && SameTarget(m[f][i], e)
    ensures Missing(SetSlot(m, f, i, e), root, v, level) == Missing(m, root, v, level)
    decreases level
  {
    if level > 1 {
      MissingReflag(m, f, i, e, root, v, level - 1);
      ReflagReach(m, f, i, e, root, 4, v, level - 1);
    }
  }

  /** To a free page a walk down takes a frame for every table that is missing on the way. */
  lemma {:induction false} DescendTakes(frames: seq<Frame>, st: State, own: Owners, root: Frame, f: Frame, level: nat,
                                        v: nat, pf: PageFlags)
    requires Inv(frames, st, own) && OnWalk(own, f, level, v) && 1 <= level <= 4
    requires Reach(st.tables, root, 4, v, level) == Some(f) && Resolve(st.tables, f, level, v).None?
    ensures var d, k := Descend(frames, st, f, level, v, pf), Missing(st.tables, root, v, level);
            d.st.n == Counter(|frames|, st.n, k) && if Short(|frames|, st.n, k) then d.NoFrames? else d.Reached?
    decreases level
  {
    StepDown(st.tables, own, f, level, v);
    var i := Digit(v, level);
    var e := st.tables[f][i];
    if !e.IsPresent() {
      MissingAbsent(st.tables, root, f, level, v, level);
      DescendAbsent(frames, st, f, level, v, pf);
    } else if level > 1 {
      var e' := Propagate(e, pf);
      var st1 := State(SetSlot(st.tables, f, i, e'), st.n);
      Reflag(st.tables, own, f, i, e');
      StepDown(st.tables, own, e.address, level - 1, v);
      ReachStep(st.tables, root, 4, v, level);
      ReflagReach(st.tables, f, i, e', root, 4, v, level - 1);
      ReflagResolve(st.tables, f, i, e', e.address, level - 1, v);
      MissingReflag(st.tables, f, i, e', root, v, level - 1);
      DescendTakes(frames, st1, own, root, e.address, level - 1, v, pf);
    }
  }

  /** A map of a free page fails exactly if too few frames are left for the tables that are missing. */
  lemma {:induction false} MapTakes(frames: seq<Frame>, st: State, own: Owners, root: Frame, v: nat, frame: Frame,
                                    pf: PageFlags)
    requires Inv(frames, st, own) && IsRoot(own, root) && v < PAGES && At(st, root, v).None?
    ensures var s, k := Map(frames, st, root, v, frame, pf), Missing(st.tables, root, v, 4);
            s.st.n == Counter(|frames|, st.n, k) && s.outcome == if Short(|frames|, st.n, k) then Panicked else Ok
  {
    RootOnWalk(st.tables, own, root, v);
    DescendTakes(frames, st, own, root, root, 4, v, pf);
    var own' := MapLemma(frames, st, own, root, v, frame, pf);
    var own'' := DescendLemma(frames, st, own, root, 4, v, pf);
  }

  // ── Tables missing on the way to pages in a row ───────────────────────────

  /** The same tables are on the way to page `w`. */
  predicate SameWay(m: Tables, m': Tables, root: Frame, w: nat) {
    && Reach(m', root, 4, w, 1) == Reach(m, root, 4, w, 1)
    && Reach(m', root, 4, w, 2) == Reach(m, root, 4, w, 2)
    && Reach(m', root, 4, w, 3) == Reach(m, root, 4, w, 3)
  }

  /** The table of level `k` that begins with page `w` is missing. */
  ghost predicate Lacks(m: Tables, root: Frame, w: nat, k: nat) {
    !Mapped(m, root, w) && Aligned(w, k) && Reach(m, root, 4, w, k).None?
  }

  /** How many tables below `level` begin with page `w` and are missing. */
  ghost function Opens(m: Tables, root: Frame, w: nat, level: nat): nat {
    if level <= 1 then 0 else Opens(m, root, w, level - 1) + (if Lacks(m, root, w, level - 1) then 1 else 0)
  }

  /** How many tables below `level` are missing on the way to the pages from `a` up to `c`. */
  ghost function Absent(m: Tables, root: Frame, level: nat, a: nat, c: nat): nat
    decreases c
  {
    if c <= a then 0 else Absent(m, root, level, a, c - 1) + Opens(m, root, c - 1, level)
  }

  lemma {:induction false} AbsentSplit(m: Tables, root: Frame, level: nat, a: nat, b: nat, c: nat)
    requires a <= b <= c
    ensures Absent(m, root, level, a, c) == Absent(m, root, level, a, b) + Absent(m, root, level, b, c)
    decreases c
  {
    if b < c {
      AbsentSplit(m, root, level, a, b, c - 1);
    }
  }

  lemma {:induction false} OpensSame(m: Tables, m': Tables, root: Frame, w: nat, level: nat)
    requires SameWay(m, m', root, w) && Mapped(m, root, w) == Mapped(m', root, w) && level <= 4
    ensures Opens(m', root, w, level) == Opens(m, root, w, level)
    decreases level
  {
    if level > 1 {
      OpensSame(m, m', root, w, level - 1);
    }
  }

  /** Sums that agree page by page, except that one counts one more at the first page. */
  lemma {:induction false} AbsentPointwise(m: Tables, m': Tables, root: Frame, level: nat, level': nat, a: nat, c: nat,
                                           more: nat)
    requires forall w: nat :: a <= w < c ==> OpensMore(m, m', root, level, level', a, w, more)
    ensures Absent(m, root, level, a, c) == Absent(m', root, level', a, c) + (if a < c then more else 0)
    decreases c
  {
    if a < c {
      AbsentPointwise(m, m', root, level, level', a, c - 1, more);
      assert OpensMore(m, m', root, level, level', a, c - 1, more);
    }
  }

  ghost predicate OpensMore(m: Tables, m': Tables, root: Frame, level: nat, level': nat, a: nat, w: nat, more: nat) {
    Opens(m, root, w, level) == Opens(m', root, w, level') + (if w == a then more else 0)
  }

  lemma {:induction false} AbsentSame(m: Tables, m': Tables, root: Frame, level: nat, a: nat, c: nat)
    requires level <= 4
    requires forall w: nat :: a <= w < c ==> SameWay(m, m', root, w) && Mapped(m, root, w) == Mapped(m', root, w)
    ensures Absent(m', root, level, a, c) == Absent(m, root, level, a, c)
  {
    forall w: nat | a <= w < c ensures OpensMore(m', m, root, level, level, a, w, 0) {
      OpensSame(m, m', root, w, level);
    }
    AbsentPointwise(m', m, root, level, level, a, c, 0);
  }

  lemma {:induction false} OpensNone(m: Tables, root: Frame, w: nat, level: nat)
    requires Mapped(m, root, w) || level <= 1
    ensures Opens(m, root, w, level) == 0
    decreases level
  {
    if level > 1 {
      OpensNone(m, root, w, level - 1);
    }
  }

  /** Pages that are mapped lack nothing, and nothing is missing below level 1. */
  lemma {:induction false} AbsentNone(m: Tables, root: Frame, level: nat, a: nat, c: nat)
    requires level <= 1 || forall w: nat :: a <= w < c ==> Mapped(m, root, w)
    ensures Absent(m, root, level, a, c) == 0
    decreases c
  {
    if a < c {
      AbsentNone(m, root, level, a, c - 1);
      OpensNone(m, root, c - 1, level);
    }
  }

  lemma {:induction false} AlignedLow(w: nat, k: nat)
    ensures Aligned(w, k) <==> w == Low(High(w, k), k)
    decreases k
  {
    if k > 0 {
      AlignedLow(w, k - 1);
      LowMonotone(High(w, k) * 512, High(w, k - 1), k - 1);
      LowHigh(High(w, k - 1), w, k - 1);
    }
  }

  /** Below an absent slot no table is reached, and none below a table just added. */
  lemma {:induction false} OpensBelow(m: Tables, m': Tables, root: Frame, f: Frame, g: Frame, level: nat, w: nat,
                                      k: nat)
    requires 1 <= k < level <= 4 && Reach(m, root, 4, w, level) == Some(f) && f in m
             && !m[f][Digit(w, level)].IsPresent()
    requires Reach(m', root, 4, w, level - 1) == Some(g) && EmptyTable(m', g)
             && Mapped(m, root, w) == Mapped(m', root, w)
    ensures Opens(m', root, w, k) == Opens(m, root, w, k)
    decreases k
  {
    if k > 1 {
      OpensBelow(m, m', root, f, g, level, w, k - 1);
      ReachFrom(m, root, 4, w, level, k - 1);
      ReachFrom(m', root, 4, w, level - 1, k - 1);
    }
  }

  /** Below a slot with a table, one level less is to be looked at. */
  lemma {:induction false} OpensBelowPresent(m: Tables, own: Owners, root: Frame, f: Frame, level: nat, prefix: nat,
                                             i: nat, w: nat)
    requires Owned(m, own) && Covers(m, own, root, f, level, prefix) && 2 <= level && i < 512
    requires m[f][i].IsPresent() && !EndsWalk(m[f][i], level)
    requires Low(prefix * 512 + i, level - 1) <= w < Low(prefix * 512 + i + 1, level - 1)
    ensures Opens(m, root, w, level) == Opens(m, root, w, level - 1)
  {
    CoversChild(m, own, root, f, level, prefix, i);
    Below(prefix * 512 + i, w, level - 1);
    PageBound(w, level - 1);
  }

  lemma {:induction false} AbsentBelowPresent(m: Tables, own: Owners, root: Frame, f: Frame, level: nat, prefix: nat,
                                              i: nat, a: nat, b: nat, c: nat)
    requires Owned(m, own) && Covers(m, own, root, f, level, prefix) && 2 <= level && i < 512
    requires m[f][i].IsPresent() && !EndsWalk(m[f][i], level)
    requires a == Low(prefix * 512 + i, level - 1) && b == Low(prefix * 512 + i + 1, level - 1) && a <= c <= b
    ensures Absent(m, root, level, a, c) == Absent(m, root, level - 1, a, c)
  {
    var k := level - 1;
    forall w: nat | a <= w < c ensures OpensMore(m, m, root, level, k, a, w, 0) {
      OpensBelowPresent(m, own, root, f, level, prefix, i, w);
    }
    AbsentPointwise(m, m, root, level, k, a, c, 0);
  }

  /** Below a slot without one, the table that is added is counted at the first page. */
  lemma {:induction false} OpensBelowFresh(m: Tables, m': Tables, own: Owners, own': Owners, root: Frame, f: Frame,
                                           g: Frame, level: nat, prefix: nat, i: nat, a: nat, w: nat)
    requires Owned(m, own) && IsRoot(own, root) && SameView(m, m', own)
    requires Covers(m, own, root, f, level, prefix) && 2 <= level && i < 512 && !m[f][i].IsPresent()
    requires Covers(m', own', root, g, level - 1, prefix * 512 + i) && EmptyTable(m', g)
    requires a == Low(prefix * 512 + i, level - 1) <= w < Low(prefix * 512 + i + 1, level - 1)
    ensures Opens(m, root, w, level) == Opens(m', root, w, level - 1) + (if w == a then 1 else 0)
  {
    var p, k := prefix * 512 + i, level - 1;
    Below(p, w, k);
    PageBound(w, k);
    AlignedLow(w, k);
    assert High(w, level) == prefix && Digit(w, level) == i;
    ViewMapped(m, m', own, root);
    ResolveFrom(m, root, 4, w, level);
    ReachFrom(m, root, 4, w, level, k);
    OpensBelow(m, m', root, f, g, level, w, k);
  }

  lemma {:induction false} AbsentBelowFresh(m: Tables, m': Tables, own: Owners, own': Owners, root: Frame, f: Frame,
                                            g: Frame, level: nat, prefix: nat, i: nat, a: nat, b: nat, c: nat)
    requires Owned(m, own) && IsRoot(own, root) && SameView(m, m', own)
    requires Covers(m, own, root, f, level, prefix) && 2 <= level && i < 512 && !m[f][i].IsPresent()
    requires Covers(m', own', root, g, level - 1, prefix * 512 + i) && EmptyTable(m', g)
    requires a == Low(prefix * 512 + i, level - 1) && b == Low(prefix * 512 + i + 1, level - 1) && a <= c <= b
    ensures Absent(m, root, level, a, c) == Absent(m', root, level - 1, a, c) + (if a < c then 1 else 0)
  {
    var k := level - 1;
    forall w: nat | a <= w < c ensures OpensMore(m, m', root, level, k, a, w, 1) {
      OpensBelowFresh(m, m', own, own', root, f, g, level, prefix, i, a, w);
    }
    AbsentPointwise(m, m', root, level, k, a, c, 1);
  }

  // ── The count of a search ─────────────────────────────────────────────────

  /** `ok` and the counter are as after asking for all the tables missing on the way to the pages from `a` up to `c`. */
  ghost predicate Counted(frames: nat, n0: nat, n: nat, ok: bool, m: Tables, root: Frame, level: nat, a: nat, c: nat) {
    n == Counter(frames, n0, Absent(m, root, level, a, c)) && (ok <==> !Short(frames, n0, Absent(m, root, level, a, c)))
  }

  lemma {:induction false} CounterAdd(frames: nat, n0: nat, j: nat, k: nat)
    requires !Short(frames, n0, j)
    ensures Counter(frames, Counter(frames, n0, j), k) == Counter(frames, n0, j + k)
    ensures Short(frames, Counter(frames, n0, j), k) <==> Short(frames, n0, j + k)
  {
  }

  lemma {:induction false} CountedMore(frames: nat, n0: nat, n1: nat, n: nat, ok: bool, m: Tables, m': Tables,
                                       root: Frame, level: nat, a: nat, b: nat, c: nat)
    requires Counted(frames, n0, n1, true, m, root, level, a, b) && Counted(frames, n1, n, ok, m', root, level, b, c)
    requires level <= 4 && a <= b <= c
    requires forall w: nat :: b <= w < c ==> SameWay(m, m', root, w) && Mapped(m, root, w) == Mapped(m', root, w)
    ensures Counted(frames, n0, n, ok, m, root, level, a, c)
  {
    AbsentSplit(m, root, level, a, b, c);
    AbsentSame(m, m', root, level, b, c);
    CounterAdd(frames, n0, Absent(m, root, level, a, b), Absent(m, root, level, b, c));
  }

  /** Counting from before a slot is opened on, given the count below it. */
  lemma {:induction false} CountedBelow(frames: nat, n0: nat, n1: nat, n: nat, ok: bool, m: Tables, m': Tables,
                                        own: Owners, own': Owners, root: Frame, f: Frame, g: Frame, level: nat,
                                        prefix: nat, i: nat, a: nat, b: nat, c: nat)
    requires Owned(m, own) && IsRoot(own, root) && SameView(m, m', own) && Covers(m, own, root, f, level, prefix)
             && 2 <= level && i < 512
    requires Covers(m', own', root, g, level - 1, prefix * 512 + i)
    requires if m[f][i].IsPresent() then !EndsWalk(m[f][i], level) && m' == m && n1 == n0
             else EmptyTable(m', g) && n0 < frames && n1 == n0 + 1
    requires a == Low(prefix * 512 + i, level - 1) && b == Low(prefix * 512 + i + 1, level - 1) && a < c <= b
    requires Counted(frames, n1, n, ok, m', root, level - 1, a, c)
    ensures Counted(frames, n0, n, ok, m, root, level, a, c)
    ensures n == n0 ==> n == n1 && m' == m
  {
    if m[f][i].IsPresent() {
      AbsentBelowPresent(m, own, root, f, level, prefix, i, a, b, c);
    } else {
      AbsentBelowFresh(m, m', own, own', root, f, g, level, prefix, i, a, b, c);
      CounterAdd(frames, n0, 1, Absent(m', root, level - 1, a, c));
    }
  }

  /** A slot for which there is no frame. */
  lemma {:induction false} CountedStarved(frames: nat, n0: nat, n: nat, m: Tables, own: Owners, root: Frame, f: Frame,
                                          level: nat, prefix: nat, i: nat, a: nat)
    requires Covers(m, own, root, f, level, prefix) && 2 <= level && i < 512 && !m[f][i].IsPresent()
    requires a == Low(prefix * 512 + i, level - 1) && frames <= n0 && n == n0 + 1
    ensures Counted(frames, n0, n, false, m, root, level, a, a + 1)
  {
    var p, k := prefix * 512 + i, level - 1;
    LowMonotone(p, p + 1, k);
    Below(p, a, k);
    PageBound(a, k);
    AlignedLow(a, k);
    assert High(a, level) == prefix && Digit(a, level) == i;
    ResolveFrom(m, root, 4, a, level);
    ReachFrom(m, root, 4, a, level, k);
    assert Opens(m, root, a, level) >= 1;
    assert Absent(m, root, level, a, a + 1) == Absent(m, root, level, a, a) + Opens(m, root, a, level);
  }
}
