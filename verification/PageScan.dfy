/** Facts for the scans that look for free pages while they add missing tables. */
module PageScan {
  import opened Prelude
  import opened PageWalk
  import opened PageMap

  /** Slots are as they were, but absent ones may lead to new tables. */
  ghost predicate Grown(m: Tables, m': Tables, own: Owners) {
    forall f :: f in own ==> f in m && f in m' && TableGrown(m[f], m'[f])
  }

  predicate TableGrown(t: Table, t': Table) {
    forall i :: 0 <= i < 512 ==> SlotGrown(t[i], t'[i])
  }

  predicate SlotGrown(e: Entry, e': Entry) {
    e' == e || (!e.IsPresent() && e'.flags == {Present})
  }

  /** Tables that were not there began empty. */
  ghost predicate NewGrown(m: Tables, own: Owners, own': Owners) {
    forall f :: f in own' && f !in own ==> f in m && TableGrown(Zeroed(), m[f])
  }

  lemma {:induction false} TableGrownTrans(a: Table, b: Table, c: Table)
    requires TableGrown(a, b) && TableGrown(b, c)
    ensures TableGrown(a, c)
  {
    forall i | 0 <= i < 512 ensures SlotGrown(a[i], c[i]) {
      assert SlotGrown(a[i], b[i]) && SlotGrown(b[i], c[i]);
    }
  }

  lemma {:induction false} NewGrownTrans(b: Tables, c: Tables, own: Owners, own1: Owners, own2: Owners)
    requires NewGrown(b, own, own1) && Grown(b, c, own1) && NewGrown(c, own1, own2)
    ensures NewGrown(c, own, own2)
  {
    forall f | f in own2 && f !in own ensures f in c && TableGrown(Zeroed(), c[f]) {
      if f in own1 {
        TableGrownTrans(Zeroed(), b[f], c[f]);
      }
    }
  }

  lemma {:induction false} GrownTrans(a: Tables, b: Tables, c: Tables, own: Owners, own': Owners)
    requires Grown(a, b, own) && Grown(b, c, own') && Extends(own', own)
    ensures Grown(a, c, own)
  {
    forall f | f in own ensures f in a && f in c && TableGrown(a[f], c[f]) {
      TableGrownTrans(a[f], b[f], c[f]);
    }
  }

  /** A way down that exists stays. */
  lemma {:induction false} ReachGrown(m: Tables, m': Tables, own: Owners, g: Frame, level: nat, v: nat, target: nat)
    requires Owned(m, own) && OnWalk(own, g, level, v) && Grown(m, m', own) && target <= level
    requires Reach(m, g, level, v, target).Some?
    ensures Reach(m', g, level, v, target) == Reach(m, g, level, v, target)
    decreases level
  {
    StepDown(m, own, g, level, v);
    if target < level {
      var i := Digit(v, level);
      assert SlotGrown(m[g][i], m'[g][i]);
      ReachGrown(m, m', own, m[g][i].address, level - 1, v, target);
    }
  }

  lemma {:induction false} ReachStep(m: Tables, g: Frame, top: nat, v: nat, level: nat)
    requires 0 < level <= top && Reach(m, g, top, v, level).Some?
    ensures var f := Reach(m, g, top, v, level).value;
            f in m && (var e := m[f][Digit(v, level)];
                       e.IsPresent() && !EndsWalk(e, level) && e.address in m ==>
                         Reach(m, g, top, v, level - 1) == Some(e.address))
    decreases top
  {
    if level < top {
      ReachStep(m, m[g][Digit(v, top)].address, top - 1, v, level);
    }
  }

  lemma {:induction false} ResolveFrom(m: Tables, g: Frame, top: nat, v: nat, level: nat)
    requires 0 < level <= top && Reach(m, g, top, v, level).Some?
    ensures Resolve(m, g, top, v) == Resolve(m, Reach(m, g, top, v, level).value, level, v)
    decreases top
  {
    if level < top {
      ResolveFrom(m, m[g][Digit(v, top)].address, top - 1, v, level);
    }
  }

  /** How many page numbers, or positions of tables of this level, there are. */
  function Positions(level: nat): nat {
    if level == 0 then PAGES else Positions(level - 1) / 512
  }

  /** Table `f` is where `root` holds all pages with its digits. */
  ghost predicate Covers(m: Tables, own: Owners, root: Frame, f: Frame, level: nat, prefix: nat) {
    && f in own && f in m && own[f].level == level && own[f].prefix == prefix
    && 1 <= level <= 4 && prefix < Positions(level)
    && forall v: nat :: v < PAGES && High(v, level) == prefix ==> Reach(m, root, 4, v, level) == Some(f)
  }

  lemma {:induction false} CoversRoot(m: Tables, own: Owners, root: Frame)
    requires Owned(m, own) && IsRoot(own, root)
    ensures Covers(m, own, root, root, 4, 0)
  {
    assert TableOwned(m, own, root);
    assert Positions(4) == 1 by { assert Positions(2) == 0x4_0000; }
  }

  lemma {:induction false} CoversChild(m: Tables, own: Owners, root: Frame, f: Frame, level: nat, prefix: nat, i: nat)
    requires Owned(m, own) && Covers(m, own, root, f, level, prefix) && i < 512 && 2 <= level
    requires m[f][i].IsPresent() && !EndsWalk(m[f][i], level)
    ensures Covers(m, own, root, m[f][i].address, level - 1, prefix * 512 + i)
  {
    var c, l, p := m[f][i].address, level - 1, prefix * 512 + i;
    assert TableOwned(m, own, f);
    assert SlotOwned(own, f, own[f], i, m[f][i]);
    assert TableOwned(m, own, c);
    forall v: nat | v < PAGES && High(v, l) == p ensures Reach(m, root, 4, v, l) == Some(c) {
      assert High(v, level) == prefix && Digit(v, level) == i;
      ReachStep(m, root, 4, v, level);
    }
  }

  lemma {:induction false} CoversGrown(m: Tables, m': Tables, own: Owners, own': Owners, root: Frame, f: Frame,
                                       level: nat, prefix: nat)
    requires Owned(m, own) && IsRoot(own, root) && Covers(m, own, root, f, level, prefix) && Grown(m, m', own)
             && Extends(own', own)
    ensures Covers(m', own', root, f, level, prefix)
  {
    forall v: nat | v < PAGES && High(v, level) == prefix ensures Reach(m', root, 4, v, level) == Some(f) {
      RootOnWalk(m, own, root, v);
      ReachGrown(m, m', own, root, 4, v, level);
    }
  }

  lemma {:induction false} CoversOpened(m: Tables, m': Tables, own: Owners, own': Owners, root: Frame, f: Frame,
                                        level: nat, prefix: nat, i: nat)
    requires Owned(m, own) && IsRoot(own, root) && Covers(m, own, root, f, level, prefix) && Grown(m, m', own)
             && Extends(own', own)
    requires Owned(m', own') && 2 <= level && i < 512 && f in m' && m'[f][i].IsPresent() && !EndsWalk(m'[f][i], level)
    ensures Covers(m', own', root, m'[f][i].address, level - 1, prefix * 512 + i)
  {
    CoversGrown(m, m', own, own', root, f, level, prefix);
    CoversChild(m', own', root, f, level, prefix, i);
  }

  // ── Order of page numbers ─────────────────────────────────────────────────

  lemma {:induction false} HighMonotone(v: nat, w: nat, level: nat)
    requires v <= w
    ensures High(v, level) <= High(w, level)
  {
    if level > 0 {
      HighMonotone(v, w, level - 1);
    }
  }

  lemma {:induction false} LinkInv(frames: seq<Frame>, st: State, own: Owners, f: Frame, i: nat)
    requires Inv(frames, st, own) && f in own && f in st.tables && own[f].level >= 2 && i < 512
    requires !st.tables[f][i].IsPresent() && st.n < |frames|
    ensures var own' := own[frames[st.n] := ChildPlace(f, own[f], i)];
            var m' := SetSlot(st.tables[frames[st.n] := Zeroed()], f, i, Entry(frames[st.n], {Present}));
            && Inv(frames, State(m', st.n + 1), own') && Extends(own', own)
            && SameView(st.tables, m', own) && Grown(st.tables, m', own)
  {
    LinkTable(st.tables, own, f, i, frames[st.n]);
    forall g | g in own ensures g in st.tables { assert TableOwned(st.tables, own, g); }
  }

  // ── What a scan finds ─────────────────────────────────────────────────────

  datatype ScanResult = Found(v: nat) | Full | OutOfFrames

  ghost predicate Mapped(m: Tables, root: Frame, v: nat) {
    Resolve(m, root, 4, v).Some?
  }

  /** Every page below slots `lo` to `hi` of the table at `prefix`, except page 0, is mapped. */
  ghost predicate MappedBetween(m: Tables, root: Frame, level: nat, prefix: nat, lo: nat, hi: nat) {
    forall w: nat :: w < PAGES && High(w, level) == prefix && 0 < level && lo <= Digit(w, level) < hi && w != 0 ==>
      Mapped(m, root, w)
  }

  /** `v` is free, and every page before it in the scan, except page 0, is mapped. */
  ghost predicate FirstFree(m: Tables, root: Frame, level: nat, prefix: nat, lo: nat, hi: nat, v: nat) {
    && 0 < v < PAGES && 0 < level && High(v, level) == prefix && lo <= Digit(v, level) < hi && !Mapped(m, root, v)
    && forall w: nat :: 0 < w < v && High(w, level) == prefix && lo <= Digit(w, level) ==> Mapped(m, root, w)
  }

  /** Every page below slot `i`, except page 0, is mapped. */
  ghost predicate SlotMapped(m: Tables, root: Frame, level: nat, p: nat) {
    forall w: nat :: 0 < w < PAGES && High(w, level) == p ==> Mapped(m, root, w)
  }

  lemma {:induction false} ViewMapped(m: Tables, m': Tables, own: Owners, root: Frame)
    requires Owned(m, own) && IsRoot(own, root) && SameView(m, m', own)
    ensures forall w: nat :: w < PAGES ==> Mapped(m', root, w) == Mapped(m, root, w)
  {
    forall w: nat | w < PAGES ensures Mapped(m', root, w) == Mapped(m, root, w) {
      RootOnWalk(m, own, root, w);
      assert Resolve(m', root, own[root].level, w) == Resolve(m, root, own[root].level, w);
    }
  }

  /** A slot that ends walks maps all its pages. */
  lemma {:induction false} EndingSlotMapped(m: Tables, own: Owners, root: Frame, f: Frame, level: nat, prefix: nat,
                                            i: nat)
    requires Covers(m, own, root, f, level, prefix) && i < 512
    requires m[f][i].IsPresent() && EndsWalk(m[f][i], level)
    ensures SlotMapped(m, root, level - 1, prefix * 512 + i)
  {
    var l, p := level - 1, prefix * 512 + i;
    forall w: nat | 0 < w < PAGES && High(w, l) == p ensures Mapped(m, root, w) {
      assert High(w, level) == prefix && Digit(w, level) == i;
      ResolveFrom(m, root, 4, w, level);
    }
  }

  /** An absent slot of a level-1 table is a free page. */
  lemma {:induction false} AbsentSlotFree(m: Tables, own: Owners, root: Frame, f: Frame, prefix: nat, i: nat)
    requires Covers(m, own, root, f, 1, prefix) && i < 512 && !m[f][i].IsPresent()
    ensures var v := prefix * 512 + i;
            v < PAGES && High(v, 1) == prefix && Digit(v, 1) == i && !Mapped(m, root, v)
              && Reach(m, root, 4, v, 1) == Some(f)
  {
    var v := prefix * 512 + i;
    assert High(v, 1) == prefix;
    ResolveFrom(m, root, 4, v, 1);
  }

  lemma {:induction false} ExtendMapped(m: Tables, root: Frame, level: nat, prefix: nat, lo: nat, i: nat)
    requires 0 < level && MappedBetween(m, root, level, prefix, lo, i)
             && SlotMapped(m, root, level - 1, prefix * 512 + i)
    ensures MappedBetween(m, root, level, prefix, lo, i + 1)
  {
  }

  lemma {:induction false} FullTable(m: Tables, root: Frame, level: nat, p: nat)
    requires 0 < level && MappedBetween(m, root, level, p, 0, 512)
    ensures SlotMapped(m, root, level, p)
  {
    forall w: nat | 0 < w < PAGES && High(w, level) == p ensures Mapped(m, root, w) {
      assert Digit(w, level) < 512;
    }
  }

  /** The first free page below slot `i` is the first of the table, if the slots before `i` are full. */
  lemma {:induction false} FirstBelow(m: Tables, root: Frame, level: nat, prefix: nat, lo: nat, hi: nat, i: nat, v: nat)
    requires 1 < level && lo <= i < hi <= 512 && MappedBetween(m, root, level, prefix, lo, i)
    requires FirstFree(m, root, level - 1, prefix * 512 + i, 0, 512, v)
    ensures FirstFree(m, root, level, prefix, lo, hi, v)
  {
    assert High(v, level) == prefix && Digit(v, level) == i;
    forall w: nat | 0 < w < v && High(w, level) == prefix && lo <= Digit(w, level) ensures Mapped(m, root, w) {
      HighMonotone(w, v, level - 1);
      if Digit(w, level) == i {
        assert High(w, level - 1) == prefix * 512 + i && Digit(w, level - 1) >= 0;
      }
    }
  }

  lemma {:induction false} FirstHere(m: Tables, root: Frame, prefix: nat, lo: nat, hi: nat, i: nat)
    requires lo <= i < hi <= 512 && MappedBetween(m, root, 1, prefix, lo, i)
    requires var v := prefix * 512 + i; 0 < v < PAGES && High(v, 1) == prefix && Digit(v, 1) == i && !Mapped(m, root, v)
    ensures FirstFree(m, root, 1, prefix, lo, hi, prefix * 512 + i)
  {
  }

  /** What a slot without a table below says about the scan: a free page is the first, a mapped one counts as seen. */
  lemma {:induction false} SlotSeen(m: Tables, own: Owners, root: Frame, f: Frame, level: nat, prefix: nat, lo: nat,
                                    hi: nat, i: nat)
    requires Covers(m, own, root, f, level, prefix) && lo <= i < hi <= 512
             && MappedBetween(m, root, level, prefix, lo, i)
    ensures level == 1 && prefix * 512 + i != 0 && !m[f][i].IsPresent() ==>
              FirstFree(m, root, 1, prefix, lo, hi, prefix * 512 + i) && Reach(m, root, 4, prefix * 512 + i, 1).Some?
    ensures (level == 1 && prefix * 512 + i == 0) || (m[f][i].IsPresent() && EndsWalk(m[f][i], level)) ==>
              MappedBetween(m, root, level, prefix, lo, i + 1)
  {
    if m[f][i].IsPresent() && EndsWalk(m[f][i], level) {
      EndingSlotMapped(m, own, root, f, level, prefix, i);
      ExtendMapped(m, root, level, prefix, lo, i);
    } else if level == 1 && prefix * 512 + i != 0 {
      AbsentSlotFree(m, own, root, f, prefix, i);
      FirstHere(m, root, prefix, lo, hi, i);
    }
  }

  /** The same for a slot whose table has been scanned. */
  lemma {:induction false} BelowSeen(m: Tables, root: Frame, level: nat, prefix: nat, lo: nat, hi: nat, i: nat,
                                     r: ScanResult, v: nat)
    requires 1 < level && lo <= i < hi <= 512 && MappedBetween(m, root, level, prefix, lo, i)
    requires r.Full? ==> SlotMapped(m, root, level - 1, prefix * 512 + i)
    requires !r.Full? ==> FirstFree(m, root, level - 1, prefix * 512 + i, 0, 512, v)
    ensures r.Full? ==> MappedBetween(m, root, level, prefix, lo, i + 1)
    ensures !r.Full? ==> FirstFree(m, root, level, prefix, lo, hi, v)
  {
    if r.Full? {
      ExtendMapped(m, root, level, prefix, lo, i);
    } else {
      FirstBelow(m, root, level, prefix, lo, hi, i, v);
    }
  }

  // ── Mapping a page the scan found ─────────────────────────────────────────

  lemma {:induction false} ReflagReach(mem: Tables, f: Frame, i: nat, e: Entry, g: Frame, level: nat, v: nat,
                                       target: nat)
    requires f in mem && i < 512 && SameTarget(mem[f][i], e)
    ensures Reach(SetSlot(mem, f, i, e), g, level, v, target) == Reach(mem, g, level, v, target)
    decreases level
  {
    if level > target && g in mem {
      ReflagReach(mem, f, i, e, mem[g][Digit(v, level)].address, level - 1, v, target);
    }
  }

  lemma {:induction false} DescendPresent(frames: seq<Frame>, st: State, f: Frame, level: nat, v: nat, pf: PageFlags)
    requires Reach(st.tables, f, level, v, 1).Some?
    ensures Descend(frames, st, f, level, v, pf).Reached?
    ensures Descend(frames, st, f, level, v, pf).table in Descend(frames, st, f, level, v, pf).st.tables
    ensures Descend(frames, st, f, level, v, pf).st.n == st.n
    decreases level
  {
    if level > 1 {
      var i := Digit(v, level);
      var e := st.tables[f][i];
      ReflagReach(st.tables, f, i, Propagate(e, pf), e.address, level - 1, v, 1);
      DescendPresent(frames, State(SetSlot(st.tables, f, i, Propagate(e, pf)), st.n), e.address, level - 1, v, pf);
    }
  }

  lemma {:induction false} PresentOwners(frames: seq<Frame>, st: State, own: Owners, f: Frame, level: nat, v: nat,
                                         pf: PageFlags)
    requires Reach(st.tables, f, level, v, 1).Some?
    ensures DescendOwners(frames, st, own, f, level, v, pf) == own
    decreases level
  {
    if level > 1 {
      var i := Digit(v, level);
      var e := st.tables[f][i];
      ReflagReach(st.tables, f, i, Propagate(e, pf), e.address, level - 1, v, 1);
      PresentOwners(frames, State(SetSlot(st.tables, f, i, Propagate(e, pf)), st.n), own, e.address, level - 1, v, pf);
    }
  }

  /** A free page whose tables are there can always be mapped. */
  lemma {:induction false} MapSucceeds(frames: seq<Frame>, st: State, own: Owners, root: Frame, v: nat, frame: Frame,
                                       pf: PageFlags)
    requires Inv(frames, st, own) && IsRoot(own, root) && v < PAGES
    requires Reach(st.tables, root, 4, v, 1).Some? && At(st, root, v) == None
    ensures Map(frames, st, root, v, frame, pf).outcome == Ok && Map(frames, st, root, v, frame, pf).st.n == st.n
  {
    DescendPresent(frames, st, root, 4, v, pf);
    var own' := MapLemma(frames, st, own, root, v, frame, pf);
  }

  /** Unmapping a page that was just mapped restores every translation of every address space. */
  lemma {:induction false} UnmapUndoesMap(frames: seq<Frame>, st: State, own: Owners, root: Frame, v: nat,
                                          frame: Frame, pf: PageFlags)
    requires Inv(frames, st, own) && IsRoot(own, root) && v < PAGES
    requires Map(frames, st, root, v, frame, pf).outcome == Ok
    ensures var s := Unmap(Map(frames, st, root, v, frame, pf).st, root, 4, v);
            && s.outcome == Ok
            && forall r: Frame, w: nat :: IsRoot(own, r) && w < PAGES ==> At(s.st, r, w) == At(st, r, w)
  {
    var own' := MapLemma(frames, st, own, root, v, frame, pf);
    UnmapLemma(frames, Map(frames, st, root, v, frame, pf).st, own', root, v);
  }

  /** Page `v` maps `frame`, in the spaces that share its table, and no other page of any space has changed. */
  ghost predicate OnlyMapped(st: State, st': State, own: Owners, root: Frame, v: nat, frame: Frame) {
    && At(st', root, v) == Some(Leaf(frame, 1))
    && forall r: Frame, w: nat :: IsRoot(own, r) && w < PAGES ==> OnlyMappedAt(st, st', r, root, v, frame, w)
  }

  predicate OnlyMappedAt(st: State, st': State, r: Frame, root: Frame, v: nat, frame: Frame, w: nat) {
    At(st', r, w) == if w == v && Shares(st'.tables, r, root, v, 1) then Some(Leaf(frame, 1)) else At(st, r, w)
  }

  lemma {:induction false} MapOnly(frames: seq<Frame>, st0: State, st: State, own0: Owners, own: Owners, root: Frame,
                                   v: nat, frame: Frame, pf: PageFlags)
    requires Inv(frames, st, own) && IsRoot(own, root) && v < PAGES && Extends(own, own0)
    requires Map(frames, st, root, v, frame, pf).outcome == Ok
    requires forall r: Frame, w: nat :: IsRoot(own0, r) && w < PAGES ==> At(st, r, w) == At(st0, r, w)
    ensures OnlyMapped(st0, Map(frames, st, root, v, frame, pf).st, own0, root, v, frame)
  {
    var own' := MapLemma(frames, st, own, root, v, frame, pf);
    var st' := Map(frames, st, root, v, frame, pf).st;
    forall r: Frame, w: nat | IsRoot(own0, r) && w < PAGES ensures OnlyMappedAt(st0, st', r, root, v, frame, w) {
      assert IsRoot(own, r);
    }
  }

  /** Where its tables are all there, the walk down adds none. */
  lemma {:induction false} DescendKeepsReach(frames: seq<Frame>, st: State, f: Frame, level: nat, v: nat,
                                             pf: PageFlags, g: Frame, top: nat, w: nat, target: nat)
    requires Reach(st.tables, f, level, v, 1).Some?
    ensures Reach(Descend(frames, st, f, level, v, pf).st.tables, g, top, w, target)
              == Reach(st.tables, g, top, w, target)
    decreases level
  {
    if level > 1 {
      var i := Digit(v, level);
      var e := st.tables[f][i];
      var st' := State(SetSlot(st.tables, f, i, Propagate(e, pf)), st.n);
      ReflagReach(st.tables, f, i, Propagate(e, pf), e.address, level - 1, v, 1);
      ReflagReach(st.tables, f, i, Propagate(e, pf), g, top, w, target);
      DescendKeepsReach(frames, st', e.address, level - 1, v, pf, g, top, w, target);
    }
  }

  // ── Adding the tables first and passing the permissions on later ──────────

  lemma {:induction false} SlotsSwap(m: Tables, f: Frame, i: nat, x: Entry, c: Frame, j: nat, y: Entry)
    requires f in m && c in m && f != c && i < 512 && j < 512
    ensures SetSlot(SetSlot(m, f, i, x), c, j, y) == SetSlot(SetSlot(m, c, j, y), f, i, x)
  {
  }

  lemma {:induction false} LinkedSwap(frames: seq<Frame>, st: State, f: Frame, i: nat, x: Entry, c: Frame, j: nat,
                                      pf: PageFlags)
    requires f in st.tables && c in st.tables && f != c && i < 512 && j < 512
    requires st.n < |frames| && frames[st.n] != f && frames[st.n] != c
    ensures var s := Linked(frames, st, c, j, pf);
            Linked(frames, State(SetSlot(st.tables, f, i, x), st.n), c, j, pf) == State(SetSlot(s.tables, f, i, x), s.n)
  {
    var a, b := SetSlot(st.tables, f, i, x)[frames[st.n] := Zeroed()],
      SetSlot(st.tables[frames[st.n] := Zeroed()], f, i, x);
    assert a == b;
    SlotsSwap(st.tables[frames[st.n] := Zeroed()], f, i, x, c, j, Propagate(Entry(frames[st.n], {Present}), pf));
  }

  /** A slot further up may be written before the walk down or after it. */
  lemma {:induction false} DescendSwap(frames: seq<Frame>, st: State, own: Owners, c: Frame, k: nat, v: nat,
                                       pf: PageFlags, f: Frame, i: nat, x: Entry)
    requires Inv(frames, st, own) && OnWalk(own, c, k, v) && 0 < k && f in own && own[f].level > k && i < 512
    requires f in st.tables && SameTarget(st.tables[f][i], x)
    ensures var d := Descend(frames, st, c, k, v, pf);
            var d' := Descend(frames, State(SetSlot(st.tables, f, i, x), st.n), c, k, v, pf);
            && f in d.st.tables && d'.st == State(SetSlot(d.st.tables, f, i, x), d.st.n)
            && d'.Reached? == d.Reached?
    decreases k
  {
    StepDown(st.tables, own, c, k, v);
    var j := Digit(v, k);
    var e := st.tables[c][j];
    if k > 1 && e.IsPresent() && !EndsWalk(e, k) {
      Reflag(st.tables, own, c, j, Propagate(e, pf));
      SlotsSwap(st.tables, f, i, x, c, j, Propagate(e, pf));
      DescendSwap(frames, State(SetSlot(st.tables, c, j, Propagate(e, pf)), st.n), own, e.address, k - 1, v, pf, f, i,
                  x);
    } else if k > 1 && !e.IsPresent() && st.n < |frames| {
      var own1 := own[frames[st.n] := ChildPlace(c, own[c], j)];
      LinkedLemma(frames, st, own, c, j, pf);
      LinkedSwap(frames, st, f, i, x, c, j, pf);
      DescendSwap(frames, Linked(frames, st, c, j, pf), own1, frames[st.n], k - 1, v, pf, f, i, x);
    }
  }

  /** Adding the tables that are missing and walking down after that is walking down at once. */
  lemma {:induction false} DescendTwice(frames: seq<Frame>, st: State, own: Owners, f: Frame, level: nat, v: nat,
                                        pf: PageFlags)
    requires Inv(frames, st, own) && OnWalk(own, f, level, v) && 0 < level
    requires Descend(frames, st, f, level, v, NO_FLAGS).Reached?
    ensures Descend(frames, Descend(frames, st, f, level, v, NO_FLAGS).st, f, level, v, pf)
         == Descend(frames, st, f, level, v, pf)
    decreases level
  {
    StepDown(st.tables, own, f, level, v);
    if level > 1 {
      var st1, own1, c := Opened(frames, st, own, f, level, v);
      var i := Digit(v, level);
      var e := st1.tables[f][i];
      var st2 := State(SetSlot(st1.tables, f, i, Propagate(e, pf)), st1.n);
      Reflag(st1.tables, own1, f, i, Propagate(e, pf));
      DescendSwap(frames, st1, own1, c, level - 1, v, NO_FLAGS, f, i, Propagate(e, pf));
      DescendTwice(frames, st2, own1, c, level - 1, v, pf);
      OpenedThen(frames, st, f, level, v, pf, st1, c);
      var own' := DescendLemma(frames, st1, own1, c, level - 1, v, NO_FLAGS);
    }
  }

  lemma {:induction false} OpenedThen(frames: seq<Frame>, st: State, f: Frame, level: nat, v: nat, pf: PageFlags,
                                      st1: State, c: Frame)
    requires 1 < level && f in st.tables && f in st1.tables
    requires var i := Digit(v, level);
             && st1.tables[f][i].IsPresent() && !EndsWalk(st1.tables[f][i], level) && st1.tables[f][i].address == c
             && (if st.tables[f][i].IsPresent() then st1 == st
                 else st.n < |frames| && c == frames[st.n] && st1.tables[f][i] == Entry(c, {Present})
                      && st1 == State(SetSlot(st.tables[c := Zeroed()], f, i, Entry(c, {Present})), st.n + 1))
    ensures var m2 := SetSlot(st1.tables, f, Digit(v, level), Propagate(st1.tables[f][Digit(v, level)], pf));
            Descend(frames, State(m2, st1.n), c, level - 1, v, pf) == Descend(frames, st, f, level, v, pf)
  {
    var i := Digit(v, level);
    if !st.tables[f][i].IsPresent() {
      SlotTwice(st.tables[c := Zeroed()], f, i, st1.tables[f][i], Propagate(st1.tables[f][i], pf));
    }
  }

  /** The first step of adding the tables. */
  lemma {:induction false} Opened(frames: seq<Frame>, st: State, own: Owners, f: Frame, level: nat, v: nat)
    returns (st1: State, own1: Owners, c: Frame)
    requires Inv(frames, st, own) && OnWalk(own, f, level, v) && 1 < level && f in st.tables
    requires !Descend(frames, st, f, level, v, NO_FLAGS).Blocked?
    requires st.tables[f][Digit(v, level)].IsPresent() || st.n < |frames|
    ensures var i := Digit(v, level);
            && Inv(frames, st1, own1) && Extends(own1, own) && OnWalk(own1, c, level - 1, v)
            && f in st1.tables && st1.tables[f][i].IsPresent() && !EndsWalk(st1.tables[f][i], level)
            && st1.tables[f][i].address == c
            && Descend(frames, st, f, level, v, NO_FLAGS) == Descend(frames, st1, c, level - 1, v, NO_FLAGS)
            && (if st.tables[f][i].IsPresent() then st1 == st
                else c == frames[st.n] && st1.tables[f][i] == Entry(c, {Present})
                     && st1 == State(SetSlot(st.tables[c := Zeroed()], f, i, Entry(c, {Present})), st.n + 1))
  {
    var i := Digit(v, level);
    var e := st.tables[f][i];
    StepDown(st.tables, own, f, level, v);
    if e.IsPresent() {
      PropagateNothing(e);
      assert st.tables[f][i := e] == st.tables[f];
      assert SetSlot(st.tables, f, i, e) == st.tables;
      st1, own1, c := st, own, e.address;
    } else {
      c := frames[st.n];
      PropagateNothing(Entry(c, {Present}));
      LinkedLemma(frames, st, own, f, i, NO_FLAGS);
      st1, own1 := Linked(frames, st, f, i, NO_FLAGS), own[c := ChildPlace(f, own[f], i)];
    }
  }
}
