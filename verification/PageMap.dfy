/** Mapping and unmapping pages, as functions of the page tables and the frame counter. */
module PageMap {
  import opened Prelude
  import opened PageWalk

  /** The page tables in memory and how many frames have been handed out. */
  datatype State = State(tables: Tables, n: nat)

  datatype PageFlags =
    PageFlags(writable: bool, executable: bool, userAccessible: bool, writeThrough: bool, disableCaching: bool)

  /** Every table has one place, and no frame still to be handed out is a table. */
  ghost predicate Inv(frames: seq<Frame>, st: State, own: Owners) {
    && Owned(st.tables, own) && Distinct(frames)
    && forall j :: st.n <= j < |frames| ==> frames[j] !in own
  }

  ghost predicate Extends(own': Owners, own: Owners) {
    forall g :: g in own ==> g in own' && own'[g] == own[g]
  }

  lemma {:induction false} SameViewTrans(a: Tables, b: Tables, c: Tables, own: Owners, own': Owners)
    requires SameView(a, b, own) && SameView(b, c, own') && Extends(own', own)
    ensures SameView(a, c, own)
  {
    forall g: Frame, v: nat | g in own && own[g].prefix == High(v, own[g].level)
      ensures Resolve(c, g, own[g].level, v) == Resolve(a, g, own[g].level, v)
    {
      assert Resolve(c, g, own'[g].level, v) == Resolve(b, g, own'[g].level, v);
      assert Resolve(b, g, own[g].level, v) == Resolve(a, g, own[g].level, v);
    }
  }

  // ── Entries ───────────────────────────────────────────────────────────────

  /** Permissions that every entry on the way down must carry too. */
  function Propagate(e: Entry, pf: PageFlags): (r: Entry)
    ensures SameTarget(e, r)
  {
    e.(flags := e.flags + (if pf.writable then {Writable} else {})
       + (if pf.userAccessible then {UserAccessible} else {}))
  }

  function LeafEntry(frame: Frame, pf: PageFlags): (r: Entry)
    ensures r.address == frame && r.IsPresent() && !r.IsHuge()
  {
    Entry(frame, Propagate(Entry(frame, {Present}), pf).flags
                 + (if pf.executable then {} else {NoExecute})
                 + (if pf.writeThrough then {WriteThrough} else {})
                 + (if pf.disableCaching then {NoCache} else {}))
  }

  // ── Mapping ───────────────────────────────────────────────────────────────

  datatype Descent =
    | Reached(st: State, table: Frame)
    | Blocked(st: State)
    | NoFrames(st: State)

  /** Walks down from `f` to the level-1 table of `v`, adding the tables that are missing. */
  function Descend(frames: seq<Frame>, st: State, f: Frame, level: nat, v: nat, pf: PageFlags): Descent
    decreases level
  {
    if level <= 1 || f !in st.tables then Reached(st, f)
    else
      var i := Digit(v, level);
      var e := st.tables[f][i];
      if e.IsPresent() then
        if EndsWalk(e, level) then Blocked(st)
        else Descend(frames, st.(tables := SetSlot(st.tables, f, i, Propagate(e, pf))), e.address, level - 1, v, pf)
      else if st.n < |frames| then
        Descend(frames, Linked(frames, st, f, i, pf), frames[st.n], level - 1, v, pf)
      else
        NoFrames(st.(n := st.n + 1))
  }

  /** A fresh table hung into slot `i` of `f`. */
  function Linked(frames: seq<Frame>, st: State, f: Frame, i: nat, pf: PageFlags): State
    requires st.n < |frames| && f in st.tables && i < 512
  {
    var fresh_ := frames[st.n];
    State(SetSlot(st.tables[fresh_ := Zeroed()], f, i, Propagate(Entry(fresh_, {Present}), pf)), st.n + 1)
  }

  /** Nothing to pass on: the walk down adds tables and leaves all else alone. */
  const NO_FLAGS := PageFlags(false, false, false, false, false)

  lemma {:induction false} PropagateNothing(e: Entry)
    ensures Propagate(e, NO_FLAGS) == e
  {
    assert Propagate(e, NO_FLAGS).flags == e.flags;
  }

  /** The places of the tables after the walk down. */
  ghost function DescendOwners(frames: seq<Frame>, st: State, own: Owners, f: Frame, level: nat, v: nat,
                               pf: PageFlags): Owners
    decreases level
  {
    if level <= 1 || f !in st.tables || f !in own || own[f].level == 0 then own
    else
      var i := Digit(v, level);
      var e := st.tables[f][i];
      if e.IsPresent() then
        if EndsWalk(e, level) then own
        else DescendOwners(frames, st.(tables := SetSlot(st.tables, f, i, Propagate(e, pf))), own, e.address,
                           level - 1, v, pf)
      else if st.n < |frames| then
        DescendOwners(frames, Linked(frames, st, f, i, pf), own[frames[st.n] := ChildPlace(f, own[f], i)],
                      frames[st.n], level - 1, v, pf)
      else own
  }

  lemma {:induction false} SlotTwice(mem: Tables, f: Frame, i: nat, d: Entry, e: Entry)
    requires f in mem && i < 512
    ensures SetSlot(SetSlot(mem, f, i, d), f, i, e) == SetSlot(mem, f, i, e)
  {
    assert mem[f][i := d][i := e] == mem[f][i := e];
  }

  lemma {:induction false} LinkedLemma(frames: seq<Frame>, st: State, own: Owners, f: Frame, i: nat, pf: PageFlags)
    requires Inv(frames, st, own) && f in own && f in st.tables && own[f].level >= 2 && i < 512
    requires !st.tables[f][i].IsPresent() && st.n < |frames|
    ensures var own' := own[frames[st.n] := ChildPlace(f, own[f], i)];
            var st' := Linked(frames, st, f, i, pf);
            && Inv(frames, st', own') && Extends(own', own) && SameView(st.tables, st'.tables, own)
            && (forall g :: g in own && g != f ==> g in st.tables && g in st'.tables && st'.tables[g] == st.tables[g])
  {
    var fresh_ := frames[st.n];
    var own' := own[fresh_ := ChildPlace(f, own[f], i)];
    var e := Entry(fresh_, {Present});
    var m1 := SetSlot(st.tables[fresh_ := Zeroed()], f, i, e);
    LinkTable(st.tables, own, f, i, fresh_);
    SlotTwice(st.tables[fresh_ := Zeroed()], f, i, e, Propagate(e, pf));
    Reflag(m1, own', f, i, Propagate(e, pf));
    SameViewTrans(st.tables, m1, SetSlot(m1, f, i, Propagate(e, pf)), own, own');
    forall g | g in own ensures g in st.tables { assert TableOwned(st.tables, own, g); }
  }

  /** Of the tables at `level` and above only `f` is written, there only slot `i`,
      and a present entry keeps its target. */
  ghost predicate WritesOnly(m: Tables, m': Tables, own: Owners, level: nat, f: Frame, i: nat) {
    && (forall g :: g in own && own[g].level >= level ==> g in m && g in m' && (g != f ==> m'[g] == m[g]))
    && (f in m && f in m' ==> forall j :: 0 <= j < 512 ==>
          (j != i ==> m'[f][j] == m[f][j]) && (j == i && m[f][j].IsPresent() ==> SameTarget(m[f][j], m'[f][j])))
  }

  /** The walk down changes no translation of any address space, and ends at the table it reports. */
  lemma {:induction false} DescendLemma(frames: seq<Frame>, st: State, own: Owners, f: Frame, level: nat, v: nat,
                                        pf: PageFlags)
    returns (own': Owners)
    requires Inv(frames, st, own) && OnWalk(own, f, level, v) && 0 < level
    ensures own' == DescendOwners(frames, st, own, f, level, v, pf)
    ensures var d := Descend(frames, st, f, level, v, pf);
            && Inv(frames, d.st, own') && Extends(own', own)
            && SameView(st.tables, d.st.tables, own)
            && WritesOnly(st.tables, d.st.tables, own, level, f, Digit(v, level))
            && (d.Reached? ==>
                Reach(d.st.tables, f, level, v, 1) == Some(d.table) && OnWalk(own', d.table, 1, v)
                  && d.table in d.st.tables)
            && (d.Blocked? ==>
                Resolve(st.tables, f, level, v).Some? && Resolve(st.tables, f, level, v).value.level >= 2)
    decreases level
  {
    StepDown(st.tables, own, f, level, v);
    forall g | g in own ensures g in st.tables { assert TableOwned(st.tables, own, g); }
    var i := Digit(v, level);
    var e := st.tables[f][i];
    own' := own;
    if level > 1 {
      if e.IsPresent() {
        if !EndsWalk(e, level) {
          var st1 := State(SetSlot(st.tables, f, i, Propagate(e, pf)), st.n);
          Reflag(st.tables, own, f, i, Propagate(e, pf));
          own' := DescendLemma(frames, st1, own, e.address, level - 1, v, pf);
          SameViewTrans(st.tables, st1.tables, Descend(frames, st1, e.address, level - 1, v, pf).st.tables, own, own);
        }
      } else if st.n < |frames| {
        var st1 := Linked(frames, st, f, i, pf);
        LinkedLemma(frames, st, own, f, i, pf);
        var own1 := own[frames[st.n] := ChildPlace(f, own[f], i)];
        own' := DescendLemma(frames, st1, own1, frames[st.n], level - 1, v, pf);
        SameViewTrans(st.tables, st1.tables, Descend(frames, st1, frames[st.n], level - 1, v, pf).st.tables, own, own1);
      }
    }
  }

  // ── Map and unmap ─────────────────────────────────────────────────────────

  /** What the program answers; `Panicked` stands for a failed assertion or running out of frames. */
  datatype Outcome = Ok | AlreadyMapped | NonExistentMapping | HugePageMapped | Panicked

  datatype Step = Step(st: State, outcome: Outcome)

  function Map(frames: seq<Frame>, st: State, root: Frame, v: nat, frame: Frame, pf: PageFlags): Step {
    match Descend(frames, st, root, 4, v, pf)
    case Blocked(s) => Step(s, HugePageMapped)
    case NoFrames(s) => Step(s, Panicked)
    case Reached(s, f) =>
      if f !in s.tables then Step(s, Panicked)
      else if s.tables[f][Digit(v, 1)].IsPresent() then Step(s, AlreadyMapped)
      else Step(State(SetSlot(s.tables, f, Digit(v, 1), LeafEntry(frame, pf)), s.n), Ok)
  }

  /** All digits of `v` up to level `k` are zero: a page of level `k + 1` begins here. */
  predicate Aligned(v: nat, k: nat) {
    k == 0 || (Digit(v, k) == 0 && Aligned(v, k - 1))
  }

  function Unmap(st: State, f: Frame, level: nat, v: nat): Step
    decreases level
  {
    if level == 0 || f !in st.tables then Step(st, Panicked)
    else
      var i := Digit(v, level);
      var e := st.tables[f][i];
      if !e.IsPresent() then Step(st, NonExistentMapping)
      else if EndsWalk(e, level) then
        if Aligned(v, level - 1) then Step(State(SetSlot(st.tables, f, i, EMPTY), st.n), Ok) else Step(st, Panicked)
      else Unmap(st, e.address, level - 1, v)
  }

  predicate IsRoot(own: Owners, r: Frame) {
    r in own && own[r].level == 4
  }

  /** The translation of page `v` under the root `r`. */
  function At(st: State, r: Frame, v: nat): Option<Leaf> {
    Resolve(st.tables, r, 4, v)
  }

  lemma {:induction false} RootOnWalk(m: Tables, own: Owners, r: Frame, v: nat)
    requires Owned(m, own) && IsRoot(own, r) && v < PAGES
    ensures OnWalk(own, r, 4, v) && r in m
  {
    assert TableOwned(m, own, r);
    assert High(v, 1) < 0x800_0000;
    assert High(v, 2) < 0x4_0000;
    assert High(v, 3) < 512;
    assert High(v, 4) == 0;
  }

  /** Writing an absent leaf slot of table `f` maps page `v` in the address spaces that reach `f`, and nothing else. */
  lemma {:induction false} LeafWrite(m: Tables, own: Owners, f: Frame, v: nat, e: Entry, r: Frame, w: nat)
    requires Owned(m, own) && OnWalk(own, f, 1, v) && IsRoot(own, r) && w < PAGES && f in m
    ensures var m' := SetSlot(m, f, Digit(v, 1), e);
            Resolve(m', r, 4, w) ==
              if w == v && Reach(m, r, 4, v, 1) == Some(f)
              then (if e.IsPresent() then Some(Leaf(e.address, 1)) else None)
              else Resolve(m, r, 4, w)
  {
    RootOnWalk(m, own, r, w);
    ReachOwned(m, own, r, 4, w, 1);
    if Through(m, own, r, 4, w, f, Digit(v, 1)) {
      assert High(w, 0) == High(v, 0);
      SlotHere(m, own, f, Digit(v, 1), e, r, 4, w);
    } else {
      SlotElsewhere(m, own, f, Digit(v, 1), e, r, 4, w);
    }
  }

  /** The address spaces `r` and `root` hold page `v` in the same table of level `l`. */
  predicate Shares(m: Tables, r: Frame, root: Frame, v: nat, l: nat) {
    Reach(m, r, 4, v, l).Some? && Reach(m, r, 4, v, l) == Reach(m, root, 4, v, l)
  }

  /** Different address spaces share no page of the lower half. */
  lemma {:induction false} LowerUnshared(m: Tables, own: Owners, r: Frame, root: Frame, v: nat, l: nat)
    requires Owned(m, own) && IsRoot(own, r) && IsRoot(own, root) && v < PAGES && 1 <= l < 4
    requires r != root && Digit(v, 4) < 256
    ensures !Shares(m, r, root, v, l)
  {
    RootOnWalk(m, own, r, v);
    RootOnWalk(m, own, root, v);
    if Shares(m, r, root, v, l) {
      ReachSpace(m, own, r, 4, v, l);
      ReachSpace(m, own, root, 4, v, l);
    }
  }

  /** A successful map sets the translation of its page, in the spaces that share it, and no other;
      a failed one changes no translation in any address space. */
  lemma {:induction false} MapLemma(frames: seq<Frame>, st: State, own: Owners, root: Frame, v: nat, frame: Frame,
                                    pf: PageFlags)
    returns (own': Owners)
    requires Inv(frames, st, own) && IsRoot(own, root) && v < PAGES
    ensures own' == DescendOwners(frames, st, own, root, 4, v, pf)
    ensures var s := Map(frames, st, root, v, frame, pf);
            && Inv(frames, s.st, own') && Extends(own', own)
            && WritesOnly(st.tables, s.st.tables, own, 4, root, Digit(v, 4))
            && (s.outcome == Ok ==>
                  && At(st, root, v) == None && At(s.st, root, v) == Some(Leaf(frame, 1))
                  && forall r: Frame, w: nat :: IsRoot(own, r) && w < PAGES ==>
                       if w == v && Shares(s.st.tables, r, root, v, 1)
                       then At(st, r, w) == None && At(s.st, r, w) == Some(Leaf(frame, 1))
                       else At(s.st, r, w) == At(st, r, w))
            && (s.outcome != Ok ==> SameView(st.tables, s.st.tables, own))
            && (s.outcome == AlreadyMapped ==> At(st, root, v).Some? && At(st, root, v).value.level == 1)
            && (s.outcome == HugePageMapped ==> At(st, root, v).Some? && At(st, root, v).value.level >= 2)
            && s.outcome != NonExistentMapping
  {
    RootOnWalk(st.tables, own, root, v);
    own' := DescendLemma(frames, st, own, root, 4, v, pf);
    var d := Descend(frames, st, root, 4, v, pf);
    if d.Reached? {
      var m, f := d.st.tables, d.table;
      RootOnWalk(m, own', root, v);
      Visited(m, own', root, 4, v, f, m[f]);
      assert At(st, root, v) == Resolve(m, root, own[root].level, v) == Resolve(m, f, 1, v);
      if !m[f][Digit(v, 1)].IsPresent() {
        var e := LeafEntry(frame, pf);
        EndSlot(m, own', f, Digit(v, 1), e);
        LeafReach(m, own', f, Digit(v, 1), e, root, 4, v, 1);
        LeafWrite(m, own', f, v, e, root, v);
        forall r: Frame, w: nat | IsRoot(own, r) && w < PAGES
          ensures if w == v && Shares(SetSlot(m, f, Digit(v, 1), e), r, root, v, 1)
                  then At(st, r, w) == None && Resolve(SetSlot(m, f, Digit(v, 1), e), r, 4, w) == Some(Leaf(frame, 1))
                  else Resolve(SetSlot(m, f, Digit(v, 1), e), r, 4, w) == At(st, r, w)
        {
          RootOnWalk(st.tables, own, r, w);
          assert Resolve(m, r, own[r].level, w) == Resolve(st.tables, r, own[r].level, w);
          LeafWrite(m, own', f, v, e, r, w);
          LeafReach(m, own', f, Digit(v, 1), e, r, 4, w, 1);
          if Reach(m, r, 4, w, 1) == Some(f) {
            Visited(m, own', r, 4, w, f, m[f]);
          }
        }
      }
    }
  }

  /** Writing or clearing a slot that ends walks leaves the way to every table as it was. */
  lemma {:induction false} LeafReach(m: Tables, own: Owners, f: Frame, i: nat, e: Entry, g: Frame, level: nat, w: nat,
                                     target: nat)
    requires Owned(m, own) && OnWalk(own, g, level, w) && f in own && f in m && i < 512 && 1 <= level && 1 <= target
    requires m[f][i].IsPresent() ==> EndsWalk(m[f][i], own[f].level)
    requires e.IsPresent() ==> EndsWalk(e, own[f].level)
    ensures Reach(SetSlot(m, f, i, e), g, level, w, target) == Reach(m, g, level, w, target)
    decreases level
  {
    StepDown(m, own, g, level, w);
    var d := m[g][Digit(w, level)];
    if level > 1 && d.IsPresent() && !EndsWalk(d, level) {
      LeafReach(m, own, f, i, e, d.address, level - 1, w, target);
    }
  }

  /** Unmapping clears the slot at which the walk ends, if it ends and begins a page there. */
  lemma {:induction false} UnmapFindsSlot(st: State, own: Owners, f: Frame, level: nat, v: nat)
    requires Owned(st.tables, own) && OnWalk(own, f, level, v) && 0 < level
    ensures match Resolve(st.tables, f, level, v)
            case None => Unmap(st, f, level, v) == Step(st, NonExistentMapping)
            case Some(Leaf(_, l)) =>
              && 1 <= l <= level && l < 4
              && var g := Reach(st.tables, f, level, v, l);
                 && g.Some? && g.value in st.tables && OnWalk(own, g.value, l, v)
                 && Unmap(st, f, level, v) ==
                      if Aligned(v, l - 1) then Step(State(SetSlot(st.tables, g.value, Digit(v, l), EMPTY), st.n), Ok)
                      else Step(st, Panicked)
    decreases level
  {
    StepDown(st.tables, own, f, level, v);
    var e := st.tables[f][Digit(v, level)];
    if e.IsPresent() && !EndsWalk(e, level) {
      UnmapFindsSlot(st, own, e.address, level - 1, v);
    }
  }

  /** The pages of the page of level `l` that `v` lies in. */
  predicate SamePage(v: nat, w: nat, l: nat)
    requires 0 < l
  {
    High(v, l - 1) == High(w, l - 1)
  }

  /** The page of level `l` at `v` is gone from the address spaces that share it, and nothing else is. */
  ghost predicate Cleared(st: State, st': State, own: Owners, root: Frame, v: nat, l: nat)
    requires 0 < l
  {
    && Shares(st.tables, root, root, v, l)
    && forall r: Frame, w: nat :: IsRoot(own, r) && w < PAGES ==>
         At(st', r, w) == if SamePage(v, w, l) && Shares(st.tables, r, root, v, l) then None else At(st, r, w)
  }

  /** Unmapping removes the translation of the page of `v`, whatever its size, and no other;
      it answers by what was mapped. */
  lemma {:induction false} UnmapLemma(frames: seq<Frame>, st: State, own: Owners, root: Frame, v: nat)
    requires Inv(frames, st, own) && IsRoot(own, root) && v < PAGES
    ensures var s := Unmap(st, root, 4, v);
            && Inv(frames, s.st, own)
            && WritesOnly(st.tables, s.st.tables, own, 4, root, Digit(v, 4))
            && (At(st, root, v).None? ==> s == Step(st, NonExistentMapping))
            && (At(st, root, v).Some? ==> 1 <= At(st, root, v).value.level < 4)
            && (At(st, root, v).Some? && !Aligned(v, At(st, root, v).value.level - 1) ==> s == Step(st, Panicked))
            && (At(st, root, v).Some? && Aligned(v, At(st, root, v).value.level - 1) ==>
                  s.outcome == Ok && Cleared(st, s.st, own, root, v, At(st, root, v).value.level))
  {
    RootOnWalk(st.tables, own, root, v);
    UnmapFindsSlot(st, own, root, 4, v);
    forall g | g in own ensures g in st.tables { assert TableOwned(st.tables, own, g); }
    match At(st, root, v)
    case None =>
    case Some(Leaf(_, l)) =>
      var g, i := Reach(st.tables, root, 4, v, l).value, Digit(v, l);
      EndSlot(st.tables, own, g, i, EMPTY);
      if Aligned(v, l - 1) {
        forall r: Frame, w: nat | IsRoot(own, r) && w < PAGES
          ensures Resolve(SetSlot(st.tables, g, i, EMPTY), r, 4, w) ==
                    if SamePage(v, w, l) && Shares(st.tables, r, root, v, l) then None else At(st, r, w)
        {
          ClearWalk(st.tables, own, root, v, l, r, w);
        }
      }
  }

  lemma {:induction false} ClearWalk(m: Tables, own: Owners, root: Frame, v: nat, l: nat, r: Frame, w: nat)
    requires Owned(m, own) && IsRoot(own, root) && IsRoot(own, r) && v < PAGES && w < PAGES && 1 <= l < 4
    requires Reach(m, root, 4, v, l).Some? && Reach(m, root, 4, v, l).value in m
    ensures var m' := SetSlot(m, Reach(m, root, 4, v, l).value, Digit(v, l), EMPTY);
            Resolve(m', r, 4, w) == if SamePage(v, w, l) && Shares(m, r, root, v, l) then None else Resolve(m, r, 4, w)
  {
    var f, i := Reach(m, root, 4, v, l).value, Digit(v, l);
    RootOnWalk(m, own, root, v);
    RootOnWalk(m, own, r, w);
    ReachOwned(m, own, root, 4, v, l);
    ReachOwned(m, own, r, 4, w, l);
    if SamePage(v, w, l) {
      ReachByDigits(m, r, 4, v, w, l);
    }
    if SamePage(v, w, l) && Shares(m, r, root, v, l) {
      SlotHere(m, own, f, i, EMPTY, r, 4, w);
    } else {
      SlotElsewhere(m, own, f, i, EMPTY, r, 4, w);
    }
  }

  // ── Address spaces that share the upper half ──────────────────────────────

  /** A new root: the lower half empty, the upper half copied from the root `k`. */
  function NewRoot(k: Table): Table {
    seq(512, i requires 0 <= i < 512 => if i < 256 then EMPTY else Entry(k[i].address, k[i].flags))
  }

  ghost function PresentUpper(k: Table): set<nat> {
    set i: nat | 256 <= i < 512 && k[i].IsPresent()
  }

  /** Two roots with the same upper half: slots in `shared` lead to the same table, the others are absent in both. */
  ghost predicate Twins(m: Tables, k: Frame, s: Frame, shared: set<nat>) {
    && k in m && s in m && k != s
    && forall i: nat :: 256 <= i < 512 ==>
         if i in shared then m[k][i].IsPresent() && m[s][i].IsPresent() && m[k][i].address == m[s][i].address
         else !m[k][i].IsPresent() && !m[s][i].IsPresent()
  }

  /** Twins agree on every page of the upper half. */
  lemma {:induction false} TwinsAgree(m: Tables, k: Frame, s: Frame, shared: set<nat>, v: nat)
    requires Twins(m, k, s, shared) && Digit(v, 4) >= 256
    ensures Resolve(m, k, 4, v) == Resolve(m, s, 4, v)
  {
    var i := Digit(v, 4);
    assert i in shared || i !in shared;
  }

  /** A new address space maps no lower-half page and is a twin of the root it was copied from. */
  lemma {:induction false} CreateLemma(frames: seq<Frame>, st: State, own: Owners, k: Frame, s: Frame)
    requires Inv(frames, st, own) && IsRoot(own, k) && k in st.tables
    requires s !in own && forall j :: st.n <= j < |frames| ==> frames[j] != s
    ensures var st' := State(st.tables[s := NewRoot(st.tables[k])], st.n);
            var own' := own[s := Place(Some(s), 4, 0)];
            && Inv(frames, st', own') && IsRoot(own', s) && SameView(st.tables, st'.tables, own)
            && Twins(st'.tables, k, s, PresentUpper(st.tables[k]))
            && (forall i :: 256 <= i < 512 ==> st'.tables[s][i] == st'.tables[k][i] == st.tables[k][i])
            && forall v: nat :: Digit(v, 4) < 256 ==> At(st', s, v) == None
  {
    var t := NewRoot(st.tables[k]);
    var m' := st.tables[s := t];
    var own' := own[s := Place(Some(s), 4, 0)];
    assert TableOwned(st.tables, own, k);
    forall g | g in own' ensures TableOwned(m', own', g) {
      if g == s {
        forall j | 0 <= j < 512 ensures SlotOwned(own', s, own'[s], j, t[j]) {
          assert SlotOwned(own, k, own[k], j, st.tables[k][j]);
        }
      } else {
        assert TableOwned(st.tables, own, g);
        forall j | 0 <= j < 512 ensures SlotOwned(own', g, own'[g], j, m'[g][j]) {
          assert SlotOwned(own, g, own[g], j, st.tables[g][j]);
        }
      }
    }
    forall g: Frame, v: nat | g in own && own[g].prefix == High(v, own[g].level)
      ensures Resolve(m', g, own[g].level, v) == Resolve(st.tables, g, own[g].level, v)
    {
      Unvisited(st.tables, own, g, own[g].level, v, s, t);
    }
  }

  datatype Op =
    | MapPage(root: Frame, v: nat, frame: Frame, pf: PageFlags)
    | UnmapPage(root: Frame, v: nat)

  function Apply(frames: seq<Frame>, st: State, op: Op): State {
    match op
    case MapPage(root, v, frame, pf) => Map(frames, st, root, v, frame, pf).st
    case UnmapPage(root, v) => Unmap(st, root, 4, v).st
  }

  function Run(frames: seq<Frame>, st: State, ops: seq<Op>): State
    decreases |ops|
  {
    if ops == [] then st else Run(frames, Apply(frames, st, ops[0]), ops[1..])
  }

  /** A page of the lower half, or of the upper half below a slot both roots have. */
  predicate Permitted(op: Op, k: Frame, s: Frame, shared: set<nat>) {
    op.root in {k, s} && op.v < PAGES && (Digit(op.v, 4) < 256 || Digit(op.v, 4) in shared)
  }

  lemma {:induction false} TwinsKept(m: Tables, m': Tables, own: Owners, k: Frame, s: Frame, shared: set<nat>,
                                     root: Frame, i: nat)
    requires Twins(m, k, s, shared) && IsRoot(own, k) && IsRoot(own, s) && root in {k, s}
    requires WritesOnly(m, m', own, 4, root, i) && (i < 256 || i in shared)
    ensures Twins(m', k, s, shared)
  {
    forall j: nat | 256 <= j < 512
      ensures if j in shared then m'[k][j].IsPresent() && m'[s][j].IsPresent() && m'[k][j].address == m'[s][j].address
              else !m'[k][j].IsPresent() && !m'[s][j].IsPresent()
    {
      assert m[k][j].IsPresent() == (j in shared) == m[s][j].IsPresent();
      if j == i {
        assert SameTarget(m[root][j], m'[root][j]);
      }
    }
  }

  lemma {:induction false} ApplyLemma(frames: seq<Frame>, st: State, own: Owners, op: Op, k: Frame, s: Frame,
                                      shared: set<nat>)
    returns (own': Owners)
    requires Inv(frames, st, own) && IsRoot(own, k) && IsRoot(own, s)
    requires Twins(st.tables, k, s, shared) && Permitted(op, k, s, shared)
    ensures var st' := Apply(frames, st, op);
            && Inv(frames, st', own') && IsRoot(own', k) && IsRoot(own', s) && Twins(st'.tables, k, s, shared)
            && (Digit(op.v, 4) < 256 ==>
                  forall r: Frame, w: nat :: IsRoot(own, r) && w < PAGES && r != op.root ==>
                    At(st', r, w) == At(st, r, w))
            && Extends(own', own)
  {
    match op
    case MapPage(root, v, frame, pf) =>
      own' := MapLemma(frames, st, own, root, v, frame, pf);
      TwinsKept(st.tables, Apply(frames, st, op).tables, own, k, s, shared, root, Digit(v, 4));
      forall r: Frame, w: nat | Digit(v, 4) < 256 && IsRoot(own, r) && w < PAGES && r != root
        ensures At(Apply(frames, st, op), r, w) == At(st, r, w)
      {
        RootOnWalk(st.tables, own, r, w);
        LowerUnshared(Apply(frames, st, op).tables, own', r, root, v, 1);
        assert Map(frames, st, root, v, frame, pf).outcome != Ok ==>
            Resolve(Apply(frames, st, op).tables, r, own[r].level, w) == Resolve(st.tables, r, own[r].level, w);
      }
    case UnmapPage(root, v) =>
      own' := own;
      UnmapLemma(frames, st, own, root, v);
      TwinsKept(st.tables, Apply(frames, st, op).tables, own, k, s, shared, root, Digit(v, 4));
      forall r: Frame, w: nat | Digit(v, 4) < 256 && IsRoot(own, r) && w < PAGES && r != root
        ensures At(Apply(frames, st, op), r, w) == At(st, r, w)
      {
        if At(st, root, v).Some? {
          LowerUnshared(st.tables, own, r, root, v, At(st, root, v).value.level);
        }
      }
  }

  /** Over every run of permitted maps and unmaps in either space, both agree on the whole upper half. */
  lemma {:induction false} RunKeepsAgreement(frames: seq<Frame>, st: State, own: Owners, ops: seq<Op>, k: Frame,
                                             s: Frame, shared: set<nat>)
    requires Inv(frames, st, own) && IsRoot(own, k) && IsRoot(own, s) && Twins(st.tables, k, s, shared)
    requires forall i :: 0 <= i < |ops| ==> Permitted(ops[i], k, s, shared)
    ensures forall v: nat :: Digit(v, 4) >= 256 ==> At(Run(frames, st, ops), k, v) == At(Run(frames, st, ops), s, v)
    decreases |ops|
  {
    if ops == [] {
      forall v: nat | Digit(v, 4) >= 256 ensures At(st, k, v) == At(st, s, v) {
        TwinsAgree(st.tables, k, s, shared, v);
      }
    } else {
      var own' := ApplyLemma(frames, st, own, ops[0], k, s, shared);
      RunKeepsAgreement(frames, Apply(frames, st, ops[0]), own', ops[1..], k, s, shared);
    }
  }

  /** Over every run of lower-half maps and unmaps in one space, no translation of the other changes. */
  lemma {:induction false} RunIsolatesLowerHalf(frames: seq<Frame>, st: State, own: Owners, ops: seq<Op>, k: Frame,
                                                s: Frame, shared: set<nat>, w: nat)
    requires Inv(frames, st, own) && IsRoot(own, k) && IsRoot(own, s) && Twins(st.tables, k, s, shared) && w < PAGES
    requires forall i :: 0 <= i < |ops| ==> ops[i].root == s && ops[i].v < PAGES && Digit(ops[i].v, 4) < 256
    ensures At(Run(frames, st, ops), k, w) == At(st, k, w)
    decreases |ops|
  {
    if ops != [] {
      var own' := ApplyLemma(frames, st, own, ops[0], k, s, shared);
      RunIsolatesLowerHalf(frames, Apply(frames, st, ops[0]), own', ops[1..], k, s, shared, w);
    }
  }
}
