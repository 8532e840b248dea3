/** Several address spaces that share the upper half: what they have in common, over every run of maps and unmaps. */
module PageSpaces {
  import opened Prelude
  import opened PageWalk
  import opened PageMap
  import opened PageScan
  import opened PageCount
  import opened PageFlat

  // ── What two spaces have in common ────────────────────────────────────────

  /** The slots in `shared` are in the upper half and lead to the same tables from both roots. */
  ghost predicate SharedSlots(m: Tables, r: Frame, s: Frame, shared: set<nat>) {
    r in m && s in m && forall i :: i in shared ==> SharedSlot(m, r, s, i)
  }

  predicate SharedSlot(m: Tables, r: Frame, s: Frame, i: nat)
    requires r in m && s in m
  {
    256 <= i < 512 && m[r][i].IsPresent() && m[s][i].IsPresent() && m[r][i].address == m[s][i].address
  }

  /** Page `v` lies below a slot of the upper half that is not shared. */
  predicate Private(v: nat, shared: set<nat>) {
    v < PAGES && 256 <= Digit(v, 4) && Digit(v, 4) !in shared
  }

  ghost predicate Bare(st: State, r: Frame, shared: set<nat>) {
    forall v: nat :: Private(v, shared) ==> At(st, r, v) == None
  }

  /** Below slots that are not shared the two have no table in common. */
  ghost predicate Apart(m: Tables, r: Frame, s: Frame, shared: set<nat>) {
    forall v: nat, l: nat :: Private(v, shared) && 1 <= l <= 3 ==> !Shares(m, r, s, v, l)
  }

  ghost predicate Related(st: State, r: Frame, s: Frame, shared: set<nat>) {
    && SharedSlots(st.tables, r, s, shared) && Apart(st.tables, r, s, shared)
    && Bare(st, r, shared) && Bare(st, s, shared)
  }

  ghost predicate Agree(st: State, r: Frame, s: Frame) {
    forall v: nat :: v < PAGES && 256 <= Digit(v, 4) ==> At(st, r, v) == At(st, s, v)
  }

  lemma {:induction false} SharedSame(m: Tables, r: Frame, s: Frame, shared: set<nat>, v: nat, l: nat)
    requires SharedSlots(m, r, s, shared) && Digit(v, 4) in shared && l <= 3
    ensures Resolve(m, r, 4, v) == Resolve(m, s, 4, v) && Reach(m, r, 4, v, l) == Reach(m, s, 4, v, l)
  {
    assert SharedSlot(m, r, s, Digit(v, 4));
  }

  lemma {:induction false} RelatedAgree(st: State, r: Frame, s: Frame, shared: set<nat>)
    requires Related(st, r, s, shared)
    ensures Agree(st, r, s)
  {
    forall v: nat | v < PAGES && 256 <= Digit(v, 4) ensures At(st, r, v) == At(st, s, v) {
      if Digit(v, 4) in shared {
        SharedSame(st.tables, r, s, shared, v, 3);
      } else {
        assert Private(v, shared);
      }
    }
  }

  /** A space just created is related to the one it was copied from. */
  lemma {:induction false} TwinsRelated(st: State, r: Frame, s: Frame, shared: set<nat>)
    requires Twins(st.tables, r, s, shared) && forall i :: i in shared ==> 256 <= i < 512
    ensures Related(st, r, s, shared)
  {
    forall v: nat | Private(v, shared)
      ensures At(st, r, v) == None && At(st, s, v) == None
      ensures forall l: nat :: l <= 3 ==> Reach(st.tables, r, 4, v, l).None?
    {
      var i := Digit(v, 4);
      assert i !in shared && 256 <= i < 512;
    }
  }

  // ── No table comes to be shared ───────────────────────────────────────────

  lemma {:induction false} UnvisitedReach(m: Tables, own: Owners, g: Frame, level: nat, w: nat, f: Frame, t: Table,
                                          target: nat)
    requires Owned(m, own) && OnWalk(own, g, level, w)
    requires f !in own || own[f].level > level || Reach(m, g, level, w, own[f].level) != Some(f)
    ensures Reach(m[f := t], g, level, w, target) == Reach(m, g, level, w, target)
    decreases level
  {
    StepDown(m, own, g, level, w);
    var e := m[g][Digit(w, level)];
    if e.IsPresent() && !EndsWalk(e, level) {
      UnvisitedReach(m, own, e.address, level - 1, w, f, t, target);
    }
  }

  /** After a table was hung into a slot, walks come where they came before, to the new table, or nowhere. */
  lemma {:induction false} LinkReach(m: Tables, own: Owners, f: Frame, i: nat, new_: Frame, e: Entry, g: Frame,
                                     level: nat, w: nat, l: nat)
    requires Owned(m, own) && OnWalk(own, g, level, w) && f in own && f in m && i < 512 && new_ !in own
    requires e.address == new_ && 2 <= own[f].level && 1 <= l
    ensures var r := Reach(SetSlot(m[new_ := Zeroed()], f, i, e), g, level, w, l);
            r == Reach(m, g, level, w, l) || r == Some(new_) || r == None
    decreases level
  {
    StepDown(m, own, g, level, w);
    var d := m[g][Digit(w, level)];
    if level > l && !(g == f && Digit(w, level) == i) && d.IsPresent() && !EndsWalk(d, level) {
      LinkReach(m, own, f, i, new_, e, d.address, level - 1, w, l);
    }
  }

  /** A table on the way of one space below a slot that is not shared is on no way of the other there. */
  lemma {:induction false} OtherWalk(m: Tables, own: Owners, k: Frame, s: Frame, shared: set<nat>, f: Frame, v: nat,
                                     w: nat)
    requires Owned(m, own) && IsRoot(own, k) && IsRoot(own, s) && k != s && Apart(m, k, s, shared) && v < PAGES
    requires f in own && 1 <= own[f].level <= 4 && Reach(m, k, 4, v, own[f].level) == Some(f) && Private(w, shared)
    ensures Reach(m, s, 4, w, own[f].level) != Some(f)
  {
    var l := own[f].level;
    RootOnWalk(m, own, k, v);
    RootOnWalk(m, own, s, w);
    ReachOwned(m, own, k, 4, v, l);
    ReachOwned(m, own, s, 4, w, l);
    if l <= 3 && High(v, l) == High(w, l) {
      ReachByDigits(m, k, 4, v, w, l);
      assert !Shares(m, k, s, w, l);
    }
  }

  lemma {:induction false} LinkApart(m: Tables, own: Owners, k: Frame, s: Frame, shared: set<nat>, f: Frame,
                                     new_: Frame, e: Entry, v: nat)
    requires Owned(m, own) && IsRoot(own, k) && IsRoot(own, s) && k != s && Apart(m, k, s, shared) && v < PAGES
    requires f in own && f in m && 2 <= own[f].level && new_ !in own && e.address == new_
    requires Reach(m, k, 4, v, own[f].level) == Some(f)
    ensures Apart(SetSlot(m[new_ := Zeroed()], f, Digit(v, own[f].level), e), k, s, shared)
  {
    var lf := own[f].level;
    var m1 := m[new_ := Zeroed()];
    var m' := SetSlot(m1, f, Digit(v, lf), e);
    forall g | g in own ensures TableOwned(m1, own, g) { assert TableOwned(m, own, g); }
    forall w: nat, l: nat | Private(w, shared) && 1 <= l <= 3 ensures !Shares(m', k, s, w, l) {
      RootOnWalk(m, own, k, w);
      RootOnWalk(m, own, s, w);
      OtherWalk(m, own, k, s, shared, f, v, w);
      UnvisitedReach(m, own, s, 4, w, new_, Zeroed(), lf);
      UnvisitedReach(m, own, s, 4, w, new_, Zeroed(), l);
      UnvisitedReach(m1, own, s, 4, w, f, m'[f], l);
      LinkReach(m, own, f, Digit(v, lf), new_, e, k, 4, w, l);
      ReachOwned(m, own, s, 4, w, l);
      assert !Shares(m, k, s, w, l);
    }
  }

  lemma {:induction false} ReflagApart(m: Tables, f: Frame, i: nat, e: Entry, k: Frame, s: Frame, shared: set<nat>)
    requires f in m && i < 512 && SameTarget(m[f][i], e) && Apart(m, k, s, shared)
    ensures Apart(SetSlot(m, f, i, e), k, s, shared)
  {
    forall w: nat, l: nat | Private(w, shared) && 1 <= l <= 3 ensures !Shares(SetSlot(m, f, i, e), k, s, w, l) {
      ReflagReach(m, f, i, e, k, 4, w, l);
      ReflagReach(m, f, i, e, s, 4, w, l);
      assert !Shares(m, k, s, w, l);
    }
  }

  lemma {:induction false} LeafApart(m: Tables, own: Owners, f: Frame, i: nat, e: Entry, k: Frame, s: Frame,
                                     shared: set<nat>)
    requires Owned(m, own) && IsRoot(own, k) && IsRoot(own, s) && Apart(m, k, s, shared) && f in own && f in m
             && i < 512
    requires m[f][i].IsPresent() ==> EndsWalk(m[f][i], own[f].level)
    requires e.IsPresent() ==> EndsWalk(e, own[f].level)
    ensures Apart(SetSlot(m, f, i, e), k, s, shared)
  {
    forall w: nat, l: nat | Private(w, shared) && 1 <= l <= 3 ensures !Shares(SetSlot(m, f, i, e), k, s, w, l) {
      RootOnWalk(m, own, k, w);
      RootOnWalk(m, own, s, w);
      LeafReach(m, own, f, i, e, k, 4, w, l);
      LeafReach(m, own, f, i, e, s, 4, w, l);
      assert !Shares(m, k, s, w, l);
    }
  }

  lemma {:induction false} DescendApart(frames: seq<Frame>, st: State, own: Owners, f: Frame, level: nat, v: nat,
                                        pf: PageFlags, k: Frame, s: Frame, shared: set<nat>)
    requires Inv(frames, st, own) && OnWalk(own, f, level, v) && 1 <= level && v < PAGES
    requires IsRoot(own, k) && IsRoot(own, s) && k != s && Apart(st.tables, k, s, shared)
    requires Reach(st.tables, k, 4, v, level) == Some(f)
    ensures Apart(Descend(frames, st, f, level, v, pf).st.tables, k, s, shared)
    decreases level
  {
    StepDown(st.tables, own, f, level, v);
    var i := Digit(v, level);
    var e := st.tables[f][i];
    if level > 1 {
      if e.IsPresent() {
        if !EndsWalk(e, level) {
          var e' := Propagate(e, pf);
          var st1 := State(SetSlot(st.tables, f, i, e'), st.n);
          Reflag(st.tables, own, f, i, e');
          ReflagApart(st.tables, f, i, e', k, s, shared);
          StepDown(st.tables, own, e.address, level - 1, v);
          ReachStep(st.tables, k, 4, v, level);
          ReflagReach(st.tables, f, i, e', k, 4, v, level - 1);
          DescendApart(frames, st1, own, e.address, level - 1, v, pf, k, s, shared);
        }
      } else if st.n < |frames| {
        LinkedApart(frames, st, own, f, level, v, pf, k, s, shared);
        var own1 := own[frames[st.n] := ChildPlace(f, own[f], i)];
        DescendApart(frames, Linked(frames, st, f, i, pf), own1, frames[st.n], level - 1, v, pf, k, s, shared);
      }
    }
  }

  lemma {:induction false} LinkedApart(frames: seq<Frame>, st: State, own: Owners, f: Frame, level: nat, v: nat,
                                       pf: PageFlags, k: Frame, s: Frame, shared: set<nat>)
    requires Inv(frames, st, own) && OnWalk(own, f, level, v) && 2 <= level && v < PAGES && f in st.tables
             && st.n < |frames|
    requires IsRoot(own, k) && IsRoot(own, s) && k != s && Apart(st.tables, k, s, shared)
    requires Reach(st.tables, k, 4, v, level) == Some(f) && !st.tables[f][Digit(v, level)].IsPresent()
    ensures var st1, own1 := Linked(frames, st, f, Digit(v, level), pf),
              own[frames[st.n] := ChildPlace(f, own[f], Digit(v, level))];
            && Inv(frames, st1, own1) && IsRoot(own1, k) && IsRoot(own1, s) && OnWalk(own1, frames[st.n], level - 1, v)
            && Apart(st1.tables, k, s, shared) && Reach(st1.tables, k, 4, v, level - 1) == Some(frames[st.n])
  {
    var i, new_ := Digit(v, level), frames[st.n];
    var e := Propagate(Entry(new_, {Present}), pf);
    LinkedLemma(frames, st, own, f, i, pf);
    LinkApart(st.tables, own, k, s, shared, f, new_, e, v);
    LinkedReach(st.tables, own, f, new_, e, k, 4, v, level);
  }

  lemma {:induction false} LinkedReach(m: Tables, own: Owners, f: Frame, new_: Frame, e: Entry, g: Frame, top: nat,
                                       v: nat, level: nat)
    requires Owned(m, own) && OnWalk(own, g, top, v) && 2 <= level <= top && f in m && new_ !in own && f in own
    requires Reach(m, g, top, v, level) == Some(f) && e.address == new_ && e.IsPresent() && !EndsWalk(e, level)
    ensures Reach(SetSlot(m[new_ := Zeroed()], f, Digit(v, level), e), g, top, v, level - 1) == Some(new_)
    decreases top
  {
    StepDown(m, own, g, top, v);
    if level < top {
      LinkedReach(m, own, f, new_, e, m[g][Digit(v, top)].address, top - 1, v, level);
    }
  }

  lemma {:induction false} ApartSymmetric(m: Tables, k: Frame, s: Frame, shared: set<nat>)
    requires Apart(m, k, s, shared)
    ensures Apart(m, s, k, shared)
  {
    forall v: nat, l: nat | Private(v, shared) && 1 <= l <= 3 ensures !Shares(m, s, k, v, l) {
      assert !Shares(m, k, s, v, l);
    }
  }

  /** Whatever is mapped or unmapped from `k`, no table comes to be shared. */
  lemma {:induction false} ApplyApart(frames: seq<Frame>, st: State, own: Owners, op: Op, k: Frame, s: Frame,
                                      shared: set<nat>)
    requires Inv(frames, st, own) && IsRoot(own, k) && IsRoot(own, s) && k != s && Apart(st.tables, k, s, shared)
    requires op.root == k && op.v < PAGES
    ensures Apart(Apply(frames, st, op).tables, k, s, shared)
  {
    RootOnWalk(st.tables, own, k, op.v);
    match op
    case MapPage(_, v, frame, pf) =>
      DescendApart(frames, st, own, k, 4, v, pf, k, s, shared);
      var own' := DescendLemma(frames, st, own, k, 4, v, pf);
      var d := Descend(frames, st, k, 4, v, pf);
      if Map(frames, st, k, v, frame, pf).outcome == Ok {
        LeafApart(d.st.tables, own', d.table, Digit(v, 1), LeafEntry(frame, pf), k, s, shared);
      }
    case UnmapPage(_, v) =>
      UnmapFindsSlot(st, own, k, 4, v);
      if Unmap(st, k, 4, v).outcome == Ok {
        var l := At(st, k, v).value.level;
        var g := Reach(st.tables, k, 4, v, l).value;
        ResolveFrom(st.tables, k, 4, v, l);
        LeafApart(st.tables, own, g, Digit(v, l), EMPTY, k, s, shared);
      }
  }

  // ── When two spaces agree ─────────────────────────────────────────────────

  /** The operation maps a page below a slot that is not shared. */
  predicate Splits(frames: seq<Frame>, st: State, op: Op, shared: set<nat>) {
    op.MapPage? && Private(op.v, shared) && OutcomeOf(frames, st, op) == Ok
  }

  lemma {:induction false} SharedKept(m: Tables, m': Tables, own: Owners, k: Frame, s: Frame, shared: set<nat>,
                                      root: Frame, i: nat)
    requires SharedSlots(m, k, s, shared) && IsRoot(own, k) && IsRoot(own, s) && IsRoot(own, root)
             && WritesOnly(m, m', own, 4, root, i)
    ensures SharedSlots(m', k, s, shared)
  {
    forall j | j in shared ensures SharedSlot(m', k, s, j) {
      assert SharedSlot(m, k, s, j);
      assert root == k && j == i ==> SameTarget(m[root][j], m'[root][j]);
      assert root == s && j == i ==> SameTarget(m[root][j], m'[root][j]);
    }
  }

  /** One step: the two stay related, unless it maps a page below a slot that is not shared. Then they differ. */
  lemma {:induction false} StepFrom(frames: seq<Frame>, st: State, own: Owners, op: Op, k: Frame, s: Frame,
                                    shared: set<nat>)
    returns (own': Owners)
    requires Inv(frames, st, own) && IsRoot(own, k) && IsRoot(own, s) && k != s && Related(st, k, s, shared)
    requires op.root == k && op.v < PAGES
    ensures Inv(frames, Apply(frames, st, op), own') && Extends(own', own)
    ensures if Splits(frames, st, op, shared)
            then At(Apply(frames, st, op), k, op.v) != At(Apply(frames, st, op), s, op.v)
            else Related(Apply(frames, st, op), k, s, shared)
  {
    var st' := Apply(frames, st, op);
    ApplyApart(frames, st, own, op, k, s, shared);
    if op.MapPage? {
      own' := MapLemma(frames, st, own, k, op.v, op.frame, op.pf);
    } else {
      own' := own;
      UnmapLemma(frames, st, own, k, op.v);
    }
    SharedKept(st.tables, st'.tables, own, k, s, shared, k, Digit(op.v, 4));
    if Splits(frames, st, op, shared) {
      assert !Shares(st'.tables, k, s, op.v, 1);
    } else {
      forall v: nat | Private(v, shared) ensures At(st', k, v) == None && At(st', s, v) == None {
        StepBare(frames, st, own, op, k, k, shared, v);
        StepBare(frames, st, own, op, k, s, shared, v);
      }
    }
  }

  lemma {:induction false} StepBare(frames: seq<Frame>, st: State, own: Owners, op: Op, k: Frame, r: Frame,
                                    shared: set<nat>, v: nat)
    requires Inv(frames, st, own) && IsRoot(own, k) && IsRoot(own, r) && op.root == k && op.v < PAGES
    requires !Splits(frames, st, op, shared) && Private(v, shared) && At(st, r, v) == None
    ensures At(Apply(frames, st, op), r, v) == None
  {
    RootOnWalk(st.tables, own, r, v);
    match op
    case MapPage(_, w, frame, pf) =>
      var own' := MapLemma(frames, st, own, k, w, frame, pf);
      if Map(frames, st, k, w, frame, pf).outcome != Ok {
        assert Resolve(Apply(frames, st, op).tables, r, own[r].level, v) == Resolve(st.tables, r, own[r].level, v);
      }
    case UnmapPage(_, w) =>
      UnmapLemma(frames, st, own, k, w);
  }

  lemma {:induction false} StepRelated(frames: seq<Frame>, st: State, own: Owners, op: Op, k: Frame, s: Frame,
                                       shared: set<nat>)
    returns (own': Owners)
    requires Inv(frames, st, own) && IsRoot(own, k) && IsRoot(own, s) && k != s && Related(st, k, s, shared)
    requires op.root in {k, s} && op.v < PAGES
    ensures Inv(frames, Apply(frames, st, op), own') && Extends(own', own)
    ensures Splits(frames, st, op, shared) ==> !Agree(Apply(frames, st, op), k, s)
    ensures !Splits(frames, st, op, shared) ==> Related(Apply(frames, st, op), k, s, shared)
  {
    var st' := Apply(frames, st, op);
    if op.root == k {
      own' := StepFrom(frames, st, own, op, k, s, shared);
    } else {
      ApartSymmetric(st.tables, k, s, shared);
      assert forall i :: i in shared && SharedSlot(st.tables, k, s, i) ==> SharedSlot(st.tables, s, k, i);
      own' := StepFrom(frames, st, own, op, s, k, shared);
      if !Splits(frames, st, op, shared) {
        ApartSymmetric(st'.tables, s, k, shared);
        assert forall i :: i in shared && SharedSlot(st'.tables, s, k, i) ==> SharedSlot(st'.tables, k, s, i);
      }
    }
  }

  ghost predicate AgreeThroughout(frames: seq<Frame>, st: State, ops: seq<Op>, k: Frame, s: Frame)
    decreases |ops|
  {
    Agree(st, k, s) && (ops != [] ==> AgreeThroughout(frames, Apply(frames, st, ops[0]), ops[1..], k, s))
  }

  predicate NeverSplits(frames: seq<Frame>, st: State, ops: seq<Op>, shared: set<nat>)
    decreases |ops|
  {
    ops != [] ==>
      && !Splits(frames, st, ops[0], shared)
      && NeverSplits(frames, Apply(frames, st, ops[0]), ops[1..], shared)
  }

  /** Over every run in two spaces, they agree on the upper half throughout exactly if no page is ever mapped below a
      slot that was absent when they began to share it. */
  lemma {:induction false} AgreeExactly(frames: seq<Frame>, st: State, own: Owners, ops: seq<Op>, k: Frame, s: Frame,
                                        shared: set<nat>)
    requires Inv(frames, st, own) && IsRoot(own, k) && IsRoot(own, s) && k != s && Related(st, k, s, shared)
    requires forall i :: 0 <= i < |ops| ==> ops[i].root in {k, s} && ops[i].v < PAGES
    ensures AgreeThroughout(frames, st, ops, k, s) <==> NeverSplits(frames, st, ops, shared)
    decreases |ops|
  {
    RelatedAgree(st, k, s, shared);
    if ops != [] {
      var own' := StepRelated(frames, st, own, ops[0], k, s, shared);
      if !Splits(frames, st, ops[0], shared) {
        AgreeExactly(frames, Apply(frames, st, ops[0]), own', ops[1..], k, s, shared);
      }
    }
  }

  /** Right after a space was created, mapping the first page below an absent slot of the upper half in one of the two,
      with three frames left, makes them differ. */
  lemma {:induction false} AbsentSlotSplits(frames: seq<Frame>, st: State, own: Owners, k: Frame, s: Frame,
                                            shared: set<nat>, i: nat, frame: Frame, pf: PageFlags)
    requires Inv(frames, st, own) && IsRoot(own, k) && IsRoot(own, s) && Twins(st.tables, k, s, shared)
    requires (forall j :: j in shared ==> 256 <= j < 512) && 256 <= i < 512 && i !in shared && st.n + 3 <= |frames|
    ensures var v := Low(i, 3);
            var st' := Apply(frames, st, MapPage(k, v, frame, pf));
            v < PAGES && At(st', k, v) == Some(Leaf(frame, 1)) && At(st', s, v) == None
  {
    var v := Low(i, 3);
    var op := MapPage(k, v, frame, pf);
    LowMonotone(i, 512, 3);
    LowMonotone(i, i + 1, 3);
    Below(i, v, 3);
    LastPage();
    TwinsRelated(st, k, s, shared);
    assert Digit(v, 4) == i by { assert High(v, 4) == High(v, 3) / 512; }
    assert Private(v, shared);
    MissingBound(st.tables, k, v, 4);
    MapTakes(frames, st, own, k, v, frame, pf);
    var own' := StepFrom(frames, st, own, op, k, s, shared);
    var own'' := MapLemma(frames, st, own, k, v, frame, pf);
    ApplyApart(frames, st, own, op, k, s, shared);
    assert !Shares(Apply(frames, st, op).tables, k, s, v, 1);
  }

  lemma {:induction false} LastPage()
    ensures Low(512, 3) == PAGES
  {
    assert Low(512, 3) == Low(512 * 512, 2) == Low(512 * 512 * 512, 1) == Low(512 * 512 * 512 * 512, 0);
  }

  lemma {:induction false} MissingBound(m: Tables, root: Frame, v: nat, level: nat)
    requires 1 <= level
    ensures Missing(m, root, v, level) <= level - 1
    decreases level
  {
    if level > 1 {
      MissingBound(m, root, v, level - 1);
    }
  }

  // ── Several spaces as flat maps ───────────────────────────────────────────

  /** A flat map for the lower half of every space, and one for the shared part of the upper half. */
  datatype Spaces = Spaces(low: map<Frame, Flat>, up: Flat)

  predicate Lower(v: nat) {
    Digit(v, 4) < 256
  }

  function LowPart(m: Flat): Flat {
    map v | v in m && Lower(v) :: m[v]
  }

  function UpPart(m: Flat, shared: set<nat>): Flat {
    map v | v in m && Digit(v, 4) in shared :: m[v]
  }

  /** All of the spaces share the slots in `shared`. */
  ghost predicate Family(m: Tables, own: Owners, roots: set<Frame>, shared: set<nat>) {
    && (forall r :: r in roots ==> IsRoot(own, r))
    && forall r, s :: r in roots && s in roots ==> SharedSlots(m, r, s, shared)
  }

  /** The tables stand for these maps. */
  ghost predicate ShowsAll(st: State, roots: set<Frame>, shared: set<nat>, a: Spaces) {
    && (forall r :: r in roots <==> r in a.low)
    && forall r :: r in roots ==> ShowsOne(st, r, shared, a)
  }

  ghost predicate ShowsOne(st: State, r: Frame, shared: set<nat>, a: Spaces)
    requires r in a.low
  {
    LowPart(FlatOf(st, r)) == a.low[r] && UpPart(FlatOf(st, r), shared) == a.up
  }

  /** Where an operation finds its page. */
  function PartOf(a: Spaces, op: Op): Flat
    requires op.root in a.low
  {
    if Lower(op.v) then a.low[op.root] else a.up
  }

  function SpacesStep(a: Spaces, op: Op, outcome: Outcome): Spaces
    requires op.root in a.low
  {
    if Lower(op.v) then a.(low := a.low[op.root := FlatStep(a.low[op.root], op, outcome)])
    else a.(up := FlatStep(a.up, op, outcome))
  }

  /** An operation in one of the spaces, on a page of the lower half or below a shared slot. */
  predicate InFamily(op: Op, roots: set<Frame>, shared: set<nat>) {
    op.root in roots && op.v < PAGES && (Lower(op.v) || Digit(op.v, 4) in shared)
  }

  lemma {:induction false} PageInSlot(v: nat, w: nat, l: nat)
    requires 1 <= l <= 3 && SamePage(v, w, l)
    ensures Digit(v, 4) == Digit(w, 4)
  {
    SameDigits(v, w, l - 1, 4);
  }

  /** A step on the whole flat map of a space, seen in its two parts. */
  lemma {:induction false} StepParts(m: Flat, op: Op, outcome: Outcome, shared: set<nat>)
    requires Lower(op.v) || Digit(op.v, 4) in shared
    requires (forall i :: i in shared ==> 256 <= i) && forall v :: v in m ==> 1 <= m[v].level <= 3
    ensures LowPart(FlatStep(m, op, outcome)) == if Lower(op.v) then FlatStep(LowPart(m), op, outcome) else LowPart(m)
    ensures UpPart(FlatStep(m, op, outcome), shared) == if Lower(op.v) then UpPart(m, shared)
                                                        else FlatStep(UpPart(m, shared), op, outcome)
  {
    LowStep(m, op, outcome);
    UpStep(m, op, outcome, shared);
  }

  lemma {:induction false} LowStep(m: Flat, op: Op, outcome: Outcome)
    requires forall v :: v in m ==> 1 <= m[v].level <= 3
    ensures LowPart(FlatStep(m, op, outcome)) == if Lower(op.v) then FlatStep(LowPart(m), op, outcome) else LowPart(m)
  {
    if op.UnmapPage? && op.v in m {
      forall w | w in m && SamePage(op.v, w, m[op.v].level) ensures Lower(w) == Lower(op.v) {
        PageInSlot(op.v, w, m[op.v].level);
      }
    }
  }

  lemma {:induction false} UpStep(m: Flat, op: Op, outcome: Outcome, shared: set<nat>)
    requires Lower(op.v) || Digit(op.v, 4) in shared
    requires (forall i :: i in shared ==> 256 <= i) && forall v :: v in m ==> 1 <= m[v].level <= 3
    ensures UpPart(FlatStep(m, op, outcome), shared) == if Lower(op.v) then UpPart(m, shared)
                                                        else FlatStep(UpPart(m, shared), op, outcome)
  {
    if op.UnmapPage? && op.v in m {
      forall w | w in m && SamePage(op.v, w, m[op.v].level) ensures Digit(w, 4) == Digit(op.v, 4) {
        PageInSlot(op.v, w, m[op.v].level);
      }
    }
  }

  lemma {:induction false} FlatLevels(st: State, own: Owners, r: Frame)
    requires Owned(st.tables, own) && IsRoot(own, r)
    ensures forall v :: v in FlatOf(st, r) ==> 1 <= FlatOf(st, r)[v].level <= 3
  {
    forall v | v in FlatOf(st, r) ensures 1 <= FlatOf(st, r)[v].level <= 3 {
      RootOnWalk(st.tables, own, r, v);
      UnmapFindsSlot(st, own, r, 4, v);
    }
  }

  /** What the other spaces see of an operation: nothing in the lower half, and what `root` sees below shared slots. */
  lemma {:induction false} OtherLow(frames: seq<Frame>, st: State, own: Owners, op: Op, r: Frame)
    requires Inv(frames, st, own) && IsRoot(own, op.root) && IsRoot(own, r) && r != op.root && op.v < PAGES
    ensures LowPart(FlatOf(Apply(frames, st, op), r)) == LowPart(FlatOf(st, r))
  {
    var st' := Apply(frames, st, op);
    forall w: nat | w < PAGES && Lower(w) ensures At(st', r, w) == At(st, r, w) {
      OtherLowPage(frames, st, own, op, r, w);
    }
    var a, b := LowPart(FlatOf(st', r)), LowPart(FlatOf(st, r));
    assert forall w :: w in a <==> w in b;
  }

  lemma {:induction false} OtherLowPage(frames: seq<Frame>, st: State, own: Owners, op: Op, r: Frame, w: nat)
    requires Inv(frames, st, own) && IsRoot(own, op.root) && IsRoot(own, r) && r != op.root && op.v < PAGES
    requires w < PAGES && Lower(w)
    ensures At(Apply(frames, st, op), r, w) == At(st, r, w)
  {
    var root, st' := op.root, Apply(frames, st, op);
    RootOnWalk(st.tables, own, r, w);
    match op
    case MapPage(_, v, frame, pf) =>
      var own' := MapLemma(frames, st, own, root, v, frame, pf);
      if Map(frames, st, root, v, frame, pf).outcome != Ok {
        assert Resolve(st'.tables, r, own[r].level, w) == Resolve(st.tables, r, own[r].level, w);
      } else if w == v {
        LowerUnshared(st'.tables, own', r, root, v, 1);
      }
    case UnmapPage(_, v) =>
      UnmapLemma(frames, st, own, root, v);
      if At(st, root, v).Some? {
        var l := At(st, root, v).value.level;
        if SamePage(v, w, l) {
          PageInSlot(v, w, l);
          LowerUnshared(st.tables, own, r, root, v, l);
        }
      }
  }

  lemma {:induction false} SharedUp(st: State, r: Frame, s: Frame, shared: set<nat>)
    requires SharedSlots(st.tables, r, s, shared)
    ensures UpPart(FlatOf(st, r), shared) == UpPart(FlatOf(st, s), shared)
  {
    var a, b := UpPart(FlatOf(st, r), shared), UpPart(FlatOf(st, s), shared);
    forall v: nat | v < PAGES && Digit(v, 4) in shared ensures At(st, r, v) == At(st, s, v) {
      SharedSame(st.tables, r, s, shared, v, 3);
    }
    assert forall v :: v in a <==> v in b;
  }

  lemma {:induction false} FamilyKept(frames: seq<Frame>, st: State, own: Owners, own': Owners, op: Op,
                                      roots: set<Frame>, shared: set<nat>)
    requires Inv(frames, st, own) && Family(st.tables, own, roots, shared) && InFamily(op, roots, shared)
             && Extends(own', own)
    ensures Family(Apply(frames, st, op).tables, own', roots, shared)
  {
    var st' := Apply(frames, st, op);
    if op.MapPage? {
      var own'' := MapLemma(frames, st, own, op.root, op.v, op.frame, op.pf);
    } else {
      UnmapLemma(frames, st, own, op.root, op.v);
    }
    forall r, s | r in roots && s in roots ensures SharedSlots(st'.tables, r, s, shared) {
      SharedKept(st.tables, st'.tables, own, r, s, shared, op.root, Digit(op.v, 4));
    }
  }

  /** The space of the operation: its own flat map makes the step, and answers. */
  lemma {:induction false} OwnStep(frames: seq<Frame>, st: State, own: Owners, op: Op) returns (own': Owners)
    requires Inv(frames, st, own) && IsRoot(own, op.root) && op.v < PAGES
    ensures Inv(frames, Apply(frames, st, op), own') && Extends(own', own)
    ensures FlatOf(Apply(frames, st, op), op.root) == FlatStep(FlatOf(st, op.root), op, OutcomeOf(frames, st, op))
    ensures Answers(frames, st, FlatOf(st, op.root), op, OutcomeOf(frames, st, op))
  {
    var root, m := op.root, FlatOf(st, op.root);
    FlatUnique(st, root, m);
    if op.MapPage? {
      MapAnswers(frames, st, own, root, m, op);
      var own1 := MapShows(frames, st, own, root, m, op);
      own' := MapLemma(frames, st, own, root, op.v, op.frame, op.pf);
    } else {
      UnmapShows(frames, st, own, root, m, op);
      own' := own;
    }
    FlatUnique(Apply(frames, st, op), root, FlatStep(m, op, OutcomeOf(frames, st, op)));
  }

  /** The answer depends on what the map has at the page only. */
  lemma {:induction false} AnswersByPage(frames: seq<Frame>, st: State, m: Flat, m': Flat, op: Op, outcome: Outcome)
    requires Answers(frames, st, m, op, outcome) && (op.v in m <==> op.v in m') && (op.v in m ==> m[op.v] == m'[op.v])
    ensures Answers(frames, st, m', op, outcome)
  {
  }

  /** What one step makes of the two parts of one space. */
  lemma {:induction false} PartsStep(frames: seq<Frame>, st: State, own: Owners, op: Op, r: Frame, roots: set<Frame>,
                                     shared: set<nat>, a: Spaces)
    requires Inv(frames, st, own) && Family(st.tables, own, roots, shared) && InFamily(op, roots, shared) && r in roots
    requires ShowsAll(st, roots, shared, a) && SharedSlots(Apply(frames, st, op).tables, r, op.root, shared)
    requires FlatOf(Apply(frames, st, op), op.root) == FlatStep(FlatOf(st, op.root), op, OutcomeOf(frames, st, op))
    ensures r in SpacesStep(a, op, OutcomeOf(frames, st, op)).low
    ensures ShowsOne(Apply(frames, st, op), r, shared, SpacesStep(a, op, OutcomeOf(frames, st, op)))
  {
    var root := op.root;
    FlatLevels(st, own, root);
    assert SharedSlots(st.tables, root, root, shared) && ShowsOne(st, root, shared, a) && ShowsOne(st, r, shared, a);
    forall i | i in shared ensures 256 <= i { assert SharedSlot(st.tables, root, root, i); }
    StepParts(FlatOf(st, root), op, OutcomeOf(frames, st, op), shared);
    SharedUp(Apply(frames, st, op), r, root, shared);
    if r != root {
      OtherLow(frames, st, own, op, r);
    }
  }

  lemma {:induction false} StepShows(frames: seq<Frame>, st: State, own: Owners, op: Op, roots: set<Frame>,
                                     shared: set<nat>, a: Spaces)
    returns (own': Owners)
    requires Inv(frames, st, own) && Family(st.tables, own, roots, shared) && InFamily(op, roots, shared)
    requires ShowsAll(st, roots, shared, a)
    ensures Inv(frames, Apply(frames, st, op), own') && Family(Apply(frames, st, op).tables, own', roots, shared)
    ensures ShowsAll(Apply(frames, st, op), roots, shared, SpacesStep(a, op, OutcomeOf(frames, st, op)))
    ensures Answers(frames, st, PartOf(a, op), op, OutcomeOf(frames, st, op))
  {
    var st', outcome := Apply(frames, st, op), OutcomeOf(frames, st, op);
    own' := OwnStep(frames, st, own, op);
    FamilyKept(frames, st, own, own', op, roots, shared);
    assert ShowsOne(st, op.root, shared, a);
    AnswersByPage(frames, st, FlatOf(st, op.root), PartOf(a, op), op, outcome);
    var a' := SpacesStep(a, op, outcome);
    forall r | r in roots ensures ShowsOne(st', r, shared, a') {
      PartsStep(frames, st, own, op, r, roots, shared, a);
    }
  }

  function RunSpaces(frames: seq<Frame>, st: State, a: Spaces, ops: seq<Op>): Spaces
    requires forall i :: 0 <= i < |ops| ==> ops[i].root in a.low
    decreases |ops|
  {
    if ops == [] then a
    else RunSpaces(frames, Apply(frames, st, ops[0]), SpacesStep(a, ops[0], OutcomeOf(frames, st, ops[0])), ops[1..])
  }

  predicate SpacesAnswer(frames: seq<Frame>, st: State, a: Spaces, ops: seq<Op>)
    requires forall i :: 0 <= i < |ops| ==> ops[i].root in a.low
    decreases |ops|
  {
    ops != [] ==>
      var outcome := OutcomeOf(frames, st, ops[0]);
      && Answers(frames, st, PartOf(a, ops[0]), ops[0], outcome)
      && SpacesAnswer(frames, Apply(frames, st, ops[0]), SpacesStep(a, ops[0], outcome), ops[1..])
  }

  /** Over every run in any number of spaces, the tables stand for one flat map per lower half and one shared by all,
      which take the same operations, and every answer is the one that the map concerned gives. */
  lemma {:induction false} RunIsSpaces(frames: seq<Frame>, st: State, own: Owners, ops: seq<Op>, roots: set<Frame>,
                                       shared: set<nat>, a: Spaces)
    requires Inv(frames, st, own) && Family(st.tables, own, roots, shared) && ShowsAll(st, roots, shared, a)
    requires forall i :: 0 <= i < |ops| ==> InFamily(ops[i], roots, shared) && ops[i].root in a.low
    ensures ShowsAll(Run(frames, st, ops), roots, shared, RunSpaces(frames, st, a, ops))
            && SpacesAnswer(frames, st, a, ops)
    decreases |ops|
  {
    if ops != [] {
      var own' := StepShows(frames, st, own, ops[0], roots, shared, a);
      var a' := SpacesStep(a, ops[0], OutcomeOf(frames, st, ops[0]));
      RunIsSpaces(frames, Apply(frames, st, ops[0]), own', ops[1..], roots, shared, a');
    }
  }

  /** Every family of spaces stands for such maps. */
  lemma {:induction false} FamilyShows(st: State, own: Owners, roots: set<Frame>, shared: set<nat>, s: Frame)
    requires Family(st.tables, own, roots, shared) && s in roots
    ensures ShowsAll(st, roots, shared,
                     Spaces(map r | r in roots :: LowPart(FlatOf(st, r)), UpPart(FlatOf(st, s), shared)))
  {
    var a := Spaces(map r | r in roots :: LowPart(FlatOf(st, r)), UpPart(FlatOf(st, s), shared));
    forall r | r in roots ensures ShowsOne(st, r, shared, a) {
      SharedUp(st, r, s, shared);
    }
  }

  /** A space that is created from one of them joins the family. */
  lemma {:induction false} CreateJoins(frames: seq<Frame>, st: State, own: Owners, roots: set<Frame>, shared: set<nat>,
                                       k: Frame, s: Frame)
    requires Inv(frames, st, own) && Family(st.tables, own, roots, shared) && k in roots
    requires s !in own && forall j :: st.n <= j < |frames| ==> frames[j] != s
    ensures var m' := st.tables[s := NewRoot(st.tables[k])];
            && k in st.tables && Inv(frames, State(m', st.n), own[s := Place(Some(s), 4, 0)])
            && Family(m', own[s := Place(Some(s), 4, 0)], roots + {s}, shared)
  {
    assert SharedSlots(st.tables, k, k, shared);
    CreateLemma(frames, st, own, k, s);
    var m' := st.tables[s := NewRoot(st.tables[k])];
    forall r, t | r in roots + {s} && t in roots + {s} ensures SharedSlots(m', r, t, shared) {
      var r0, t0 := if r == s then k else r, if t == s then k else t;
      assert r0 in roots && t0 in roots;
      assert SharedSlots(st.tables, r0, t0, shared);
      forall i | i in shared ensures SharedSlot(m', r, t, i) {
        assert SharedSlot(st.tables, r0, t0, i);
      }
    }
  }
}
