/** What mapping a page does to every slot of every table, and the permissions the page ends up with. */
module PageGrants {
  import opened Prelude
  import opened PageWalk
  import opened PageMap
  import opened PageScan

  // ── Entries ───────────────────────────────────────────────────────────────

  /** A permission that the whole way down to the page has to carry. */
  predicate Asked(pf: PageFlags, x: Flag) {
    (x == Writable && pf.writable) || (x == UserAccessible && pf.userAccessible)
  }

  /** An entry on the way keeps what it had and gains what was asked for; one that was absent leads to a new table. */
  ghost predicate Granted(e: Entry, e': Entry, pf: PageFlags) {
    && (e.IsPresent() ==> e'.address == e.address)
    && forall x: Flag :: x in e'.flags <==> (if e.IsPresent() then x in e.flags else x == Present) || Asked(pf, x)
  }

  /** The entry of the page has exactly the flags asked for. */
  ghost predicate LeafGranted(e: Entry, frame: Frame, pf: PageFlags) {
    && e.address == frame && Present in e.flags
    && (Writable in e.flags <==> pf.writable)
    && (UserAccessible in e.flags <==> pf.userAccessible)
    && (NoExecute in e.flags <==> !pf.executable)
    && (WriteThrough in e.flags <==> pf.writeThrough)
    && (NoCache in e.flags <==> pf.disableCaching)
    && Accessed !in e.flags && Dirty !in e.flags && HugePage !in e.flags && Global !in e.flags
  }

  lemma {:induction false} GrantedTwice(a: Entry, b: Entry, c: Entry, pf: PageFlags)
    requires Granted(a, b, pf) && Granted(b, c, pf)
    ensures Granted(a, c, pf)
  {
    assert Present in b.flags;
  }

  // ── Slots ─────────────────────────────────────────────────────────────────

  /** A slot before the walk down; tables to come count as empty. */
  function Before(m: Tables, own: Owners, g: Frame, j: nat): Entry
    requires j < 512
  {
    if g in own && g in m then m[g][j] else EMPTY
  }

  predicate LeadsOn(e: Entry, level: nat) {
    e.IsPresent() && !EndsWalk(e, level)
  }

  /** What the walk down from `f` has done to slot `j` of table `g`. */
  ghost predicate WaySlot(m: Tables, m': Tables, own: Owners, own': Owners, f: Frame, level: nat, v: nat, pf: PageFlags,
                          g: Frame, j: nat)
    requires g in own' && 0 < own'[g].level && g in m' && j < 512
  {
    if Through(m', own', f, level, v, g, j) && LeadsOn(m'[g][j], own'[g].level)
    then Granted(Before(m, own, g, j), m'[g][j], pf)
    else m'[g][j] == Before(m, own, g, j)
  }

  /** One slot written on the way, and then the rest of the walk down. */
  lemma {:induction false} WayStep(m: Tables, m1: Tables, m': Tables, own: Owners, own1: Owners, own': Owners, f: Frame,
                                   level: nat, v: nat, pf: PageFlags, g: Frame, j: nat)
    requires f in own' && own'[f].level == level > 1 && f in m1 && f in m' && m'[f] == m1[f]
    requires g in own' && 0 < own'[g].level && g in m' && j < 512
    requires var e := m1[f][Digit(v, level)];
             && LeadsOn(e, level) && Granted(Before(m, own, f, Digit(v, level)), e, pf)
             && WaySlot(m1, m', own1, own', e.address, level - 1, v, pf, g, j)
    requires (g == f && j == Digit(v, level)) || Before(m1, own1, g, j) == Before(m, own, g, j)
    ensures WaySlot(m, m', own, own', f, level, v, pf, g, j)
  {
    if own'[g].level == level {
      assert Reach(m', f, level, v, level) == Some(f);
    }
  }

  lemma {:induction false} LinkedSlot(frames: seq<Frame>, st: State, own: Owners, f: Frame, i: nat, pf: PageFlags,
                                      level: nat, g: Frame, j: nat)
    requires f in own && f in st.tables && 0 < own[f].level && 2 <= level && i < 512 && j < 512
    requires st.n < |frames| && frames[st.n] !in own && !st.tables[f][i].IsPresent()
    ensures var m1, own1 := Linked(frames, st, f, i, pf).tables, own[frames[st.n] := ChildPlace(f, own[f], i)];
            && m1[f][i].address == frames[st.n] && LeadsOn(m1[f][i], level)
            && Granted(Before(st.tables, own, f, i), m1[f][i], pf)
            && ((g == f && j == i) || Before(m1, own1, g, j) == Before(st.tables, own, g, j))
  {
    var m1 := Linked(frames, st, f, i, pf).tables;
    assert m1[f] == st.tables[f][i := Propagate(Entry(frames[st.n], {Present}), pf)];
  }

  lemma {:induction false} ReflaggedSlot(m: Tables, own: Owners, f: Frame, i: nat, pf: PageFlags, level: nat, g: Frame,
                                         j: nat)
    requires f in own && f in m && i < 512 && j < 512 && LeadsOn(m[f][i], level)
    ensures var m1 := SetSlot(m, f, i, Propagate(m[f][i], pf));
            && m1[f][i].address == m[f][i].address && LeadsOn(m1[f][i], level)
            && Granted(Before(m, own, f, i), m1[f][i], pf)
            && ((g == f && j == i) || Before(m1, own, g, j) == Before(m, own, g, j))
  {
  }

  lemma {:induction false} DescendSlot(frames: seq<Frame>, st: State, own: Owners, f: Frame, level: nat, v: nat,
                                       pf: PageFlags, g: Frame, j: nat)
    requires Inv(frames, st, own) && OnWalk(own, f, level, v) && 0 < level && j < 512
    requires g in DescendOwners(frames, st, own, f, level, v, pf)
    ensures var m' := Descend(frames, st, f, level, v, pf).st.tables;
            var own' := DescendOwners(frames, st, own, f, level, v, pf);
            && g in m' && 0 < own'[g].level
            && WaySlot(st.tables, m', own, own', f, level, v, pf, g, j)
    decreases level
  {
    var d := Descend(frames, st, f, level, v, pf);
    StepDown(st.tables, own, f, level, v);
    var i := Digit(v, level);
    var e := st.tables[f][i];
    if level > 1 && e.IsPresent() && !EndsWalk(e, level) {
      var st1 := State(SetSlot(st.tables, f, i, Propagate(e, pf)), st.n);
      Reflag(st.tables, own, f, i, Propagate(e, pf));
      DescendSlot(frames, st1, own, e.address, level - 1, v, pf, g, j);
      var own' := DescendLemma(frames, st1, own, e.address, level - 1, v, pf);
      ReflaggedSlot(st.tables, own, f, i, pf, level, g, j);
      WayStep(st.tables, st1.tables, d.st.tables, own, own, own', f, level, v, pf, g, j);
    } else if level > 1 && !e.IsPresent() && st.n < |frames| {
      var st1, own1 := Linked(frames, st, f, i, pf), own[frames[st.n] := ChildPlace(f, own[f], i)];
      LinkedLemma(frames, st, own, f, i, pf);
      DescendSlot(frames, st1, own1, frames[st.n], level - 1, v, pf, g, j);
      var own' := DescendLemma(frames, st1, own1, frames[st.n], level - 1, v, pf);
      LinkedSlot(frames, st, own, f, i, pf, level, g, j);
      WayStep(st.tables, st1.tables, d.st.tables, own, own1, own', f, level, v, pf, g, j);
    } else {
      assert TableOwned(st.tables, own, g);
      if Through(st.tables, own, f, level, v, g, j) {
        assert own[g].level == level ==> g == f;
      }
    }
  }

  // ── Mapping ───────────────────────────────────────────────────────────────

  /** What mapping page `v` under `root` has done to slot `j` of table `g`. */
  ghost predicate SlotAfter(m: Tables, m': Tables, own: Owners, own': Owners, root: Frame, v: nat, frame: Frame,
                            pf: PageFlags, ok: bool, g: Frame, j: nat)
  {
    && g in own' && 0 < own'[g].level && g in m' && j < 512
    && var e, e', l := Before(m, own, g, j), m'[g][j], own'[g].level;
       if Through(m', own', root, 4, v, g, j) && LeadsOn(e', l) then Granted(e, e', pf)
       else if Through(m', own', root, 4, v, g, j) && l == 1 && ok then !e.IsPresent() && LeafGranted(e', frame, pf)
       else e' == e
  }

  /** Every entry on the way has gained what was asked for, the entry of the page is as asked for if it was mapped,
      and no other slot of any table has changed. */
  ghost predicate Grants(m: Tables, m': Tables, own: Owners, own': Owners, root: Frame, v: nat, frame: Frame,
                         pf: PageFlags, ok: bool)
  {
    && (ok ==> Reach(m', root, 4, v, 1).Some?)
    && forall g, j: nat :: g in own' && j < 512 ==> SlotAfter(m, m', own, own', root, v, frame, pf, ok, g, j)
  }

  lemma {:induction false} MapSlot(frames: seq<Frame>, st: State, own: Owners, own': Owners, root: Frame, v: nat,
                                   frame: Frame, pf: PageFlags, g: Frame, j: nat)
    requires Inv(frames, st, own) && IsRoot(own, root) && v < PAGES && j < 512
    requires own' == DescendOwners(frames, st, own, root, 4, v, pf) && g in own'
    ensures var s := Map(frames, st, root, v, frame, pf);
            SlotAfter(st.tables, s.st.tables, own, own', root, v, frame, pf, s.outcome == Ok, g, j)
  {
    RootOnWalk(st.tables, own, root, v);
    var d, s := Descend(frames, st, root, 4, v, pf), Map(frames, st, root, v, frame, pf);
    DescendSlot(frames, st, own, root, 4, v, pf, g, j);
    var o := DescendLemma(frames, st, own, root, 4, v, pf);
    if s.outcome == Ok {
      LeafFlags(frame, pf);
      RootOnWalk(d.st.tables, own', root, v);
      LeafReach(d.st.tables, own', d.table, Digit(v, 1), LeafEntry(frame, pf), root, 4, v, own'[g].level);
    } else if d.Reached? && Through(d.st.tables, own', root, 4, v, g, j) && own'[g].level == 1 {
      assert g == d.table;
    }
  }

  lemma {:induction false} LeafFlags(frame: Frame, pf: PageFlags)
    ensures LeafGranted(LeafEntry(frame, pf), frame, pf)
  {
  }

  /** The whole effect of a map on the tables, whatever it answers. */
  lemma {:induction false} MapGrants(frames: seq<Frame>, st: State, own: Owners, root: Frame, v: nat, frame: Frame,
                                     pf: PageFlags)
    returns (own': Owners)
    requires Inv(frames, st, own) && IsRoot(own, root) && v < PAGES
    ensures var s := Map(frames, st, root, v, frame, pf);
            && Inv(frames, s.st, own') && Extends(own', own)
            && own' == DescendOwners(frames, st, own, root, 4, v, pf)
            && Grants(st.tables, s.st.tables, own, own', root, v, frame, pf, s.outcome == Ok)
  {
    own' := MapLemma(frames, st, own, root, v, frame, pf);
    var s := Map(frames, st, root, v, frame, pf);
    var ok := s.outcome == Ok;
    forall g, j: nat | g in own' && j < 512
      ensures SlotAfter(st.tables, s.st.tables, own, own', root, v, frame, pf, ok, g, j)
    {
      MapSlot(frames, st, own, own', root, v, frame, pf, g, j);
    }
    if s.outcome == Ok {
      LeafReached(s.st.tables, root, 4, v);
    }
  }

  lemma {:induction false} LeafReached(m: Tables, f: Frame, level: nat, v: nat)
    requires Resolve(m, f, level, v).Some? && Resolve(m, f, level, v).value.level == 1
    ensures Reach(m, f, level, v, 1).Some?
    decreases level
  {
    if level > 1 {
      LeafReached(m, m[f][Digit(v, level)].address, level - 1, v);
    }
  }

  // ── Permissions ───────────────────────────────────────────────────────────

  /** The processor allows an access of kind `x` to page `v` if every entry on the way does. */
  predicate Allows(m: Tables, f: Frame, level: nat, v: nat, x: Flag)
    decreases level
  {
    && 0 < level && f in m
    && var e := m[f][Digit(v, level)];
       e.IsPresent() && x in e.flags && (EndsWalk(e, level) || Allows(m, e.address, level - 1, v, x))
  }

  /** Page `v` maps `frame` and may be used as `pf` says, by way of the root `r`. */
  ghost predicate HasRights(m: Tables, r: Frame, v: nat, frame: Frame, pf: PageFlags) {
    && Reach(m, r, 4, v, 1).Some? && Reach(m, r, 4, v, 1).value in m
    && LeafGranted(m[Reach(m, r, 4, v, 1).value][Digit(v, 1)], frame, pf)
    && (Allows(m, r, 4, v, Writable) <==> pf.writable)
    && (Allows(m, r, 4, v, UserAccessible) <==> pf.userAccessible)
  }

  /** From a table on the way down, the rights are those asked for. */
  lemma {:induction false} WayAllows(m: Tables, m': Tables, own: Owners, own': Owners, root: Frame, v: nat,
                                     frame: Frame, pf: PageFlags, f: Frame, level: nat, x: Flag)
    requires Owned(m', own') && OnWalk(own', f, level, v) && 1 <= level <= 4 && x in {Writable, UserAccessible}
    requires Reach(m', root, 4, v, level) == Some(f) && Reach(m', f, level, v, 1).Some?
    requires Grants(m, m', own, own', root, v, frame, pf, true)
    ensures Allows(m', f, level, v, x) <==> Asked(pf, x)
    decreases level
  {
    StepDown(m', own', f, level, v);
    var j := Digit(v, level);
    assert SlotAfter(m, m', own, own', root, v, frame, pf, true, f, j);
    assert Through(m', own', root, 4, v, f, j);
    if level > 1 {
      ReachStep(m', root, 4, v, level);
      assert TableOwned(m', own', m'[f][j].address);
      WayAllows(m, m', own, own', root, v, frame, pf, m'[f][j].address, level - 1, x);
    }
  }

  /** A page just mapped may be used as asked, neither less nor more. */
  lemma {:induction false} MapRights(frames: seq<Frame>, st: State, own: Owners, root: Frame, v: nat, frame: Frame,
                                     pf: PageFlags)
    requires Inv(frames, st, own) && IsRoot(own, root) && v < PAGES
    requires Map(frames, st, root, v, frame, pf).outcome == Ok
    ensures HasRights(Map(frames, st, root, v, frame, pf).st.tables, root, v, frame, pf)
  {
    var own' := MapGrants(frames, st, own, root, v, frame, pf);
    var m' := Map(frames, st, root, v, frame, pf).st.tables;
    RootOnWalk(m', own', root, v);
    ReachOwned(m', own', root, 4, v, 1);
    var g := Reach(m', root, 4, v, 1).value;
    assert TableOwned(m', own', g);
    assert SlotAfter(st.tables, m', own, own', root, v, frame, pf, true, g, Digit(v, 1));
    WayAllows(st.tables, m', own, own', root, v, frame, pf, root, 4, Writable);
    WayAllows(st.tables, m', own, own', root, v, frame, pf, root, 4, UserAccessible);
  }

  /** Seen from another space that shares the page, its rights are those asked for, as far as the entry in the root of
      that space goes: the walk down does not come by it. */
  lemma {:induction false} SharedRights(frames: seq<Frame>, st: State, own: Owners, root: Frame, v: nat, frame: Frame,
                                        pf: PageFlags, r: Frame, x: Flag)
    requires Inv(frames, st, own) && IsRoot(own, root) && IsRoot(own, r) && r != root && v < PAGES
    requires Map(frames, st, root, v, frame, pf).outcome == Ok && x in {Writable, UserAccessible} && r in st.tables
    requires Shares(Map(frames, st, root, v, frame, pf).st.tables, r, root, v, 3)
    ensures Allows(Map(frames, st, root, v, frame, pf).st.tables, r, 4, v, x) <==>
            Asked(pf, x) && x in st.tables[r][Digit(v, 4)].flags
  {
    var own' := MapGrants(frames, st, own, root, v, frame, pf);
    var m' := Map(frames, st, root, v, frame, pf).st.tables;
    RootOnWalk(m', own', root, v);
    RootOnWalk(m', own', r, v);
    ReachOwned(m', own', root, 4, v, 3);
    var g := Reach(m', root, 4, v, 3).value;
    ReachOn(m', root, 4, v, 3);
    WayAllows(st.tables, m', own, own', root, v, frame, pf, g, 3, x);
    assert SlotAfter(st.tables, m', own, own', root, v, frame, pf, true, r, Digit(v, 4));
    ReachOn(m', r, 4, v, 3);
  }

  /** The way on from a table that it comes to. */
  lemma {:induction false} ReachOn(m: Tables, f: Frame, level: nat, v: nat, l: nat)
    requires 1 <= l <= level && Reach(m, f, level, v, l).Some?
    ensures Reach(m, f, level, v, 1) == Reach(m, Reach(m, f, level, v, l).value, l, v, 1)
    decreases level
  {
    if l < level {
      ReachOn(m, m[f][Digit(v, level)].address, level - 1, v, l);
    }
  }

  // ── Rights over runs ──────────────────────────────────────────────────────

  /** The entries on the way to page `v` lead where they led and have lost no flag; the last one is the same. */
  predicate WayHeld(m: Tables, m': Tables, f: Frame, level: nat, v: nat)
    decreases level
  {
    && 0 < level && f in m && f in m'
    && var e, e' := m[f][Digit(v, level)], m'[f][Digit(v, level)];
       && e.IsPresent() && e'.address == e.address && e.flags <= e'.flags && e.IsHuge() == e'.IsHuge()
       && if EndsWalk(e, level) then e' == e else WayHeld(m, m', e.address, level - 1, v)
  }

  lemma {:induction false} KeptAllows(m: Tables, m': Tables, f: Frame, level: nat, v: nat, x: Flag)
    requires WayHeld(m, m', f, level, v) && Reach(m, f, level, v, 1).Some?
    ensures Reach(m', f, level, v, 1) == Reach(m, f, level, v, 1)
    ensures var g := Reach(m, f, level, v, 1).value;
            && g in m && g in m' && m'[g][Digit(v, 1)] == m[g][Digit(v, 1)]
            && (Allows(m, f, level, v, x) ==> Allows(m', f, level, v, x))
            && (Allows(m', f, level, v, x) ==> x in m[g][Digit(v, 1)].flags)
    decreases level
  {
    if level > 1 {
      KeptAllows(m, m', m[f][Digit(v, level)].address, level - 1, v, x);
    }
  }

  lemma {:induction false} KeptRights(m: Tables, m': Tables, r: Frame, v: nat, frame: Frame, pf: PageFlags)
    requires HasRights(m, r, v, frame, pf) && WayHeld(m, m', r, 4, v)
    ensures HasRights(m', r, v, frame, pf)
  {
    KeptAllows(m, m', r, 4, v, Writable);
    KeptAllows(m, m', r, 4, v, UserAccessible);
  }

  /** Mapping a page keeps the way to every page that is mapped. */
  lemma {:induction false} MapHoldsWay(m: Tables, m': Tables, own: Owners, own': Owners, root: Frame, w: nat,
                                       frame: Frame, pf: PageFlags, ok: bool, f: Frame, level: nat, v: nat)
    requires Owned(m, own) && Extends(own', own) && Grants(m, m', own, own', root, w, frame, pf, ok)
    requires OnWalk(own, f, level, v) && Resolve(m, f, level, v).Some?
    ensures WayHeld(m, m', f, level, v)
    decreases level
  {
    StepDown(m, own, f, level, v);
    var j := Digit(v, level);
    var e := m[f][j];
    assert SlotAfter(m, m', own, own', root, w, frame, pf, ok, f, j);
    if !EndsWalk(e, level) {
      MapHoldsWay(m, m', own, own', root, w, frame, pf, ok, e.address, level - 1, v);
    }
  }

  /** Clearing the slot of another page keeps the way. */
  lemma {:induction false} ClearHoldsWay(m: Tables, g: Frame, i: nat, f: Frame, level: nat, v: nat)
    requires g in m && i < 512 && 0 < level
    requires Resolve(m, f, level, v).Some? && Resolve(SetSlot(m, g, i, EMPTY), f, level, v).Some?
    ensures WayHeld(m, SetSlot(m, g, i, EMPTY), f, level, v)
    decreases level
  {
    var e := m[f][Digit(v, level)];
    if !EndsWalk(e, level) {
      ClearHoldsWay(m, g, i, e.address, level - 1, v);
    }
  }

  lemma {:induction false} UnmapHoldsWay(st: State, own: Owners, root: Frame, w: nat, r: Frame, v: nat)
    requires Owned(st.tables, own) && IsRoot(own, root) && IsRoot(own, r) && v < PAGES && w < PAGES
    requires At(st, r, v).Some? && At(Unmap(st, root, 4, w).st, r, v).Some?
    ensures WayHeld(st.tables, Unmap(st, root, 4, w).st.tables, r, 4, v)
  {
    RootOnWalk(st.tables, own, root, w);
    RootOnWalk(st.tables, own, r, v);
    UnmapFindsSlot(st, own, root, 4, w);
    if Unmap(st, root, 4, w).outcome == Ok {
      var l := At(st, root, w).value.level;
      ClearHoldsWay(st.tables, Reach(st.tables, root, 4, w, l).value, Digit(w, l), r, 4, v);
    } else {
      SameHoldsWay(st.tables, r, 4, v);
    }
  }

  lemma {:induction false} SameHoldsWay(m: Tables, f: Frame, level: nat, v: nat)
    requires Resolve(m, f, level, v).Some?
    ensures WayHeld(m, m, f, level, v)
    decreases level
  {
    if !EndsWalk(m[f][Digit(v, level)], level) {
      SameHoldsWay(m, m[f][Digit(v, level)].address, level - 1, v);
    }
  }

  lemma {:induction false} StepKeepsRights(frames: seq<Frame>, st: State, own: Owners, op: Op, r: Frame, v: nat,
                                           frame: Frame, pf: PageFlags)
    returns (own': Owners)
    requires Inv(frames, st, own) && IsRoot(own, r) && IsRoot(own, op.root) && v < PAGES && op.v < PAGES
    requires HasRights(st.tables, r, v, frame, pf) && At(Apply(frames, st, op), r, v).Some?
    ensures Inv(frames, Apply(frames, st, op), own') && Extends(own', own)
    ensures HasRights(Apply(frames, st, op).tables, r, v, frame, pf)
  {
    RootOnWalk(st.tables, own, r, v);
    ResolveFrom(st.tables, r, 4, v, 1);
    match op
    case MapPage(root, w, fr, g) =>
      own' := MapGrants(frames, st, own, root, w, fr, g);
      var s := Map(frames, st, root, w, fr, g);
      MapHoldsWay(st.tables, s.st.tables, own, own', root, w, fr, g, s.outcome == Ok, r, 4, v);
    case UnmapPage(root, w) =>
      own' := own;
      UnmapLemma(frames, st, own, root, w);
      UnmapHoldsWay(st, own, root, w, r, v);
    KeptRights(st.tables, Apply(frames, st, op).tables, r, v, frame, pf);
  }

  /** Over every run of maps and unmaps in any spaces, a page may be used as it was mapped for as long as it stays. */
  lemma {:induction false} RunKeepsRights(frames: seq<Frame>, st: State, own: Owners, ops: seq<Op>, r: Frame, v: nat,
                                          frame: Frame, pf: PageFlags)
    requires Inv(frames, st, own) && IsRoot(own, r) && v < PAGES && HasRights(st.tables, r, v, frame, pf)
    requires forall i :: 0 <= i < |ops| ==> IsRoot(own, ops[i].root) && ops[i].v < PAGES
    requires StaysMapped(frames, st, ops, r, v)
    ensures HasRights(Run(frames, st, ops).tables, r, v, frame, pf)
    decreases |ops|
  {
    if ops != [] {
      var own' := StepKeepsRights(frames, st, own, ops[0], r, v, frame, pf);
      RunKeepsRights(frames, Apply(frames, st, ops[0]), own', ops[1..], r, v, frame, pf);
    }
  }

  ghost predicate StaysMapped(frames: seq<Frame>, st: State, ops: seq<Op>, r: Frame, v: nat)
    decreases |ops|
  {
    ops != [] ==>
      && At(Apply(frames, st, ops[0]), r, v).Some?
      && StaysMapped(frames, Apply(frames, st, ops[0]), ops[1..], r, v)
  }
}
