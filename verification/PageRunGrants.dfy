/** What mapping pages in a row does to every slot of every table. */
module PageRunGrants {
  import opened Prelude
  import opened PageWalk
  import opened PageMap
  import opened PageScan
  import opened PageGrants
  import opened PageCount
  import opened PageRuns

  /** What writing page `v`, whose tables are there, has done to slot `j` of table `g`. */
  ghost predicate PutSlot(m: Tables, m': Tables, own: Owners, root: Frame, v: nat, frame: Frame, pf: PageFlags,
                          g: Frame, j: nat)
  {
    && g in own && 0 < own[g].level && g in m && g in m' && j < 512
    && if !Through(m, own, root, 4, v, g, j) then m'[g][j] == m[g][j]
       else if own[g].level == 1 then LeafGranted(m'[g][j], frame, pf)
       else Granted(m[g][j], m'[g][j], pf)
  }

  /** On a way that goes all the way down every entry leads on. */
  lemma {:induction false} WayLeadsOn(m: Tables, own: Owners, root: Frame, v: nat, g: Frame, j: nat)
    requires g in own && 1 < own[g].level && Through(m, own, root, 4, v, g, j) && Reach(m, root, 4, v, 1).Some?
    ensures g in m && LeadsOn(m[g][j], own[g].level)
  {
    ReachOn(m, root, 4, v, own[g].level);
  }

  lemma {:induction false} OverwriteSlot(frames: seq<Frame>, st: State, own: Owners, root: Frame, v: nat, frame: Frame,
                                         pf: PageFlags, g: Frame, j: nat)
    requires Inv(frames, st, own) && IsRoot(own, root) && HasTable(st.tables, root, v) && g in own && j < 512
    ensures PutSlot(st.tables, Overwritten(frames, st, root, v, frame, pf).tables, own, root, v, frame, pf, g, j)
  {
    var d := Descend(frames, st, root, 4, v, pf);
    RootOnWalk(st.tables, own, root, v);
    DescendPresent(frames, st, root, 4, v, pf);
    PresentOwners(frames, st, own, root, 4, v, pf);
    DescendSlot(frames, st, own, root, 4, v, pf, g, j);
    var own' := DescendLemma(frames, st, own, root, 4, v, pf);
    assert TableOwned(st.tables, own, g);
    DescendKeepsReach(frames, st, root, 4, v, pf, root, 4, v, own[g].level);
    if Through(st.tables, own, root, 4, v, g, j) && own[g].level > 1 {
      WayLeadsOn(d.st.tables, own, root, v, g, j);
    }
    LeafFlags(frame, pf);
  }

  // ── Several pages ─────────────────────────────────────────────────────────

  /** What writing `k` pages from `start` on has done to slot `j` of table `g`, from the tables `m` on. */
  ghost predicate RunSlot(m: Tables, m': Tables, own: Owners, root: Frame, start: nat, base: Frame, k: nat,
                          pf: PageFlags, g: Frame, j: nat)
  {
    && g in own && 0 < own[g].level && g in m && g in m' && j < 512
    && (forall w: nat :: start <= w < start + k && Through(m, own, root, 4, w, g, j) ==>
          if own[g].level == 1 then LeafGranted(m'[g][j], base + (w - start) * 0x1000, pf)
          else Granted(m[g][j], m'[g][j], pf))
    && ((forall w: nat :: start <= w < start + k ==> !Through(m, own, root, 4, w, g, j)) ==> m'[g][j] == m[g][j])
  }

  /** Every entry on the way to a page of the run has gained what was asked for, the entries of the pages are as asked
      for, and no other slot of any table has changed. */
  ghost predicate RunGrants(m: Tables, m': Tables, own: Owners, root: Frame, start: nat, base: Frame, k: nat,
                            pf: PageFlags)
  {
    forall g, j: nat :: g in own && j < 512 ==> RunSlot(m, m', own, root, start, base, k, pf, g, j)
  }

  lemma {:induction false} RunGrantsNothing(m: Tables, own: Owners, root: Frame, start: nat, base: Frame, pf: PageFlags)
    requires Owned(m, own)
    ensures RunGrants(m, m, own, root, start, base, 0, pf)
  {
    forall g, j: nat | g in own && j < 512 ensures RunSlot(m, m, own, root, start, base, 0, pf, g, j) {
      assert TableOwned(m, own, g);
    }
  }

  /** A slot of a level-1 table is on the way to one page only. */
  lemma {:induction false} OnePage(m: Tables, own: Owners, root: Frame, g: Frame, j: nat, v: nat, w: nat)
    requires Owned(m, own) && IsRoot(own, root) && g in own && own[g].level == 1 && v < PAGES && w < PAGES
    requires Through(m, own, root, 4, v, g, j) && Through(m, own, root, 4, w, g, j)
    ensures v == w
  {
    RootOnWalk(m, own, root, v);
    RootOnWalk(m, own, root, w);
    ReachOwned(m, own, root, 4, v, 1);
    ReachOwned(m, own, root, 4, w, 1);
    assert High(v, 0) == High(w, 0);
  }

  lemma {:induction false} SameThrough(m: Tables, m': Tables, own: Owners, root: Frame, w: nat, g: Frame, j: nat)
    requires SameWays(m, m', own) && IsRoot(own, root) && w < PAGES && g in own && 0 < own[g].level <= 4
    requires root in m && root in m'
    ensures Through(m', own, root, 4, w, g, j) == Through(m, own, root, 4, w, g, j)
  {
    assert SameWay(m, m', root, w);
  }

  lemma {:induction false} RunSlotStep(m: Tables, m1: Tables, m2: Tables, own: Owners, root: Frame, start: nat,
                                       base: Frame, k: nat, v: nat, frame: Frame, pf: PageFlags, g: Frame, j: nat)
    requires Owned(m, own) && IsRoot(own, root) && v == start + k < PAGES && frame == base + k * 0x1000
    requires Owned(m1, own) && SameWays(m, m1, own) && root in m && root in m1
    requires RunSlot(m, m1, own, root, start, base, k, pf, g, j) && PutSlot(m1, m2, own, root, v, frame, pf, g, j)
    ensures RunSlot(m, m2, own, root, start, base, k + 1, pf, g, j)
  {
    assert TableOwned(m, own, g);
    SameThrough(m, m1, own, root, v, g, j);
    forall w: nat | start <= w < start + (k + 1) && Through(m, own, root, 4, w, g, j)
      ensures if own[g].level == 1 then LeafGranted(m2[g][j], base + (w - start) * 0x1000, pf)
              else Granted(m[g][j], m2[g][j], pf)
    {
      if Through(m, own, root, 4, v, g, j) {
        if own[g].level == 1 {
          OnePage(m, own, root, g, j, v, w);
        } else if m1[g][j] != m[g][j] {
          GrantedTwice(m[g][j], m1[g][j], m2[g][j], pf);
        }
      }
    }
  }

  /** One more page. */
  lemma {:induction false} RunGrantsStep(frames: seq<Frame>, m: Tables, st: State, own: Owners, root: Frame, start: nat,
                                         base: Frame, k: nat, v: nat, frame: Frame, pf: PageFlags)
    requires Owned(m, own) && Inv(frames, st, own) && IsRoot(own, root) && v == start + k < PAGES
    requires frame == base + k * 0x1000 && HasTable(st.tables, root, v) && SameWays(m, st.tables, own)
    requires RunGrants(m, st.tables, own, root, start, base, k, pf)
    ensures RunGrants(m, Overwritten(frames, st, root, v, frame, pf).tables, own, root, start, base, k + 1, pf)
  {
    var m2, k' := Overwritten(frames, st, root, v, frame, pf).tables, k + 1;
    assert TableOwned(m, own, root) && TableOwned(st.tables, own, root);
    forall g, j: nat | g in own && j < 512 ensures RunSlot(m, m2, own, root, start, base, k', pf, g, j) {
      OverwriteSlot(frames, st, own, root, v, frame, pf, g, j);
      RunSlotStep(m, st.tables, m2, own, root, start, base, k, v, frame, pf, g, j);
    }
  }

  /** `k` pages from `start` on have been written, from the tables `m` on, and no table has come or gone. */
  ghost predicate Wrote(frames: seq<Frame>, m: Tables, st: State, own: Owners, root: Frame, start: nat, base: Frame,
                        k: nat, pf: PageFlags)
  {
    && Inv(frames, st, own) && IsRoot(own, root) && SameWays(m, st.tables, own)
    && RunGrants(m, st.tables, own, root, start, base, k, pf)
  }

  lemma {:induction false} WroteNothing(frames: seq<Frame>, st: State, own: Owners, root: Frame, start: nat,
                                        base: Frame, pf: PageFlags)
    requires Inv(frames, st, own) && IsRoot(own, root)
    ensures Wrote(frames, st.tables, st, own, root, start, base, 0, pf)
  {
    RunGrantsNothing(st.tables, own, root, start, base, pf);
    forall r: Frame, w: nat | IsRoot(own, r) && w < PAGES ensures SameWay(st.tables, st.tables, r, w) {
    }
  }

  lemma {:induction false} WroteMore(frames: seq<Frame>, m: Tables, st: State, own: Owners, root: Frame, start: nat,
                                     base: Frame, k: nat, v: nat, frame: Frame, pf: PageFlags)
    requires Owned(m, own) && Wrote(frames, m, st, own, root, start, base, k, pf) && v == start + k < PAGES
    requires frame == base + k * 0x1000 && HasTable(st.tables, root, v)
    ensures Wrote(frames, m, Overwritten(frames, st, root, v, frame, pf), own, root, start, base, k + 1, pf)
  {
    OverwriteLemma(frames, st, own, root, v, frame, pf);
    SameWaysTrans(m, st.tables, Overwritten(frames, st, root, v, frame, pf).tables, own, own);
    RunGrantsStep(frames, m, st, own, root, start, base, k, v, frame, pf);
  }

  // ── A search and then the pages ───────────────────────────────────────────

  /** The same from before the search, which added tables on its way, told by the ways after it. */
  ghost predicate FoundSlot(m0: Tables, m: Tables, own0: Owners, own: Owners, root: Frame, start: nat, base: Frame,
                            k: nat, pf: PageFlags, g: Frame, j: nat)
  {
    && g in own && 0 < own[g].level && g in m && j < 512
    && (forall w: nat :: start <= w < start + k && Through(m, own, root, 4, w, g, j) ==>
          if own[g].level == 1 then LeafGranted(m[g][j], base + (w - start) * 0x1000, pf)
          else Granted(Before(m0, own0, g, j), m[g][j], pf))
    && ((forall w: nat :: start <= w < start + k ==> !Through(m, own, root, 4, w, g, j)) ==>
          SlotGrown(Before(m0, own0, g, j), m[g][j]))
  }

  ghost predicate FoundGrants(m0: Tables, m: Tables, own0: Owners, own: Owners, root: Frame, start: nat, base: Frame,
                              k: nat, pf: PageFlags)
  {
    forall g, j: nat :: g in own && j < 512 ==> FoundSlot(m0, m, own0, own, root, start, base, k, pf, g, j)
  }

  lemma {:induction false} FoundFirst(m0: Tables, m1: Tables, m: Tables, own0: Owners, own: Owners, root: Frame,
                                      start: nat, base: Frame, k: nat, pf: PageFlags)
    requires Owned(m1, own) && Owned(m, own) && IsRoot(own, root) && start + k <= PAGES
    requires Grown(m0, m1, own0) && NewGrown(m1, own0, own) && SameWays(m1, m, own)
    requires RunGrants(m1, m, own, root, start, base, k, pf)
    ensures FoundGrants(m0, m, own0, own, root, start, base, k, pf)
  {
    assert TableOwned(m1, own, root) && TableOwned(m, own, root);
    forall g, j: nat | g in own && j < 512 ensures FoundSlot(m0, m, own0, own, root, start, base, k, pf, g, j) {
      assert TableOwned(m1, own, g);
      assert RunSlot(m1, m, own, root, start, base, k, pf, g, j);
      forall w: nat | start <= w < start + k
        ensures Through(m, own, root, 4, w, g, j) == Through(m1, own, root, 4, w, g, j)
      {
        SameThrough(m1, m, own, root, w, g, j);
      }
      assert SlotGrown(Before(m0, own0, g, j), m1[g][j]);
    }
  }

  lemma {:induction false} WroteFound(frames: seq<Frame>, m0: Tables, m1: Tables, st: State, own0: Owners, own: Owners,
                                      root: Frame, start: nat, base: Frame, k: nat, pf: PageFlags)
    requires Owned(m1, own) && Wrote(frames, m1, st, own, root, start, base, k, pf) && start + k <= PAGES
    requires Grown(m0, m1, own0) && NewGrown(m1, own0, own)
    ensures FoundGrants(m0, st.tables, own0, own, root, start, base, k, pf)
  {
    FoundFirst(m0, m1, st.tables, own0, own, root, start, base, k, pf);
  }
}
