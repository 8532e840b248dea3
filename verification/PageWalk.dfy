/** Four-level page tables in physical memory, and what they translate.

    A virtual page is named by its 36-bit page number `v`. A table of level L is
    indexed by digit L of `v` in base 512; level 4 is the root. */
module PageWalk {
  import opened Prelude

  type Frame = nat

  datatype Flag =
    | Present | Writable | UserAccessible | WriteThrough | NoCache
    | Accessed | Dirty | HugePage | Global | NoExecute

  datatype Entry = Entry(address: Frame, flags: set<Flag>) {
    predicate IsPresent() { Present in flags }
    predicate IsHuge() { HugePage in flags }
  }

  const EMPTY := Entry(0, {})

  type Table = t: seq<Entry> | |t| == 512 witness seq(512, _ => EMPTY)

  function Zeroed(): Table {
    seq(512, _ => EMPTY)
  }

  type Tables = map<Frame, Table>

  const PAGES: nat := 0x10_0000_0000

  // ── Page numbers ──────────────────────────────────────────────────────────

  /** The digits of `v` above level `level`. */
  function High(v: nat, level: nat): nat {
    if level == 0 then v else High(v, level - 1) / 512
  }

  function Digit(v: nat, level: nat): (i: nat)
    requires 0 < level
    ensures i < 512 && High(v, level - 1) == High(v, level) * 512 + i
  {
    High(v, level - 1) % 512
  }

  // ── Walking ───────────────────────────────────────────────────────────────

  /** Where a walk ends: an address and the level of the entry that holds it. */
  datatype Leaf = Leaf(address: Frame, level: nat)

  /** A present entry of level 2 or 3 may map a huge page; level 4 never does. */
  predicate EndsWalk(e: Entry, level: nat) {
    level == 1 || (level < 4 && e.IsHuge())
  }

  function Resolve(mem: Tables, f: Frame, level: nat, v: nat): Option<Leaf>
    decreases level
  {
    if level == 0 || f !in mem then None
    else
      var e := mem[f][Digit(v, level)];
      if !e.IsPresent() then None
      else if EndsWalk(e, level) then Some(Leaf(e.address, level))
      else Resolve(mem, e.address, level - 1, v)
  }

  /** The table of level `target` that the walk for `v` from table `f` comes to. */
  function Reach(mem: Tables, f: Frame, level: nat, v: nat, target: nat): Option<Frame>
    decreases level
  {
    if level <= target then (if level == target && f in mem then Some(f) else None)
    else if f !in mem then None
    else
      var e := mem[f][Digit(v, level)];
      if !e.IsPresent() || EndsWalk(e, level) then None
      else Reach(mem, e.address, level - 1, v, target)
  }

  // ── Who owns a table ──────────────────────────────────────────────────────

  /** The place of a table: its level, the digits above it, and the root it belongs to.
      Tables below the upper half of a root belong to all address spaces. */
  datatype Place = Place(space: Option<Frame>, level: nat, prefix: nat)

  type Owners = map<Frame, Place>

  function ChildPlace(f: Frame, p: Place, i: nat): Place
    requires 0 < p.level
  {
    Place(if p.level < 4 then p.space else if i < 256 then Some(f) else None, p.level - 1, p.prefix * 512 + i)
  }

  /** A slot that leads to a lower table leads to the table of its place. */
  predicate SlotOwned(own: Owners, f: Frame, p: Place, i: nat, e: Entry)
    requires 0 < p.level
  {
    e.IsPresent() && !EndsWalk(e, p.level) ==> e.address in own && own[e.address] == ChildPlace(f, p, i)
  }

  predicate TableOwned(mem: Tables, own: Owners, f: Frame)
    requires f in own
  {
    && f in mem && 1 <= own[f].level <= 4
    && (own[f].level == 4 ==> own[f].prefix == 0)
    && forall i :: 0 <= i < 512 ==> SlotOwned(own, f, own[f], i, mem[f][i])
  }

  ghost predicate Owned(mem: Tables, own: Owners) {
    forall f :: f in own ==> TableOwned(mem, own, f)
  }

  /** A walk for `v` that has come to table `f` of level `level`. */
  predicate OnWalk(own: Owners, f: Frame, level: nat, v: nat) {
    f in own && own[f].level == level && own[f].prefix == High(v, level)
  }

  lemma {:induction false} StepDown(mem: Tables, own: Owners, f: Frame, level: nat, v: nat)
    requires Owned(mem, own) && OnWalk(own, f, level, v)
    ensures f in mem && 1 <= level <= 4
    ensures var e := mem[f][Digit(v, level)];
            e.IsPresent() && !EndsWalk(e, level) ==>
              OnWalk(own, e.address, level - 1, v) && own[e.address] == ChildPlace(f, own[f], Digit(v, level))
  {
    assert TableOwned(mem, own, f);
    assert SlotOwned(own, f, own[f], Digit(v, level), mem[f][Digit(v, level)]);
  }

  /** A table has one place, so a walk comes to it at its level and for its digits only. */
  lemma {:induction false} ReachOwned(mem: Tables, own: Owners, f: Frame, level: nat, v: nat, target: nat)
    requires Owned(mem, own) && OnWalk(own, f, level, v) && target <= level
    ensures Reach(mem, f, level, v, target).Some? ==> OnWalk(own, Reach(mem, f, level, v, target).value, target, v)
    decreases level
  {
    StepDown(mem, own, f, level, v);
    if target < level {
      var e := mem[f][Digit(v, level)];
      if e.IsPresent() && !EndsWalk(e, level) {
        ReachOwned(mem, own, e.address, level - 1, v, target);
      }
    }
  }

  /** No table has two parents: slots that lead to the same table are slots with the same
      index of tables with the same place, and of the same table when that is below a lower half. */
  lemma {:induction false} OneParent(mem: Tables, own: Owners, f: Frame, i: nat, g: Frame, j: nat)
    requires Owned(mem, own) && f in own && g in own && f in mem && g in mem && i < 512 && j < 512
    requires mem[f][i].IsPresent() && !EndsWalk(mem[f][i], own[f].level)
    requires mem[g][j].IsPresent() && !EndsWalk(mem[g][j], own[g].level)
    requires mem[f][i].address == mem[g][j].address
    ensures i == j && own[f].level == own[g].level && own[f].prefix == own[g].prefix
    ensures own[f].level == 4 && i < 256 ==> f == g
  {
    assert TableOwned(mem, own, f) && TableOwned(mem, own, g);
    assert SlotOwned(own, f, own[f], i, mem[f][i]) && SlotOwned(own, g, own[g], j, mem[g][j]);
  }

  // ── Writing one table ─────────────────────────────────────────────────────

  /** A table that the walk does not come to may hold anything. */
  lemma {:induction false} Unvisited(mem: Tables, own: Owners, g: Frame, level: nat, v: nat, f: Frame, t: Table)
    requires Owned(mem, own) && OnWalk(own, g, level, v)
    requires f !in own || own[f].level > level || Reach(mem, g, level, v, own[f].level) != Some(f)
    ensures Resolve(mem[f := t], g, level, v) == Resolve(mem, g, level, v)
    decreases level
  {
    StepDown(mem, own, g, level, v);
    var e := mem[g][Digit(v, level)];
    if e.IsPresent() && !EndsWalk(e, level) {
      Unvisited(mem, own, e.address, level - 1, v, f, t);
    }
  }

  /** Above a table nothing changes when it is rewritten. */
  lemma {:induction false} Visited(mem: Tables, own: Owners, g: Frame, level: nat, v: nat, f: Frame, t: Table)
    requires Owned(mem, own) && OnWalk(own, g, level, v) && f in own && own[f].level <= level
    requires Reach(mem, g, level, v, own[f].level) == Some(f)
    ensures Resolve(mem[f := t], g, level, v) == Resolve(mem[f := t], f, own[f].level, v)
    ensures Resolve(mem, g, level, v) == Resolve(mem, f, own[f].level, v)
    ensures OnWalk(own, f, own[f].level, v)
    decreases level
  {
    StepDown(mem, own, g, level, v);
    if own[f].level < level {
      Visited(mem, own, mem[g][Digit(v, level)].address, level - 1, v, f, t);
    }
  }

  /** Every walk, from any table on its way, ends in `m'` where it ended in `m`. */
  ghost predicate SameView(m: Tables, m': Tables, own: Owners) {
    forall g: Frame, v: nat :: g in own && own[g].prefix == High(v, own[g].level) ==>
                     Resolve(m', g, own[g].level, v) == Resolve(m, g, own[g].level, v)
  }

  function SetSlot(mem: Tables, f: Frame, i: nat, e: Entry): Tables
    requires f in mem && i < 512
  {
    mem[f := mem[f][i := e]]
  }

  predicate Through(mem: Tables, own: Owners, g: Frame, level: nat, v: nat, f: Frame, i: nat)
    requires f in own && 0 < own[f].level
  {
    own[f].level <= level && Reach(mem, g, level, v, own[f].level) == Some(f) && Digit(v, own[f].level) == i
  }

  /** Rewriting a slot leaves walks that do not pass through it alone. */
  lemma {:induction false} SlotElsewhere(mem: Tables, own: Owners, f: Frame, i: nat, e: Entry, g: Frame, level: nat,
                                         v: nat)
    requires Owned(mem, own) && OnWalk(own, g, level, v) && f in own && f in mem && i < 512
    requires 0 < own[f].level && !Through(mem, own, g, level, v, f, i)
    ensures Resolve(SetSlot(mem, f, i, e), g, level, v) == Resolve(mem, g, level, v)
  {
    var t := mem[f][i := e];
    var l := own[f].level;
    if l <= level && Reach(mem, g, level, v, l) == Some(f) {
      Visited(mem, own, g, level, v, f, t);
      StepDown(mem, own, f, l, v);
      var d := mem[f][Digit(v, l)];
      if d.IsPresent() && !EndsWalk(d, l) {
        Unvisited(mem, own, d.address, l - 1, v, f, t);
      }
    } else {
      Unvisited(mem, own, g, level, v, f, t);
    }
  }

  /** What a walk through the slot comes to. */
  lemma {:induction false} SlotHere(mem: Tables, own: Owners, f: Frame, i: nat, e: Entry, g: Frame, level: nat, v: nat)
    requires Owned(mem, own) && OnWalk(own, g, level, v) && f in own && f in mem && i < 512
    requires 0 < own[f].level && Through(mem, own, g, level, v, f, i)
    ensures var m' := SetSlot(mem, f, i, e);
            Resolve(m', g, level, v) ==
              if !e.IsPresent() then None
              else if EndsWalk(e, own[f].level) then Some(Leaf(e.address, own[f].level))
              else Resolve(m', e.address, own[f].level - 1, v)
    ensures Resolve(mem, g, level, v) == Resolve(mem, f, own[f].level, v)
  {
    Visited(mem, own, g, level, v, f, mem[f][i := e]);
  }

  // ── The four kinds of writes ──────────────────────────────────────────────

  /** Hanging a fresh empty table into an absent slot changes no translation. */
  lemma {:induction false} LinkTable(mem: Tables, own: Owners, f: Frame, i: nat, new_: Frame)
    requires Owned(mem, own) && f in own && f in mem && own[f].level >= 2 && i < 512
    requires !mem[f][i].IsPresent() && new_ !in own
    ensures var m' := SetSlot(mem[new_ := Zeroed()], f, i, Entry(new_, {Present}));
            && Owned(m', own[new_ := ChildPlace(f, own[f], i)])
            && SameView(mem, m', own)
  {
    assert TableOwned(mem, own, f);
    var m1 := mem[new_ := Zeroed()];
    var e := Entry(new_, {Present});
    var m' := SetSlot(m1, f, i, e);
    var own' := own[new_ := ChildPlace(f, own[f], i)];
    assert Owned(m1, own) by {
      forall g | g in own ensures TableOwned(m1, own, g) { assert TableOwned(mem, own, g); }
    }
    forall g | g in own' ensures TableOwned(m', own', g) {
      if g in own {
        assert TableOwned(m1, own, g);
        forall j | 0 <= j < 512 ensures SlotOwned(own', g, own'[g], j, m'[g][j]) {
          assert SlotOwned(own, g, own[g], j, m1[g][j]);
        }
      }
    }
    forall g: Frame, v: nat | g in own && own[g].prefix == High(v, own[g].level)
      ensures Resolve(m', g, own[g].level, v) == Resolve(mem, g, own[g].level, v)
    {
      var level := own[g].level;
      Unvisited(mem, own, g, level, v, new_, Zeroed());
      if Through(m1, own, g, level, v, f, i) {
        SlotHere(m1, own, f, i, e, g, level, v);
      } else {
        SlotElsewhere(m1, own, f, i, e, g, level, v);
      }
    }
  }

  /** The same place, presence and kind: only permissions differ. */
  predicate SameTarget(d: Entry, e: Entry) {
    d.address == e.address && d.IsPresent() == e.IsPresent() && d.IsHuge() == e.IsHuge()
  }

  lemma {:induction false} ReflagResolve(mem: Tables, f: Frame, i: nat, e: Entry, g: Frame, level: nat, v: nat)
    requires f in mem && i < 512 && SameTarget(mem[f][i], e)
    ensures Resolve(SetSlot(mem, f, i, e), g, level, v) == Resolve(mem, g, level, v)
    decreases level
  {
    if level > 0 && g in mem {
      ReflagResolve(mem, f, i, e, mem[g][Digit(v, level)].address, level - 1, v);
    }
  }

  /** Changing permissions changes no translation. */
  lemma {:induction false} Reflag(mem: Tables, own: Owners, f: Frame, i: nat, e: Entry)
    requires Owned(mem, own) && f in mem && i < 512 && SameTarget(mem[f][i], e)
    ensures Owned(SetSlot(mem, f, i, e), own) && SameView(mem, SetSlot(mem, f, i, e), own)
  {
    var m' := SetSlot(mem, f, i, e);
    forall g | g in own ensures TableOwned(m', own, g) {
      assert TableOwned(mem, own, g);
      forall j | 0 <= j < 512 ensures SlotOwned(own, g, own[g], j, m'[g][j]) {
        assert SlotOwned(own, g, own[g], j, mem[g][j]);
      }
    }
    forall g: Frame, v: nat | g in own && own[g].prefix == High(v, own[g].level)
      ensures Resolve(m', g, own[g].level, v) == Resolve(mem, g, own[g].level, v)
    {
      ReflagResolve(mem, f, i, e, g, own[g].level, v);
    }
  }

  /** A slot that ends walks, or is cleared, keeps the ownership of the others. */
  lemma {:induction false} EndSlot(mem: Tables, own: Owners, f: Frame, i: nat, e: Entry)
    requires Owned(mem, own) && f in own && f in mem && i < 512
    requires !e.IsPresent() || EndsWalk(e, own[f].level)
    ensures Owned(SetSlot(mem, f, i, e), own)
  {
    var m' := SetSlot(mem, f, i, e);
    forall g | g in own ensures TableOwned(m', own, g) {
      assert TableOwned(mem, own, g);
      forall j | 0 <= j < 512 ensures SlotOwned(own, g, own[g], j, m'[g][j]) {
        assert SlotOwned(own, g, own[g], j, mem[g][j]);
      }
    }
  }

  /** The digits of `v` from level `l` up decide the table of level `l`. */
  lemma {:induction false} ReachByDigits(mem: Tables, f: Frame, level: nat, v: nat, w: nat, l: nat)
    requires l <= level && High(v, l) == High(w, l)
    ensures Reach(mem, f, level, v, l) == Reach(mem, f, level, w, l)
    decreases level
  {
    if l < level && f in mem {
      SameDigits(v, w, l, level);
      ReachByDigits(mem, mem[f][Digit(v, level)].address, level - 1, v, w, l);
    }
  }

  lemma {:induction false} SameDigits(v: nat, w: nat, l: nat, level: nat)
    requires l < level && High(v, l) == High(w, l)
    ensures Digit(v, level) == Digit(w, level)
    decreases level
  {
    if l < level - 1 {
      SameDigits(v, w, l, level - 1);
      HighAgree(v, w, l, level - 1);
    }
  }

  lemma {:induction false} HighAgree(v: nat, w: nat, l: nat, level: nat)
    requires l <= level && High(v, l) == High(w, l)
    ensures High(v, level) == High(w, level)
    decreases level
  {
    if l < level {
      HighAgree(v, w, l, level - 1);
    }
  }

  /** Under one root no table has two parents. */
  lemma {:induction false} OneParentUnderRoot(mem: Tables, own: Owners, root: Frame, v: nat, l: nat, w: nat, m: nat)
    requires Owned(mem, own) && OnWalk(own, root, 4, v) && OnWalk(own, root, 4, w) && 1 <= l <= 4 && 1 <= m <= 4
    requires Reach(mem, root, 4, v, l).Some? && Reach(mem, root, 4, w, m).Some?
    requires var f, g := Reach(mem, root, 4, v, l).value, Reach(mem, root, 4, w, m).value;
             && f in mem && g in mem
             && mem[f][Digit(v, l)].IsPresent() && !EndsWalk(mem[f][Digit(v, l)], l)
             && mem[g][Digit(w, m)].IsPresent() && !EndsWalk(mem[g][Digit(w, m)], m)
             && mem[f][Digit(v, l)].address == mem[g][Digit(w, m)].address
    ensures Reach(mem, root, 4, v, l) == Reach(mem, root, 4, w, m) && Digit(v, l) == Digit(w, m)
  {
    ReachOwned(mem, own, root, 4, v, l);
    ReachOwned(mem, own, root, 4, w, m);
    OneParent(mem, own, Reach(mem, root, 4, v, l).value, Digit(v, l), Reach(mem, root, 4, w, m).value, Digit(w, m));
    ReachByDigits(mem, root, 4, v, w, l);
  }

  /** Tables met below the lower half belong to the root the walk began at. */
  lemma {:induction false} ReachSpace(mem: Tables, own: Owners, f: Frame, level: nat, v: nat, target: nat)
    requires Owned(mem, own) && OnWalk(own, f, level, v) && 1 <= target < level
    requires Reach(mem, f, level, v, target).Some?
    ensures Reach(mem, f, level, v, target).value in own
    ensures own[Reach(mem, f, level, v, target).value].space
         == if level < 4 then own[f].space else if Digit(v, 4) < 256 then Some(f) else None
    decreases level
  {
    ReachOwned(mem, own, f, level, v, target);
    StepDown(mem, own, f, level, v);
    var e := mem[f][Digit(v, level)];
    if target < level - 1 {
      ReachSpace(mem, own, e.address, level - 1, v, target);
    }
  }
}
