/** An address space as a flat map from page numbers to translations, over every run of maps and unmaps. */
module PageFlat {
  import opened Prelude
  import opened PageWalk
  import opened PageMap
  import opened PageCount

  /** What every mapped page translates to. */
  type Flat = map<nat, Leaf>

  ghost predicate Shows(st: State, root: Frame, m: Flat) {
    (forall v :: v in m ==> v < PAGES) && forall v: nat :: v < PAGES ==> ShowsAt(st, root, m, v)
  }

  predicate ShowsAt(st: State, root: Frame, m: Flat, v: nat) {
    At(st, root, v) == if v in m then Some(m[v]) else None
  }

  /** The flat map that the tables stand for. */
  ghost function FlatOf(st: State, root: Frame): Flat {
    map v: nat | v < PAGES && At(st, root, v).Some? :: At(st, root, v).value
  }

  lemma {:induction false} FlatUnique(st: State, root: Frame, m: Flat)
    ensures Shows(st, root, m) <==> m == FlatOf(st, root)
  {
    if Shows(st, root, m) {
      forall v: nat | v < PAGES ensures v in m <==> v in FlatOf(st, root) {
        assert ShowsAt(st, root, m, v);
      }
      forall v | v in m ensures m[v] == FlatOf(st, root)[v] {
        assert ShowsAt(st, root, m, v);
      }
      assert m.Keys == FlatOf(st, root).Keys;
    }
  }

  function OutcomeOf(frames: seq<Frame>, st: State, op: Op): Outcome {
    match op
    case MapPage(root, v, frame, pf) => Map(frames, st, root, v, frame, pf).outcome
    case UnmapPage(root, v) => Unmap(st, root, 4, v).outcome
  }

  /** An unmapped page goes as a whole, whatever its size. */
  function FlatStep(m: Flat, op: Op, outcome: Outcome): Flat {
    if outcome != Ok then m else
      match op
      case MapPage(_, v, frame, _) => m[v := Leaf(frame, 1)]
      case UnmapPage(_, v) =>
        if v in m && 0 < m[v].level then map w | w in m && !SamePage(v, w, m[v].level) :: m[w] else m
  }

  /** What the flat map has an operation answer; a map of a free page fails exactly if too few frames are left for the
      tables that are missing on the way. */
  predicate Answers(frames: seq<Frame>, st: State, m: Flat, op: Op, outcome: Outcome) {
    match op
    case MapPage(root, v, _, _) =>
      if v !in m then outcome == if Short(|frames|, st.n, Missing(st.tables, root, v, 4)) then Panicked else Ok
      else outcome == if m[v].level == 1 then AlreadyMapped else HugePageMapped
    case UnmapPage(_, v) =>
      if v !in m then outcome == NonExistentMapping
      else 0 < m[v].level && outcome == if Aligned(v, m[v].level - 1) then Ok else Panicked
  }

  /** The walk to a mapped page ends where the page is mapped. */
  lemma {:induction false} DescendMapped(frames: seq<Frame>, st: State, f: Frame, level: nat, v: nat, pf: PageFlags)
    requires 1 <= level && Resolve(st.tables, f, level, v).Some?
    ensures var d := Descend(frames, st, f, level, v, pf);
            if Resolve(st.tables, f, level, v).value.level == 1 then d.Reached? && d.table in d.st.tables
            else d.Blocked?
    decreases level
  {
    var i := Digit(v, level);
    var e := st.tables[f][i];
    if level > 1 && !EndsWalk(e, level) {
      ReflagResolve(st.tables, f, i, Propagate(e, pf), e.address, level - 1, v);
      DescendMapped(frames, State(SetSlot(st.tables, f, i, Propagate(e, pf)), st.n), e.address, level - 1, v, pf);
    }
  }

  lemma {:induction false} MapAnswers(frames: seq<Frame>, st: State, own: Owners, root: Frame, m: Flat, op: Op)
    requires Inv(frames, st, own) && IsRoot(own, root) && Shows(st, root, m)
    requires op.MapPage? && op.root == root && op.v < PAGES
    ensures Answers(frames, st, m, op, OutcomeOf(frames, st, op))
  {
    assert ShowsAt(st, root, m, op.v);
    if op.v in m {
      DescendMapped(frames, st, root, 4, op.v, op.pf);
      var own' := MapLemma(frames, st, own, root, op.v, op.frame, op.pf);
    } else {
      MapTakes(frames, st, own, root, op.v, op.frame, op.pf);
    }
  }

  lemma {:induction false} MapShows(frames: seq<Frame>, st: State, own: Owners, root: Frame, m: Flat,
                                    op: Op) returns (own': Owners)
    requires Inv(frames, st, own) && IsRoot(own, root) && Shows(st, root, m)
    requires op.MapPage? && op.root == root && op.v < PAGES
    ensures Inv(frames, Apply(frames, st, op), own') && IsRoot(own', root)
    ensures Shows(Apply(frames, st, op), root, FlatStep(m, op, OutcomeOf(frames, st, op)))
  {
    own' := MapLemma(frames, st, own, root, op.v, op.frame, op.pf);
    var st', m' := Apply(frames, st, op), FlatStep(m, op, OutcomeOf(frames, st, op));
    forall w: nat | w < PAGES ensures ShowsAt(st', root, m', w) {
      assert ShowsAt(st, root, m, w);
      RootOnWalk(st.tables, own, root, w);
      if OutcomeOf(frames, st, op) != Ok {
        assert Resolve(st'.tables, root, own[root].level, w) == Resolve(st.tables, root, own[root].level, w);
      }
    }
  }

  lemma {:induction false} UnmapShows(frames: seq<Frame>, st: State, own: Owners, root: Frame, m: Flat, op: Op)
    requires Inv(frames, st, own) && IsRoot(own, root) && Shows(st, root, m)
    requires op.UnmapPage? && op.root == root && op.v < PAGES
    ensures Answers(frames, st, m, op, OutcomeOf(frames, st, op))
    ensures Inv(frames, Apply(frames, st, op), own)
    ensures Shows(Apply(frames, st, op), root, FlatStep(m, op, OutcomeOf(frames, st, op)))
  {
    UnmapLemma(frames, st, own, root, op.v);
    var st', m' := Apply(frames, st, op), FlatStep(m, op, OutcomeOf(frames, st, op));
    assert ShowsAt(st, root, m, op.v);
    forall w: nat | w < PAGES ensures ShowsAt(st', root, m', w) {
      assert ShowsAt(st, root, m, w);
    }
  }

  function RunFlat(frames: seq<Frame>, st: State, m: Flat, ops: seq<Op>): Flat
    decreases |ops|
  {
    if ops == [] then m
    else RunFlat(frames, Apply(frames, st, ops[0]), FlatStep(m, ops[0], OutcomeOf(frames, st, ops[0])), ops[1..])
  }

  /** Every operation of the run answers as the flat map has it. */
  predicate RunAnswers(frames: seq<Frame>, st: State, m: Flat, ops: seq<Op>)
    decreases |ops|
  {
    ops != [] ==>
      var st', outcome := Apply(frames, st, ops[0]), OutcomeOf(frames, st, ops[0]);
      Answers(frames, st, m, ops[0], outcome) && RunAnswers(frames, st', FlatStep(m, ops[0], outcome), ops[1..])
  }

  lemma {:induction false} RunIsFlat(frames: seq<Frame>, st: State, own: Owners, root: Frame, m: Flat, ops: seq<Op>)
    requires Inv(frames, st, own) && IsRoot(own, root) && Shows(st, root, m)
    requires forall i :: 0 <= i < |ops| ==> ops[i].root == root && ops[i].v < PAGES
    ensures Shows(Run(frames, st, ops), root, RunFlat(frames, st, m, ops)) && RunAnswers(frames, st, m, ops)
    decreases |ops|
  {
    if ops != [] {
      var op, own' := ops[0], own;
      if op.MapPage? {
        MapAnswers(frames, st, own, root, m, op);
        own' := MapShows(frames, st, own, root, m, op);
      } else {
        UnmapShows(frames, st, own, root, m, op);
      }
      RunIsFlat(frames, Apply(frames, st, op), own', root, FlatStep(m, op, OutcomeOf(frames, st, op)), ops[1..]);
    }
  }

  /** From any state of the tables, every run of maps and unmaps translates pages as a flat map does
      that takes the same operations, and answers as that map has it. */
  lemma {:induction false} EveryRunIsFlat(frames: seq<Frame>, st: State, own: Owners, root: Frame, ops: seq<Op>)
    requires Inv(frames, st, own) && IsRoot(own, root)
    requires forall i :: 0 <= i < |ops| ==> ops[i].root == root && ops[i].v < PAGES
    ensures FlatOf(Run(frames, st, ops), root) == RunFlat(frames, st, FlatOf(st, root), ops)
    ensures RunAnswers(frames, st, FlatOf(st, root), ops)
  {
    FlatUnique(st, root, FlatOf(st, root));
    RunIsFlat(frames, st, own, root, FlatOf(st, root), ops);
    FlatUnique(Run(frames, st, ops), root, RunFlat(frames, st, FlatOf(st, root), ops));
  }

  /** A fresh root table is such a state, with nothing mapped. */
  lemma {:induction false} FreshSpace(frames: seq<Frame>, root: Frame)
    requires Distinct(frames) && root !in frames
    ensures var own := map[root := Place(Some(root), 4, 0)];
            Inv(frames, State(map[root := Zeroed()], 0), own) && IsRoot(own, root)
    ensures FlatOf(State(map[root := Zeroed()], 0), root) == map[]
  {
    var st := State(map[root := Zeroed()], 0);
    forall v: nat | v < PAGES ensures ShowsAt(st, root, map[], v) {
      assert Zeroed()[Digit(v, 4)] == EMPTY;
    }
    FlatUnique(st, root, map[]);
  }
}
