/** Black nodes on the paths of a tree of any colouring, and what each step of the delete fixup does to them. */
module RbCounts {
  import opened OrderedList
  import opened RbShape

  function Ones(c: Color): nat {
    if c == Black then 1 else 0
  }

  /** The number of black nodes on the path to each end of the tree, from left to right, below `k` others. */
  function Counts<K, V>(t: Tree<K, V>, k: nat): seq<nat> {
    if t.Nil? then [k] else Counts(t.left, k + Ones(t.color)) + Counts(t.right, k + Ones(t.color))
  }

  /** `near` on side `b` of `far`. */
  function Beside(b: Branch, near: seq<nat>, far: seq<nat>): seq<nat> {
    if b.Left? then near + far else far + near
  }

  lemma {:induction false} JoinCounts<K, V>(b: Branch, c: Color, near: Tree<K, V>, e: Entry<K, V>, far: Tree<K, V>,
                                            k: nat, m: nat)
    requires m == k + Ones(c)
    ensures Counts(Join(b, c, near, e, far), k) == Beside(b, Counts(near, m), Counts(far, m))
  {
  }

  lemma {:induction false} ChildCounts<K, V>(t: Tree<K, V>, b: Branch, k: nat, m: nat)
    requires t.Node? && m == k + Ones(t.color)
    ensures Counts(t, k) == Beside(b, Counts(Child(t, b), m), Counts(Child(t, b.Opposite()), m))
  {
  }

  /** Painting a node black adds one to its paths, painting it red takes one away. */
  lemma {:induction false} PaintCounts<K, V>(t: Tree<K, V>, k: nat)
    requires t.Node?
    ensures t.color == Red ==> Counts(Paint(t, Black), k) == Counts(t, k + 1)
    ensures t.color == Black ==> Counts(Paint(t, Red), k + 1) == Counts(t, k)
  {
  }

  lemma {:induction false} Reassociate(b: Branch, x: seq<nat>, y: seq<nat>, z: seq<nat>)
    ensures Beside(b, Beside(b, x, y), z) == Beside(b, x, Beside(b, y, z))
  {
  }

  /** Taking a red sibling above the parent keeps every path, if the parent was black; else each gains one. */
  lemma {:induction false} LoweredCounts<K, V>(ctx: Ctx<K, V>, t: Tree<K, V>, k: nat)
    requires ctx.In? && ColorOf(ctx.sibling) == Red
    ensures var l := Lowered(ctx);
            Counts(Join(l.up.branch, l.up.color, Join(l.branch, l.color, t, l.e, l.sibling), l.up.e, l.up.sibling), k)
              == Counts(Join(ctx.branch, ctx.color, t, ctx.e, ctx.sibling), k + 1 - Ones(ctx.color))
  {
    var b, w, l := ctx.branch, ctx.sibling, Lowered(ctx);
    var x, y, z := Counts(t, k + 1), Counts(Child(w, b), k + 1), Counts(Child(w, b.Opposite()), k + 1);
    JoinCounts(b, Black, Join(b, Red, t, l.e, l.sibling), l.up.e, l.up.sibling, k, k + 1);
    JoinCounts(b, Red, t, l.e, l.sibling, k + 1, k + 1);
    JoinCounts(b, ctx.color, t, ctx.e, w, k + 1 - Ones(ctx.color), k + 1);
    ChildCounts(w, b, k + 1, k + 1);
    Reassociate(b, x, y, z);
  }

  /** Making a black sibling ready for the last round keeps its paths, and leaves its child on the side of the focus
      red. */
  lemma {:induction false} ReadiedCounts<K, V>(ctx: Ctx<K, V>, k: nat)
    requires ctx.In? && ctx.sibling.Node? && ctx.sibling.color == Black
    requires ColorOf(Inner(ctx)) == Red || ColorOf(Outer(ctx)) == Red
    ensures Counts(Readied(ctx), k) == Counts(ctx.sibling, k) && Readied(ctx).color == Black
    ensures ColorOf(Child(Readied(ctx), ctx.branch)) == Red
  {
    var b, w := ctx.branch, ctx.sibling;
    if ColorOf(Inner(ctx)) == Black {
      var o := Outer(ctx);
      var x, y := Counts(Inner(ctx), k + 1), Counts(Child(o, b), k + 1);
      var z := Counts(Child(o, b.Opposite()), k + 1);
      JoinCounts(b, Black, Join(b, Red, Inner(ctx), w.e, Child(o, b)), o.e, Child(o, b.Opposite()), k, k + 1);
      JoinCounts(b, Red, Inner(ctx), w.e, Child(o, b), k + 1, k + 1);
      ChildCounts(w, b, k, k + 1);
      ChildCounts(o, b, k + 1, k + 1);
      Reassociate(b, x, y, z);
    }
  }

  /**
   * The last round, next to a black sibling. Every path through the focus gains the black node it lacked. But of the
   * paths through the sibling those nearer to the focus gain one too, and the others lose one: the round does not
   * keep the paths beside the focus.
   */
  lemma {:induction false} BorrowedCounts<K, V>(ctx: Ctx<K, V>, t: Tree<K, V>, k: nat, p: nat)
    requires ctx.In? && ctx.sibling.Node? && ctx.sibling.color == Black && p == k + Ones(ctx.color)
    requires ColorOf(Inner(ctx)) == Red || ColorOf(Outer(ctx)) == Red
    ensures var b, w := ctx.branch, Readied(ctx);
            var near, far := Child(w, b), Child(w, b.Opposite());
            && Counts(Join(b, ctx.color, t, ctx.e, ctx.sibling), k)
                 == Beside(b, Counts(t, p), Beside(b, Counts(near, p + 1), Counts(far, p + 1)))
            && Counts(Borrowed(ctx, t), k)
                 == Beside(b, Counts(t, p + 1), Beside(b, Counts(near, p + 2), Counts(far, p)))
  {
    var b, w := ctx.branch, Readied(ctx);
    var near, far := Child(w, b), Child(w, b.Opposite());
    ReadiedCounts(ctx, p);
    ChildCounts(w, b, p, p + 1);
    JoinCounts(b, ctx.color, t, ctx.e, ctx.sibling, k, p);
    JoinCounts(b, ctx.color, Join(b, Black, t, ctx.e, Paint(near, Black)), w.e, far, k, p);
    JoinCounts(b, Black, t, ctx.e, Paint(near, Black), p, p + 1);
    PaintCounts(near, p + 1);
    Reassociate(b, Counts(t, p + 1), Counts(near, p + 2), Counts(far, p));
  }

  /** Painting the sibling red keeps the paths through the focus and takes one from those beside it. */
  lemma {:induction false} RecoloredCounts<K, V>(ctx: Ctx<K, V>, t: Tree<K, V>, k: nat)
    requires ctx.In? && ctx.sibling.Node? && ctx.sibling.color == Black
    ensures var p := k + Ones(ctx.color);
            Counts(Join(ctx.branch, ctx.color, t, ctx.e, Paint(ctx.sibling, Red)), k + 1)
              == Beside(ctx.branch, Counts(t, p + 1), Counts(ctx.sibling, p))
  {
    var p := k + Ones(ctx.color);
    JoinCounts(ctx.branch, ctx.color, t, ctx.e, Paint(ctx.sibling, Red), k + 1, p + 1);
    PaintCounts(ctx.sibling, p);
  }
}
