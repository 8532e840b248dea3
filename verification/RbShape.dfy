/** The red-black tree as a value: shapes, the path from a node to the root, and
    what the two fixups do to them.

    A position in the tree is a focus `t` together with a `Ctx`, the path from the
    focus up to the root with the sibling subtrees hanging off it. The pointer
    code of `RbTree` climbs such a path; the functions here say what it makes of
    the tree. `Branch` plays the same part as in the source: one case is written
    and mirrored by side. */
module RbShape {
  import opened Arithmetic
  import opened OrderedList

  datatype Color = Red | Black

  datatype Branch = Left | Right {
    function Opposite(): Branch {
      if Left? then Right else Left
    }
  }

  datatype Tree<K, V> =
    | Nil
    | Node(color: Color, left: Tree<K, V>, e: Entry<K, V>, right: Tree<K, V>)

  /** Path from a focus to the root; `branch` is the side of the entry the focus is on. */
  datatype Ctx<K, V> =
    | Top
    | In(branch: Branch, up: Ctx<K, V>, color: Color, e: Entry<K, V>, sibling: Tree<K, V>)

  // ── Shapes ────────────────────────────────────────────────────────────────

  function ColorOf<K, V>(t: Tree<K, V>): Color {
    if t.Nil? then Black else t.color
  }

  /** The node of `e` with `near` on side `b` and `far` on the other. */
  function Join<K, V>(b: Branch, c: Color, near: Tree<K, V>, e: Entry<K, V>, far: Tree<K, V>): Tree<K, V> {
    if b.Left? then Node(c, near, e, far) else Node(c, far, e, near)
  }

  function Child<K, V>(t: Tree<K, V>, b: Branch): Tree<K, V>
    requires t.Node?
  {
    if b.Left? then t.left else t.right
  }

  function Plug<K, V>(ctx: Ctx<K, V>, t: Tree<K, V>): Tree<K, V>
    decreases ctx
  {
    match ctx
    case Top => t
    case In(b, up, c, e, s) => Plug(up, Join(b, c, t, e, s))
  }

  /** The path `inner` continued by the path `outer`. */
  function Append<K, V>(inner: Ctx<K, V>, outer: Ctx<K, V>): Ctx<K, V> {
    match inner
    case Top => outer
    case In(b, up, c, e, s) => In(b, Append(up, outer), c, e, s)
  }

  function Paint<K, V>(t: Tree<K, V>, c: Color): Tree<K, V> {
    if t.Nil? then Nil else t.(color := c)
  }

  lemma {:induction false} AppendPlug<K, V>(inner: Ctx<K, V>, outer: Ctx<K, V>, t: Tree<K, V>)
    ensures Plug(Append(inner, outer), t) == Plug(outer, Plug(inner, t))
    decreases inner
  {
    match inner
    case Top =>
    case In(b, up, c, e, s) => AppendPlug(up, outer, Join(b, c, t, e, s));
  }

  // ── In-order traversal ────────────────────────────────────────────────────

  /** The entries of `t` in order, followed by `rest`. */
  function Flat<K, V>(t: Tree<K, V>, rest: List<Entry<K, V>>): List<Entry<K, V>>
    decreases t
  {
    if t.Nil? then rest else Flat(t.left, Cons(t.e, Flat(t.right, rest)))
  }

  function Entries<K, V>(t: Tree<K, V>): List<Entry<K, V>> {
    Flat(t, End)
  }

  /** The entries right of the focus, followed by `rest`. */
  function Post<K, V>(ctx: Ctx<K, V>, rest: List<Entry<K, V>> := End): List<Entry<K, V>>
    decreases ctx
  {
    match ctx
    case Top => rest
    case In(b, up, _, e, s) => if b.Left? then Cons(e, Flat(s, Post(up, rest))) else Post(up, rest)
  }

  /** The entries left of the focus, followed by `rest`. */
  function Pre<K, V>(ctx: Ctx<K, V>, rest: List<Entry<K, V>>): List<Entry<K, V>>
    decreases ctx
  {
    match ctx
    case Top => rest
    case In(b, up, _, e, s) => if b.Left? then Pre(up, rest) else Pre(up, Flat(s, Cons(e, rest)))
  }

  lemma {:induction false} PlugFlat<K, V>(ctx: Ctx<K, V>, t: Tree<K, V>)
    ensures Entries(Plug(ctx, t)) == Pre(ctx, Flat(t, Post(ctx)))
    decreases ctx
  {
    match ctx
    case Top =>
    case In(b, up, c, e, s) => PlugFlat(up, Join(b, c, t, e, s));
  }

  lemma {:induction false} FlatLength<K, V>(t: Tree<K, V>, rest: List<Entry<K, V>>)
    ensures Length(Flat(t, rest)) == Size(t) + Length(rest)
    decreases t
  {
    if t.Node? {
      FlatLength(t.left, Cons(t.e, Flat(t.right, rest)));
      FlatLength(t.right, rest);
    }
  }

  lemma {:induction false} FlatKeys<K, V>(t: Tree<K, V>, rest: List<Entry<K, V>>)
    ensures Keys(Flat(t, rest)) == Keys(Entries(t)) + Keys(rest)
    decreases t
  {
    if t.Node? {
      FlatKeys(t.right, rest);
      FlatKeys(t.left, Cons(t.e, Flat(t.right, rest)));
      FlatKeys(t.left, Cons(t.e, Flat(t.right, End)));
    }
  }

  /** Which key sits in a node of which colour. */
  ghost function Painted<K, V>(t: Tree<K, V>): set<(K, Color)> {
    if t.Nil? then {} else Painted(t.left) + {(t.e.key, t.color)} + Painted(t.right)
  }

  /** The keys of `t` in ascending order, each with the colour of its node. */
  ghost predicate Visited<K, V>(t: Tree<K, V>, keys: seq<K>, colors: seq<Color>) {
    keys == Keys(Entries(t)) && |colors| == |keys| && forall i :: 0 <= i < |keys| ==> (keys[i], colors[i]) in Painted(t)
  }

  lemma {:induction false} VisitedNode<K, V>(t: Tree<K, V>, l: seq<K>, lc: seq<Color>, r: seq<K>, rc: seq<Color>)
    requires t.Node? && Visited(t.left, l, lc) && Visited(t.right, r, rc)
    ensures Visited(t, l + [t.e.key] + r, lc + [t.color] + rc)
  {
    FlatKeys(t.left, Cons(t.e, Entries(t.right)));
    var keys, colors := l + [t.e.key] + r, lc + [t.color] + rc;
    forall i | 0 <= i < |keys| ensures (keys[i], colors[i]) in Painted(t) {
      if i < |l| {
        assert (l[i], lc[i]) in Painted(t.left);
      } else if i > |l| {
        assert (r[i - |l| - 1], rc[i - |l| - 1]) in Painted(t.right);
      }
    }
  }

  // ── Key order ─────────────────────────────────────────────────────────────

  ghost predicate TreeBelow<K, V>(lt: (K, K) -> bool, t: Tree<K, V>, k: K) {
    t.Nil? || (lt(t.e.key, k) && TreeBelow(lt, t.left, k) && TreeBelow(lt, t.right, k))
  }

  ghost predicate TreeAbove<K, V>(lt: (K, K) -> bool, t: Tree<K, V>, k: K) {
    t.Nil? || (lt(k, t.e.key) && TreeAbove(lt, t.left, k) && TreeAbove(lt, t.right, k))
  }

  /** Every key on the path left of the focus is below `k`. */
  ghost predicate CtxBelow<K, V>(lt: (K, K) -> bool, ctx: Ctx<K, V>, k: K) {
    ctx.Top? || (CtxBelow(lt, ctx.up, k) && (ctx.branch.Right? ==> lt(ctx.e.key, k) && TreeBelow(lt, ctx.sibling, k)))
  }

  /** The nearest key right of the focus is above `k`. */
  ghost predicate NextAbove<K, V>(lt: (K, K) -> bool, l: List<Entry<K, V>>, k: K) {
    l.Cons? ==> lt(k, l.head.key)
  }

  lemma {:induction false} BelowFromSorted<K(!new), V>(lt: (K, K) -> bool, t: Tree<K, V>, rest: List<Entry<K, V>>, k: K)
    requires StrictTotalOrder(lt) && Sorted(lt, Flat(t, rest))
    ensures Sorted(lt, rest)
    ensures rest.Cons? && (rest.head.key == k || lt(rest.head.key, k)) ==> TreeBelow(lt, t, k)
    ensures AllAbove(lt, Flat(t, rest), k) ==> AllAbove(lt, rest, k) && TreeAbove(lt, t, k)
    decreases t
  {
    if t.Node? {
      BelowFromSorted(lt, t.left, Cons(t.e, Flat(t.right, rest)), t.e.key);
      BelowFromSorted(lt, t.left, Cons(t.e, Flat(t.right, rest)), k);
      BelowFromSorted(lt, t.right, rest, t.e.key);
      BelowFromSorted(lt, t.right, rest, k);
    }
  }

  lemma {:induction false} SortedSuffix<K(!new), V>(lt: (K, K) -> bool, ctx: Ctx<K, V>, rest: List<Entry<K, V>>)
    requires StrictTotalOrder(lt) && Sorted(lt, Pre(ctx, rest))
    ensures Sorted(lt, rest)
    decreases ctx
  {
    if ctx.In? {
      if ctx.branch.Left? {
        SortedSuffix(lt, ctx.up, rest);
      } else {
        SortedSuffix(lt, ctx.up, Flat(ctx.sibling, Cons(ctx.e, rest)));
        BelowFromSorted(lt, ctx.sibling, Cons(ctx.e, rest), ctx.e.key);
      }
    }
  }

  // ── Insertion ─────────────────────────────────────────────────────────────

  /** Climbs from the red node `t`: the loop of the insert fixup, then the root painted black. */
  function InsertFix<K, V>(ctx: Ctx<K, V>, t: Tree<K, V>): Tree<K, V>
    requires t.Node?
    decreases ctx
  {
    if ctx.Top? || ctx.color == Black || ctx.up.Top? then
      Paint(Plug(ctx, t), Black)
    else if ColorOf(ctx.up.sibling) == Red then
      InsertFix(ctx.up.up, Recolored(ctx, t))
    else
      Paint(Plug(ctx.up.up, Rotated(ctx, t)), Black)
  }

  /** Red uncle: parent and uncle black, grandparent red. */
  function Recolored<K, V>(ctx: Ctx<K, V>, t: Tree<K, V>): Tree<K, V>
    requires ctx.In? && ctx.up.In?
  {
    var g := ctx.up;
    Join(g.branch, Red, Join(ctx.branch, Black, t, ctx.e, ctx.sibling), g.e, Paint(g.sibling, Black))
  }

  /** Black uncle: a bent path is straightened first, then the grandparent comes down. */
  function Rotated<K, V>(ctx: Ctx<K, V>, t: Tree<K, V>): Tree<K, V>
    requires ctx.In? && ctx.up.In? && t.Node?
  {
    var g := ctx.up;
    var b := g.branch;
    if ctx.branch != b then
      Join(b, Black, Join(b, ctx.color, ctx.sibling, ctx.e, Child(t, b)), t.e,
           Join(b, Red, Child(t, b.Opposite()), g.e, g.sibling))
    else
      Join(b, Black, t, ctx.e, Join(b, Red, ctx.sibling, g.e, g.sibling))
  }

  /** Descends from `t`, then overwrites the value found or hangs a red leaf and fixes up. */
  function InsertAt<K(==), V>(lt: (K, K) -> bool, ctx: Ctx<K, V>, t: Tree<K, V>, e: Entry<K, V>): Tree<K, V>
    decreases t
  {
    if t.Nil? then InsertFix(ctx, Node(Red, Nil, e, Nil))
    else if e.key == t.e.key then Plug(ctx, t.(e := t.e.(value := e.value)))
    else if lt(e.key, t.e.key) then InsertAt(lt, In(Left, ctx, t.color, t.e, t.right), t.left, e)
    else InsertAt(lt, In(Right, ctx, t.color, t.e, t.left), t.right, e)
  }

  lemma {:induction false} InsertFixFlat<K, V>(ctx: Ctx<K, V>, t: Tree<K, V>)
    requires t.Node?
    ensures Entries(InsertFix(ctx, t)) == Pre(ctx, Flat(t, Post(ctx)))
    decreases ctx
  {
    if ctx.Top? || ctx.color == Black || ctx.up.Top? {
      PlugFlat(ctx, t);
    } else if ColorOf(ctx.up.sibling) == Red {
      InsertFixFlat(ctx.up.up, Recolored(ctx, t));
    } else {
      PlugFlat(ctx.up.up, Rotated(ctx, t));
    }
  }

  /** Entries left of the place of `e` are stepped over. */
  lemma {:induction false} InsertPastTree<K(!new), V>(lt: (K, K) -> bool, t: Tree<K, V>, rest: List<Entry<K, V>>,
                                                      e: Entry<K, V>)
    requires StrictTotalOrder(lt) && TreeBelow(lt, t, e.key)
    ensures InsertList(lt, Flat(t, rest), e) == Flat(t, InsertList(lt, rest, e))
    decreases t
  {
    if t.Node? {
      InsertPastTree(lt, t.left, Cons(t.e, Flat(t.right, rest)), e);
      InsertPastTree(lt, t.right, rest, e);
    }
  }

  lemma {:induction false} InsertPastCtx<K(!new), V>(lt: (K, K) -> bool, ctx: Ctx<K, V>, rest: List<Entry<K, V>>,
                                                     e: Entry<K, V>)
    requires StrictTotalOrder(lt) && CtxBelow(lt, ctx, e.key)
    ensures InsertList(lt, Pre(ctx, rest), e) == Pre(ctx, InsertList(lt, rest, e))
    decreases ctx
  {
    if ctx.In? {
      if ctx.branch.Left? {
        InsertPastCtx(lt, ctx.up, rest, e);
      } else {
        InsertPastCtx(lt, ctx.up, Flat(ctx.sibling, Cons(ctx.e, rest)), e);
        InsertPastTree(lt, ctx.sibling, Cons(ctx.e, rest), e);
      }
    }
  }

  /** The tree insertion refines insertion into the ordered list of its entries. */
  lemma {:induction false} InsertRefines<K(!new), V>(lt: (K, K) -> bool, ctx: Ctx<K, V>, t: Tree<K, V>, e: Entry<K, V>)
    requires StrictTotalOrder(lt) && Sorted(lt, Pre(ctx, Flat(t, Post(ctx))))
    requires CtxBelow(lt, ctx, e.key) && NextAbove(lt, Post(ctx), e.key)
    ensures Entries(InsertAt(lt, ctx, t, e)) == InsertList(lt, Pre(ctx, Flat(t, Post(ctx))), e)
    decreases t
  {
    InsertPastCtx(lt, ctx, Flat(t, Post(ctx)), e);
    if t.Nil? {
      InsertFixFlat(ctx, Node(Red, Nil, e, Nil));
    } else {
      var rest := Cons(t.e, Flat(t.right, Post(ctx)));
      SortedSuffix(lt, ctx, Flat(t, Post(ctx)));
      if e.key == t.e.key {
        BelowFromSorted(lt, t.left, rest, e.key);
        InsertPastTree(lt, t.left, rest, e);
        PlugFlat(ctx, t.(e := t.e.(value := e.value)));
      } else if lt(e.key, t.e.key) {
        InsertRefines(lt, In(Left, ctx, t.color, t.e, t.right), t.left, e);
      } else {
        BelowFromSorted(lt, t.left, rest, e.key);
        InsertRefines(lt, In(Right, ctx, t.color, t.e, t.left), t.right, e);
      }
    }
  }

  // ── Search ────────────────────────────────────────────────────────────────

  /** The path is the one a search for `k` takes. */
  ghost predicate OnPath<K, V>(lt: (K, K) -> bool, ctx: Ctx<K, V>, k: K) {
    ctx.In? ==> k != ctx.e.key && (ctx.branch.Left? <==> lt(k, ctx.e.key)) && OnPath(lt, ctx.up, k)
  }

  lemma {:induction false} InsertSteps<K, V>(lt: (K, K) -> bool, ctx: Ctx<K, V>, t: Tree<K, V>, e: Entry<K, V>)
    requires OnPath(lt, ctx, e.key)
    ensures InsertAt(lt, Top, Plug(ctx, t), e) == InsertAt(lt, ctx, t, e)
    decreases ctx
  {
    if ctx.In? {
      InsertSteps(lt, ctx.up, Join(ctx.branch, ctx.color, t, ctx.e, ctx.sibling), e);
    }
  }

  lemma {:induction false} RemoveSteps<K, V>(lt: (K, K) -> bool, ctx: Ctx<K, V>, t: Tree<K, V>, k: K)
    requires OnPath(lt, ctx, k)
    ensures RemoveAt(lt, Top, Plug(ctx, t), k) == RemoveAt(lt, ctx, t, k)
    decreases ctx
  {
    if ctx.In? {
      RemoveSteps(lt, ctx.up, Join(ctx.branch, ctx.color, t, ctx.e, ctx.sibling), k);
    }
  }

  /** A search leaves smaller keys on its left and larger keys on its right. */
  lemma {:induction false} PathSeparates<K(!new), V>(lt: (K, K) -> bool, ctx: Ctx<K, V>, t: Tree<K, V>, k: K)
    requires StrictTotalOrder(lt) && OnPath(lt, ctx, k) && Sorted(lt, Entries(Plug(ctx, t)))
    ensures Sorted(lt, Flat(t, Post(ctx))) && CtxBelow(lt, ctx, k) && AllAbove(lt, Post(ctx), k)
    decreases ctx
  {
    if ctx.In? {
      PathSeparates(lt, ctx.up, Join(ctx.branch, ctx.color, t, ctx.e, ctx.sibling), k);
      if ctx.branch.Left? {
        BelowFromSorted(lt, t, Post(ctx), k);
        AboveTransitive(lt, Post(ctx).tail, ctx.e.key, k);
      } else {
        BelowFromSorted(lt, ctx.sibling, Cons(ctx.e, Flat(t, Post(ctx))), k);
      }
    }
  }

  lemma {:induction false} MapPastTree<K(!new), V>(lt: (K, K) -> bool, t: Tree<K, V>, rest: List<Entry<K, V>>, k: K)
    requires StrictTotalOrder(lt) && TreeBelow(lt, t, k)
    ensures k in MapOf(Flat(t, rest)) <==> k in MapOf(rest)
    ensures k in MapOf(rest) ==> MapOf(Flat(t, rest))[k] == MapOf(rest)[k]
    decreases t
  {
    if t.Node? {
      MapPastTree(lt, t.left, Cons(t.e, Flat(t.right, rest)), k);
      MapPastTree(lt, t.right, rest, k);
    }
  }

  lemma {:induction false} MapPastCtx<K(!new), V>(lt: (K, K) -> bool, ctx: Ctx<K, V>, rest: List<Entry<K, V>>, k: K)
    requires StrictTotalOrder(lt) && CtxBelow(lt, ctx, k)
    ensures k in MapOf(Pre(ctx, rest)) <==> k in MapOf(rest)
    ensures k in MapOf(rest) ==> MapOf(Pre(ctx, rest))[k] == MapOf(rest)[k]
    decreases ctx
  {
    if ctx.In? {
      if ctx.branch.Left? {
        MapPastCtx(lt, ctx.up, rest, k);
      } else {
        MapPastCtx(lt, ctx.up, Flat(ctx.sibling, Cons(ctx.e, rest)), k);
        MapPastTree(lt, ctx.sibling, Cons(ctx.e, rest), k);
      }
    }
  }

  /** A search that ends at a node with the key finds its value, one that falls off the tree proves it absent. */
  lemma {:induction false} SearchDecides<K(!new), V>(lt: (K, K) -> bool, ctx: Ctx<K, V>, t: Tree<K, V>, k: K)
    requires StrictTotalOrder(lt) && OnPath(lt, ctx, k) && Sorted(lt, Entries(Plug(ctx, t)))
    requires t.Node? ==> t.e.key == k
    ensures k in MapOf(Entries(Plug(ctx, t))) <==> t.Node?
    ensures t.Node? ==> MapOf(Entries(Plug(ctx, t)))[k] == t.e.value
  {
    PathSeparates(lt, ctx, t, k);
    PlugFlat(ctx, t);
    MapPastCtx(lt, ctx, Flat(t, Post(ctx)), k);
    if t.Node? {
      var rest := Cons(t.e, Flat(t.right, Post(ctx)));
      BelowFromSorted(lt, t.left, rest, k);
      MapPastTree(lt, t.left, rest, k);
    } else {
      AboveAbsent(lt, Post(ctx), k);
    }
  }

  // ── Balance ───────────────────────────────────────────────────────────────

  function BlackHeight<K, V>(t: Tree<K, V>): nat {
    if t.Nil? then 0 else BlackHeight(t.left) + (if t.color == Black then 1 else 0)
  }

  function Height<K, V>(t: Tree<K, V>): nat {
    if t.Nil? then 0 else 1 + (if Height(t.left) < Height(t.right) then Height(t.right) else Height(t.left))
  }

  function Size<K, V>(t: Tree<K, V>): nat {
    if t.Nil? then 0 else Size(t.left) + 1 + Size(t.right)
  }

  /** No red node has a red child, and all paths down carry equally many black nodes. */
  predicate Balanced<K, V>(t: Tree<K, V>) {
    t.Node? ==>
      && Balanced(t.left) && Balanced(t.right)
      && BlackHeight(t.left) == BlackHeight(t.right)
      && (t.color == Red ==> ColorOf(t.left) == Black && ColorOf(t.right) == Black)
  }

  predicate RedBlack<K, V>(t: Tree<K, V>) {
    ColorOf(t) == Black && Balanced(t)
  }

  /** A path that a balanced subtree of black height `n` completes to a red-black tree. */
  predicate Fits<K, V>(ctx: Ctx<K, V>, n: nat) {
    ctx.In? ==>
      && Balanced(ctx.sibling) && BlackHeight(ctx.sibling) == n
      && (ctx.color == Red ==> ColorOf(ctx.sibling) == Black && ctx.up.In? && ctx.up.color == Black)
      && Fits(ctx.up, n + if ctx.color == Black then 1 else 0)
  }

  predicate RedAllowed<K, V>(ctx: Ctx<K, V>) {
    ctx.In? && ctx.color == Black
  }

  lemma {:induction false} PlugRedBlack<K, V>(ctx: Ctx<K, V>, t: Tree<K, V>)
    ensures RedBlack(Plug(ctx, t))
       <==> Balanced(t) && Fits(ctx, BlackHeight(t)) && (ColorOf(t) == Red ==> RedAllowed(ctx))
    decreases ctx
  {
    if ctx.In? {
      PlugRedBlack(ctx.up, Join(ctx.branch, ctx.color, t, ctx.e, ctx.sibling));
    }
  }

  lemma {:induction false} InsertFixRedBlack<K, V>(ctx: Ctx<K, V>, t: Tree<K, V>)
    requires ColorOf(t) == Red && Balanced(t) && Fits(ctx, BlackHeight(t))
    ensures RedBlack(InsertFix(ctx, t))
    decreases ctx
  {
    if ctx.Top? || ctx.color == Black {
      PlugRedBlack(ctx, t);
    } else if ColorOf(ctx.up.sibling) == Red {
      InsertFixRedBlack(ctx.up.up, Recolored(ctx, t));
    } else {
      PlugRedBlack(ctx.up.up, Rotated(ctx, t));
    }
  }

  /** Insertion into any red-black tree gives a red-black tree. */
  lemma {:induction false} InsertRedBlack<K, V>(lt: (K, K) -> bool, ctx: Ctx<K, V>, t: Tree<K, V>, e: Entry<K, V>)
    requires RedBlack(Plug(ctx, t))
    ensures RedBlack(InsertAt(lt, ctx, t, e))
    decreases t
  {
    PlugRedBlack(ctx, t);
    if t.Nil? {
      InsertFixRedBlack(ctx, Node(Red, Nil, e, Nil));
    } else if e.key == t.e.key {
      PlugRedBlack(ctx, t.(e := t.e.(value := e.value)));
    } else if lt(e.key, t.e.key) {
      InsertRedBlack(lt, In(Left, ctx, t.color, t.e, t.right), t.left, e);
    } else {
      InsertRedBlack(lt, In(Right, ctx, t.color, t.e, t.left), t.right, e);
    }
  }

  function Pow2(n: nat): nat {
    if n == 0 then 1 else 2 * Pow2(n - 1)
  }

  lemma {:induction false} Pow2Sum(a: nat, b: nat)
    ensures Pow2(a + b) == Pow2(a) * Pow2(b)
  {
    if a > 0 {
      Pow2Sum(a - 1, b);
      assert Pow2(a + b) == 2 * (Pow2(a - 1) * Pow2(b));
    }
  }

  lemma {:induction false} Pow2Monotone(a: nat, b: nat)
    requires a <= b
    ensures 1 <= Pow2(a) <= Pow2(b)
  {
    if b > 0 {
      Pow2Monotone(if a < b then a else a - 1, b - 1);
    }
  }

  lemma {:induction false} BlackHeightFillsTree<K, V>(t: Tree<K, V>)
    requires Balanced(t)
    ensures Pow2(BlackHeight(t)) <= Size(t) + 1
  {
    if t.Node? {
      BlackHeightFillsTree(t.left);
      BlackHeightFillsTree(t.right);
    }
  }

  lemma {:induction false} BlackHeightBoundsHeight<K, V>(t: Tree<K, V>)
    requires Balanced(t)
    ensures Height(t) <= 2 * BlackHeight(t) + (if ColorOf(t) == Red then 1 else 0)
  {
    if t.Node? {
      BlackHeightBoundsHeight(t.left);
      BlackHeightBoundsHeight(t.right);
    }
  }

  /** 2^height <= (n + 1)^2: the height of a red-black tree is at most 2 log2(n + 1). */
  lemma {:induction false} HeightBound<K, V>(t: Tree<K, V>)
    requires RedBlack(t)
    ensures Pow2(Height(t)) <= (Size(t) + 1) * (Size(t) + 1)
  {
    BlackHeightFillsTree(t);
    BlackHeightBoundsHeight(t);
    var b := BlackHeight(t);
    Pow2Monotone(Height(t), b + b);
    Pow2Sum(b, b);
    SquareMonotone(Pow2(b), Size(t) + 1);
  }

  // ── Removal ───────────────────────────────────────────────────────────────

  function Depth<K, V>(ctx: Ctx<K, V>): nat {
    if ctx.Top? then 0 else 1 + Depth(ctx.up)
  }

  /** Red sibling: it turns black and is rotated above the parent, which turns red. */
  function Lowered<K, V>(ctx: Ctx<K, V>): Ctx<K, V>
    requires ctx.In? && ctx.sibling.Node?
  {
    var b, w := ctx.branch, ctx.sibling;
    In(b, In(b, ctx.up, Black, w.e, Child(w, b.Opposite())), Red, ctx.e, Child(w, b))
  }

  /** The nephew that the source calls far: the one on the side of the extra black. */
  function Inner<K, V>(ctx: Ctx<K, V>): Tree<K, V>
    requires ctx.In?
  {
    if ctx.sibling.Nil? then Nil else Child(ctx.sibling, ctx.branch)
  }

  /** The nephew that the source calls near: the one away from the extra black. */
  function Outer<K, V>(ctx: Ctx<K, V>): Tree<K, V>
    requires ctx.In?
  {
    if ctx.sibling.Nil? then Nil else Child(ctx.sibling, ctx.branch.Opposite())
  }

  /** The sibling made ready: a red outer nephew with a black inner one is rotated up. */
  function Readied<K, V>(ctx: Ctx<K, V>): Tree<K, V>
    requires ctx.In? && (Inner(ctx).Node? || Outer(ctx).Node?)
    requires ColorOf(Inner(ctx)) == Black ==> Outer(ctx).Node?
    ensures Readied(ctx).Node?
  {
    var b, w := ctx.branch, ctx.sibling;
    if ColorOf(Inner(ctx)) == Black then
      Join(b, Black, Join(b, Red, Inner(ctx), w.e, Child(Outer(ctx), b)), Outer(ctx).e, Child(Outer(ctx), b.Opposite()))
    else
      w
  }

  /** The last round: the sibling takes the place and colour of the parent. */
  function Borrowed<K, V>(ctx: Ctx<K, V>, t: Tree<K, V>): Tree<K, V>
    requires ctx.In? && (ColorOf(Inner(ctx)) == Red || ColorOf(Outer(ctx)) == Red)
  {
    var b, w := ctx.branch, Readied(ctx);
    Join(b, ctx.color, Join(b, Black, t, ctx.e, Paint(Child(w, b), Black)), w.e, Child(w, b.Opposite()))
  }

  /** Climbs from the extra black node `t`: the loop of the delete fixup, then the last node painted black. */
  function DeleteFix<K, V>(ctx: Ctx<K, V>, t: Tree<K, V>): Tree<K, V>
    requires t.Node?
    decreases if t.color == Red then 0 else 1 + Depth(ctx)
  {
    if ctx.Top? || t.color == Red then
      Plug(ctx, Paint(t, Black))
    else
      var c := if ColorOf(ctx.sibling) == Red then Lowered(ctx) else ctx;
      if ColorOf(Inner(c)) == Black && ColorOf(Outer(c)) == Black then
        DeleteFix(c.up, Join(c.branch, c.color, t, c.e, Paint(c.sibling, Red)))
      else
        Paint(Plug(c.up, Borrowed(c, t)), Black)
  }

  /** Path from the least node of `t` up to the path `ctx` of `t`. */
  function MinPath<K, V>(ctx: Ctx<K, V>, t: Tree<K, V>): Ctx<K, V>
    requires t.Node?
    decreases t
  {
    if t.left.Nil? then ctx else MinPath(In(Left, ctx, t.color, t.e, t.right), t.left)
  }

  function MinNode<K, V>(t: Tree<K, V>): Tree<K, V>
    requires t.Node?
    ensures MinNode(t).Node? && MinNode(t).left.Nil?
  {
    if t.left.Nil? then t else MinNode(t.left)
  }

  /** The node that is physically unlinked when `t` is removed: itself, or its successor. */
  function Unlinked<K, V>(t: Tree<K, V>): Tree<K, V>
    requires t.Node?
    ensures Unlinked(t).Node? && (Unlinked(t).left.Nil? || Unlinked(t).right.Nil?)
  {
    if t.left.Nil? || t.right.Nil? then t else MinNode(t.right)
  }

  /** What takes the place of the unlinked node. */
  function Replacement<K, V>(t: Tree<K, V>): Tree<K, V>
    requires t.Node?
  {
    var u := Unlinked(t);
    if u.left.Nil? then u.right else u.left
  }

  /** The path to that place once a successor has moved into the place of `t`. */
  function Gap<K, V>(ctx: Ctx<K, V>, t: Tree<K, V>): Ctx<K, V>
    requires t.Node?
  {
    if t.left.Nil? || t.right.Nil? then ctx
    else Append(MinPath(Top, t.right), In(Right, ctx, t.color, MinNode(t.right).e, t.left))
  }

  /** Unlinks `t`. The fixup runs only if a black node went and something took its place. */
  function Detach<K, V>(ctx: Ctx<K, V>, t: Tree<K, V>): Tree<K, V>
    requires t.Node?
  {
    var r := Replacement(t);
    if Unlinked(t).color == Black && r.Node? then DeleteFix(Gap(ctx, t), r) else Plug(Gap(ctx, t), r)
  }

  function RemoveAt<K(==), V>(lt: (K, K) -> bool, ctx: Ctx<K, V>, t: Tree<K, V>, k: K): Tree<K, V>
    decreases t
  {
    if t.Nil? then Plug(ctx, Nil)
    else if k == t.e.key then Detach(ctx, t)
    else if lt(k, t.e.key) then RemoveAt(lt, In(Left, ctx, t.color, t.e, t.right), t.left, k)
    else RemoveAt(lt, In(Right, ctx, t.color, t.e, t.left), t.right, k)
  }

  lemma {:induction false} DeleteFixFlat<K, V>(ctx: Ctx<K, V>, t: Tree<K, V>)
    requires t.Node?
    ensures Entries(DeleteFix(ctx, t)) == Pre(ctx, Flat(t, Post(ctx)))
    decreases if t.color == Red then 0 else 1 + Depth(ctx)
  {
    if ctx.Top? || t.color == Red {
      PlugFlat(ctx, Paint(t, Black));
    } else {
      var c := if ColorOf(ctx.sibling) == Red then Lowered(ctx) else ctx;
      assert Pre(ctx, Flat(t, Post(ctx))) == Pre(c, Flat(t, Post(c)));
      if ColorOf(Inner(c)) == Black && ColorOf(Outer(c)) == Black {
        DeleteFixFlat(c.up, Join(c.branch, c.color, t, c.e, Paint(c.sibling, Red)));
      } else {
        PlugFlat(c.up, Borrowed(c, t));
        BorrowedFlat(c, t);
      }
    }
  }

  lemma {:induction false} BorrowedFlat<K, V>(ctx: Ctx<K, V>, t: Tree<K, V>)
    requires ctx.In? && (ColorOf(Inner(ctx)) == Red || ColorOf(Outer(ctx)) == Red)
    ensures Pre(ctx.up, Flat(Borrowed(ctx, t), Post(ctx.up))) == Pre(ctx, Flat(t, Post(ctx)))
  {
    var rest := Post(ctx.up);
    var w := Readied(ctx);
    if ctx.branch.Left? {
      assert Flat(w, rest) == Flat(ctx.sibling, rest);
      assert Flat(Paint(w.left, Black), Cons(w.e, Flat(w.right, rest))) == Flat(w, rest);
    } else {
      var l := Cons(ctx.e, Flat(t, rest));
      assert Flat(w, l) == Flat(ctx.sibling, l);
      assert Flat(Paint(w.right, Black), l) == Flat(w.right, l);
    }
  }

  lemma {:induction false} PreAppend<K, V>(inner: Ctx<K, V>, outer: Ctx<K, V>, rest: List<Entry<K, V>>)
    ensures Pre(Append(inner, outer), rest) == Pre(outer, Pre(inner, rest))
    ensures Post(Append(inner, outer)) == Post(inner, Post(outer))
    decreases inner
  {
    if inner.In? {
      if inner.branch.Right? {
        PreAppend(inner.up, outer, Flat(inner.sibling, Cons(inner.e, rest)));
      } else {
        PreAppend(inner.up, outer, rest);
      }
    }
  }

  lemma {:induction false} MinPathFlat<K, V>(ctx: Ctx<K, V>, t: Tree<K, V>, l: List<Entry<K, V>>,
                                             rest: List<Entry<K, V>>)
    requires t.Node?
    ensures Pre(MinPath(ctx, t), l) == Pre(ctx, l)
    ensures Cons(MinNode(t).e, Flat(MinNode(t).right, Post(MinPath(ctx, t), rest))) == Flat(t, Post(ctx, rest))
    decreases t
  {
    if t.left.Node? {
      MinPathFlat(In(Left, ctx, t.color, t.e, t.right), t.left, l, rest);
    }
  }

  /** Unlinking a node drops exactly its entry. */
  lemma {:induction false} DetachFlat<K, V>(ctx: Ctx<K, V>, t: Tree<K, V>)
    requires t.Node?
    ensures Entries(Detach(ctx, t)) == Pre(ctx, Flat(t.left, Flat(t.right, Post(ctx))))
  {
    var r, gap := Replacement(t), Gap(ctx, t);
    if Unlinked(t).color == Black && r.Node? {
      DeleteFixFlat(gap, r);
    } else {
      PlugFlat(gap, r);
    }
    if t.left.Node? && t.right.Node? {
      var d := MinPath<K, V>(Top, t.right);
      var o := In(Right, ctx, t.color, MinNode(t.right).e, t.left);
      var l := Flat(r, Post(gap));
      PreAppend(d, o, l);
      MinPathFlat(Top, t.right, l, Post(ctx));
    }
  }

  lemma {:induction false} RemovePastTree<K(!new), V>(lt: (K, K) -> bool, t: Tree<K, V>, rest: List<Entry<K, V>>, k: K)
    requires StrictTotalOrder(lt) && TreeBelow(lt, t, k)
    ensures RemoveList(Flat(t, rest), k) == Flat(t, RemoveList(rest, k))
    decreases t
  {
    if t.Node? {
      RemovePastTree(lt, t.left, Cons(t.e, Flat(t.right, rest)), k);
      RemovePastTree(lt, t.right, rest, k);
    }
  }

  lemma {:induction false} RemovePastCtx<K(!new), V>(lt: (K, K) -> bool, ctx: Ctx<K, V>, rest: List<Entry<K, V>>, k: K)
    requires StrictTotalOrder(lt) && CtxBelow(lt, ctx, k)
    ensures RemoveList(Pre(ctx, rest), k) == Pre(ctx, RemoveList(rest, k))
    decreases ctx
  {
    if ctx.In? {
      if ctx.branch.Left? {
        RemovePastCtx(lt, ctx.up, rest, k);
      } else {
        RemovePastCtx(lt, ctx.up, Flat(ctx.sibling, Cons(ctx.e, rest)), k);
        RemovePastTree(lt, ctx.sibling, Cons(ctx.e, rest), k);
      }
    }
  }

  /** The tree removal refines removal from the ordered list of its entries, whatever the colours. */
  lemma {:induction false} RemoveRefines<K(!new), V>(lt: (K, K) -> bool, ctx: Ctx<K, V>, t: Tree<K, V>, k: K)
    requires StrictTotalOrder(lt) && Sorted(lt, Pre(ctx, Flat(t, Post(ctx))))
    requires CtxBelow(lt, ctx, k) && AllAbove(lt, Post(ctx), k)
    ensures Entries(RemoveAt(lt, ctx, t, k)) == RemoveList(Pre(ctx, Flat(t, Post(ctx))), k)
    decreases t
  {
    RemovePastCtx(lt, ctx, Flat(t, Post(ctx)), k);
    if t.Nil? {
      RemoveAboveAll(lt, Post(ctx), k);
      PlugFlat(ctx, t);
    } else {
      var rest := Cons(t.e, Flat(t.right, Post(ctx)));
      SortedSuffix(lt, ctx, Flat(t, Post(ctx)));
      BelowFromSorted(lt, t.left, rest, t.e.key);
      if k == t.e.key {
        RemovePastTree(lt, t.left, rest, k);
        DetachFlat(ctx, t);
      } else if lt(k, t.e.key) {
        AboveTransitive(lt, rest.tail, t.e.key, k);
        RemoveRefines(lt, In(Left, ctx, t.color, t.e, t.right), t.left, k);
      } else {
        BelowFromSorted(lt, t.left, rest, k);
        RemoveRefines(lt, In(Right, ctx, t.color, t.e, t.left), t.right, k);
      }
    }
  }

  lemma {:induction false} RemoveAboveAll<K(!new), V>(lt: (K, K) -> bool, l: List<Entry<K, V>>, k: K)
    requires StrictTotalOrder(lt) && AllAbove(lt, l, k)
    ensures RemoveList(l, k) == l
  {
    if l.Cons? { RemoveAboveAll(lt, l.tail, k); }
  }

  // ── What removal does to the balance ──────────────────────────────────────

  lemma {:induction false} MinPathPlug<K, V>(ctx: Ctx<K, V>, t: Tree<K, V>)
    requires t.Node?
    ensures Plug(MinPath(ctx, t), MinNode(t)) == Plug(ctx, t)
    decreases t
  {
    if t.left.Node? {
      MinPathPlug(In(Left, ctx, t.color, t.e, t.right), t.left);
    }
  }

  lemma {:induction false} MinPathAppend<K, V>(d: Ctx<K, V>, o: Ctx<K, V>, t: Tree<K, V>)
    requires t.Node?
    ensures MinPath(Append(d, o), t) == Append(MinPath(d, t), o)
    decreases t
  {
    if t.left.Node? {
      MinPathAppend(In(Left, d, t.color, t.e, t.right), o, t.left);
    }
  }

  /** Which entry sits on a path does not matter to the balance. */
  lemma {:induction false} FitsAnyEntry<K, V>(d: Ctx<K, V>, up: Ctx<K, V>, c: Color, e: Entry<K, V>, f: Entry<K, V>,
                                              s: Tree<K, V>, n: nat)
    ensures Fits(Append(d, In(Right, up, c, e, s)), n) == Fits(Append(d, In(Right, up, c, f, s)), n)
    ensures RedAllowed(Append(d, In(Right, up, c, e, s))) == RedAllowed(Append(d, In(Right, up, c, f, s)))
    decreases d
  {
    if d.In? {
      FitsAnyEntry(d.up, up, c, e, f, s, n + if d.color == Black then 1 else 0);
    }
  }

  lemma {:induction false} GapFits<K, V>(ctx: Ctx<K, V>, t: Tree<K, V>)
    requires t.Node? && RedBlack(Plug(ctx, t))
    ensures Balanced(Unlinked(t)) && Fits(Gap(ctx, t), BlackHeight(Unlinked(t)))
    ensures Unlinked(t).color == Red ==> RedAllowed(Gap(ctx, t))
  {
    if t.left.Nil? || t.right.Nil? {
      PlugRedBlack(ctx, t);
    } else {
      var d, m := MinPath<K, V>(Top, t.right), MinNode(t.right);
      var o := In(Right, ctx, t.color, t.e, t.left);
      MinPathPlug(Top, t.right);
      AppendPlug(d, o, m);
      PlugRedBlack(Append(d, o), m);
      FitsAnyEntry(d, ctx, t.color, t.e, m.e, t.left, BlackHeight(m));
    }
  }

  /** The condition under which unlinking keeps the balance: the unlinked node is red,
      or it has a child, or it is the whole tree. */
  predicate KeepsBalance<K, V>(ctx: Ctx<K, V>, t: Tree<K, V>)
    requires t.Node?
  {
    Unlinked(t).color == Red || Replacement(t).Node? || Gap(ctx, t).Top?
  }

  /** Removal from a red-black tree gives a red-black tree exactly then. */
  lemma {:induction false} DetachRedBlack<K, V>(ctx: Ctx<K, V>, t: Tree<K, V>)
    requires t.Node? && RedBlack(Plug(ctx, t))
    ensures RedBlack(Detach(ctx, t)) <==> KeepsBalance(ctx, t)
  {
    var gap, r, u := Gap(ctx, t), Replacement(t), Unlinked(t);
    GapFits(ctx, t);
    if r.Node? {
      assert BlackHeight(r) == 0 && r.color == Red;
      PlugRedBlack(gap, Paint(r, Black));
    } else {
      PlugRedBlack(gap, r);
    }
  }

  /** The same condition for a removal by key. */
  predicate KeepsBalanceAt<K(==), V>(lt: (K, K) -> bool, ctx: Ctx<K, V>, t: Tree<K, V>, k: K)
    decreases t
  {
    if t.Nil? then true
    else if k == t.e.key then KeepsBalance(ctx, t)
    else if lt(k, t.e.key) then KeepsBalanceAt(lt, In(Left, ctx, t.color, t.e, t.right), t.left, k)
    else KeepsBalanceAt(lt, In(Right, ctx, t.color, t.e, t.left), t.right, k)
  }

  lemma {:induction false} RemoveRedBlack<K, V>(lt: (K, K) -> bool, ctx: Ctx<K, V>, t: Tree<K, V>, k: K)
    requires RedBlack(Plug(ctx, t))
    ensures RedBlack(RemoveAt(lt, ctx, t, k)) <==> KeepsBalanceAt(lt, ctx, t, k)
    decreases t
  {
    if t.Nil? {
    } else if k == t.e.key {
      DetachRedBlack(ctx, t);
    } else if lt(k, t.e.key) {
      RemoveRedBlack(lt, In(Left, ctx, t.color, t.e, t.right), t.left, k);
    } else {
      RemoveRedBlack(lt, In(Right, ctx, t.color, t.e, t.left), t.right, k);
    }
  }

  lemma {:induction false} PlugColor<K, V>(ctx: Ctx<K, V>, t: Tree<K, V>, u: Tree<K, V>)
    requires ctx.In? || ColorOf(t) == ColorOf(u)
    ensures ColorOf(Plug(ctx, t)) == ColorOf(Plug(ctx, u))
    decreases ctx
  {
    if ctx.In? {
      PlugColor(ctx.up, Join(ctx.branch, ctx.color, t, ctx.e, ctx.sibling),
                Join(ctx.branch, ctx.color, u, ctx.e, ctx.sibling));
    }
  }

  lemma {:induction false} DeleteFixRootBlack<K, V>(ctx: Ctx<K, V>, t: Tree<K, V>)
    requires t.Node? && (ctx.Top? || ColorOf(Plug(ctx, t)) == Black)
    ensures ColorOf(DeleteFix(ctx, t)) == Black
    decreases if t.color == Red then 0 else 1 + Depth(ctx)
  {
    if ctx.Top? {
    } else if t.color == Red {
      PlugColor(ctx, t, Paint(t, Black));
    } else {
      var c := if ColorOf(ctx.sibling) == Red then Lowered(ctx) else ctx;
      if ColorOf(Inner(c)) == Black && ColorOf(Outer(c)) == Black {
        var f := Join(c.branch, c.color, t, c.e, Paint(c.sibling, Red));
        var was := Join(ctx.branch, ctx.color, t, ctx.e, ctx.sibling);
        if ColorOf(ctx.sibling) == Black {
          PlugColor(ctx.up, was, f);
        } else if ctx.up.In? {
          PlugColor(ctx.up, was, Join(c.up.branch, Black, f, c.up.e, c.up.sibling));
        }
        DeleteFixRootBlack(c.up, f);
      }
    }
  }

  lemma {:induction false} DetachRootBlack<K, V>(ctx: Ctx<K, V>, t: Tree<K, V>)
    requires t.Node? && ColorOf(Plug(ctx, t)) == Black
    ensures ColorOf(Detach(ctx, t)) == Black
  {
    var gap, r := Gap(ctx, t), Replacement(t);
    if t.left.Node? && t.right.Node? {
      var d, m := MinPath<K, V>(Top, t.right), MinNode(t.right);
      var o := In(Right, ctx, t.color, m.e, t.left);
      AppendPlug(d, o, r);
      PlugColor(ctx, Join(Right, t.color, Plug(d, r), m.e, t.left), t);
    } else if ctx.In? {
      PlugColor(ctx, t, r);
    }
    if Unlinked(t).color == Black && r.Node? {
      DeleteFixRootBlack(gap, r);
    }
  }

  lemma {:induction false} RemoveRootBlack<K, V>(lt: (K, K) -> bool, ctx: Ctx<K, V>, t: Tree<K, V>, k: K)
    requires ColorOf(Plug(ctx, t)) == Black
    ensures ColorOf(RemoveAt(lt, ctx, t, k)) == Black
    decreases t
  {
    if t.Nil? {
    } else if k == t.e.key {
      DetachRootBlack(ctx, t);
    } else if lt(k, t.e.key) {
      RemoveRootBlack(lt, In(Left, ctx, t.color, t.e, t.right), t.left, k);
    } else {
      RemoveRootBlack(lt, In(Right, ctx, t.color, t.e, t.left), t.right, k);
    }
  }

  lemma {:induction false} InsertFixRootBlack<K, V>(ctx: Ctx<K, V>, t: Tree<K, V>)
    requires t.Node?
    ensures ColorOf(InsertFix(ctx, t)) == Black
    decreases ctx
  {
    if ctx.In? && ctx.up.In? && ctx.color == Red && ColorOf(ctx.up.sibling) == Red {
      InsertFixRootBlack(ctx.up.up, Recolored(ctx, t));
    }
  }

  lemma {:induction false} InsertRootBlack<K, V>(lt: (K, K) -> bool, ctx: Ctx<K, V>, t: Tree<K, V>, e: Entry<K, V>)
    requires ColorOf(Plug(ctx, t)) == Black
    ensures ColorOf(InsertAt(lt, ctx, t, e)) == Black
    decreases t
  {
    if t.Nil? {
      InsertFixRootBlack(ctx, Node(Red, Nil, e, Nil));
    } else if e.key == t.e.key {
      PlugColor(ctx, t, t.(e := t.e.(value := e.value)));
    } else if lt(e.key, t.e.key) {
      InsertRootBlack(lt, In(Left, ctx, t.color, t.e, t.right), t.left, e);
    } else {
      InsertRootBlack(lt, In(Right, ctx, t.color, t.e, t.left), t.right, e);
    }
  }
}
