/** How a tree lies in the arena: cells with a parent and two child links. */
module RbArena {
  import opened Prelude
  import opened OrderedList
  import opened RbShape

  type Link = Option<Handle>

  datatype Cell<K, V> = Cell(key: K, value: V, color: Color, parent: Link, left: Link, right: Link) {
    function Child(b: Branch): Link {
      if b.Left? then left else right
    }

    function WithChild(b: Branch, link: Link): Cell<K, V> {
      if b.Left? then this.(left := link) else this.(right := link)
    }
  }

  type Arena<K, V> = map<Handle, Cell<K, V>>

  ghost function Root<K, V>(t: Tree<K, V>): Link {
    if t.Nil? then None else Some(t.e.id)
  }

  /** The link above a focus whose path is `ctx`; `top` is what lies above the whole path. */
  ghost function Above<K, V>(ctx: Ctx<K, V>, top: Link): Link {
    if ctx.Top? then top else Some(ctx.e.id)
  }

  /** The link that reaches the outermost node of the path, or the focus itself. */
  ghost function Entrance<K, V>(ctx: Ctx<K, V>, hole: Link): Link
    decreases ctx
  {
    if ctx.Top? then hole else Entrance(ctx.up, Some(ctx.e.id))
  }

  ghost function Ids<K, V>(t: Tree<K, V>): set<Handle> {
    if t.Nil? then {} else Ids(t.left) + {t.e.id} + Ids(t.right)
  }

  ghost function PathIds<K, V>(ctx: Ctx<K, V>): set<Handle> {
    if ctx.Top? then {} else {ctx.e.id} + Ids(ctx.sibling) + PathIds(ctx.up)
  }

  ghost predicate TreeDistinct<K, V>(t: Tree<K, V>) {
    t.Node? ==>
      && TreeDistinct(t.left) && TreeDistinct(t.right)
      && t.e.id !in Ids(t.left) && t.e.id !in Ids(t.right) && Ids(t.left) !! Ids(t.right)
  }

  ghost predicate PathDistinct<K, V>(ctx: Ctx<K, V>) {
    ctx.In? ==>
      && TreeDistinct(ctx.sibling) && PathDistinct(ctx.up)
      && ctx.e.id !in Ids(ctx.sibling) && ctx.e.id !in PathIds(ctx.up) && Ids(ctx.sibling) !! PathIds(ctx.up)
  }

  ghost predicate CellAt<K, V>(a: Arena<K, V>, e: Entry<K, V>, c: Color, parent: Link, b: Branch, near: Link, far: Link)
  {
    && e.id in a
    && a[e.id] == if b.Left? then Cell(e.key, e.value, c, parent, near, far)
                  else Cell(e.key, e.value, c, parent, far, near)
  }

  ghost predicate TreeAt<K, V>(a: Arena<K, V>, parent: Link, t: Tree<K, V>)
    decreases t
  {
    t.Node? ==>
      && CellAt(a, t.e, t.color, parent, Left, Root(t.left), Root(t.right))
      && TreeAt(a, Some(t.e.id), t.left) && TreeAt(a, Some(t.e.id), t.right)
  }

  ghost predicate PathAt<K, V>(a: Arena<K, V>, top: Link, ctx: Ctx<K, V>, hole: Link)
    decreases ctx
  {
    ctx.In? ==>
      && CellAt(a, ctx.e, ctx.color, Above(ctx.up, top), ctx.branch, hole, Root(ctx.sibling))
      && TreeAt(a, Some(ctx.e.id), ctx.sibling)
      && PathAt(a, top, ctx.up, Some(ctx.e.id))
  }

  /** The tree `Plug(ctx, t)` lies in the arena under `root`, every cell used once. */
  ghost predicate ZipAt<K, V>(a: Arena<K, V>, root: Link, ctx: Ctx<K, V>, t: Tree<K, V>) {
    && TreeAt(a, Above(ctx, None), t)
    && PathAt(a, None, ctx, Root(t))
    && Entrance(ctx, Root(t)) == root
    && TreeDistinct(t) && PathDistinct(ctx) && Ids(t) !! PathIds(ctx)
  }

  ghost predicate Same<K, V>(a: Arena<K, V>, b: Arena<K, V>, ids: set<Handle>) {
    forall h :: h in ids && h in a ==> h in b && b[h] == a[h]
  }

  /** No cell comes or goes, and every handle names the same key and value. */
  ghost predicate Keeps<K, V>(a: Arena<K, V>, b: Arena<K, V>) {
    a.Keys == b.Keys && forall h :: h in a ==> b[h].key == a[h].key && b[h].value == a[h].value
  }

  /** The key and value each live handle names. */
  ghost function Payload<K, V>(a: Arena<K, V>): map<Handle, (K, V)> {
    map h | h in a :: (a[h].key, a[h].value)
  }

  lemma {:induction false} PayloadAdded<K, V>(a: Arena<K, V>, a': Arena<K, V>, a'': Arena<K, V>, h: Handle)
    requires h in a' && Keeps(a, a' - {h}) && Keeps(a', a'') && h !in a
    ensures Payload(a'') == Payload(a)[h := (a'[h].key, a'[h].value)]
    ensures a''.Keys == a.Keys + {h}
  {
    forall g | g in a ensures g in a'' && a''[g].key == a[g].key && a''[g].value == a[g].value {
      assert g in a' - {h};
    }
  }

  // ── Moving the focus ──────────────────────────────────────────────────────

  lemma {:induction false} ZoomOut<K, V>(a: Arena<K, V>, root: Link, ctx: Ctx<K, V>, t: Tree<K, V>)
    requires ctx.In?
    ensures ZipAt(a, root, ctx, t) <==> ZipAt(a, root, ctx.up, Join(ctx.branch, ctx.color, t, ctx.e, ctx.sibling))
  {
  }

  lemma {:induction false} ZoomIn<K, V>(a: Arena<K, V>, root: Link, ctx: Ctx<K, V>, t: Tree<K, V>, b: Branch)
    requires t.Node? && ZipAt(a, root, ctx, t)
    ensures ZipAt(a, root, In(b, ctx, t.color, t.e, Child(t, b.Opposite())), Child(t, b))
  {
    ZoomOut(a, root, In(b, ctx, t.color, t.e, Child(t, b.Opposite())), Child(t, b));
  }

  lemma {:induction false} ZipPlug<K, V>(a: Arena<K, V>, root: Link, ctx: Ctx<K, V>, t: Tree<K, V>)
    ensures ZipAt(a, root, ctx, t) <==> ZipAt(a, root, Top, Plug(ctx, t))
    decreases ctx
  {
    if ctx.In? {
      ZoomOut(a, root, ctx, t);
      ZipPlug(a, root, ctx.up, Join(ctx.branch, ctx.color, t, ctx.e, ctx.sibling));
    }
  }

  lemma {:induction false} PlugIds<K, V>(ctx: Ctx<K, V>, t: Tree<K, V>)
    ensures Ids(Plug(ctx, t)) == PathIds(ctx) + Ids(t)
    decreases ctx
  {
    if ctx.In? {
      PlugIds(ctx.up, Join(ctx.branch, ctx.color, t, ctx.e, ctx.sibling));
    }
  }

  /** What the links around a focus say. */
  lemma {:induction false} Around<K, V>(a: Arena<K, V>, root: Link, ctx: Ctx<K, V>, t: Tree<K, V>)
    requires ZipAt(a, root, ctx, t) && t.Node?
    ensures t.e.id in a && a[t.e.id].parent == Above(ctx, None) && a[t.e.id].color == t.color
    ensures ctx.Top? ==> root == Some(t.e.id)
    ensures ctx.In? ==>
              && ctx.e.id in a && a[ctx.e.id].color == ctx.color && a[ctx.e.id].parent == Above(ctx.up, None)
              && a[ctx.e.id].Child(ctx.branch) == Some(t.e.id)
              && a[ctx.e.id].Child(ctx.branch.Opposite()) == Root(ctx.sibling) != Some(t.e.id)
              && (ctx.sibling.Node? ==> ctx.sibling.e.id in a && a[ctx.sibling.e.id].color == ctx.sibling.color)
  {
    assert ctx.In? && ctx.sibling.Node? ==> ctx.sibling.e.id in PathIds(ctx);
  }

  /** The focus moved over to the sibling. */
  lemma {:induction false} ZoomAcross<K, V>(a: Arena<K, V>, root: Link, ctx: Ctx<K, V>, t: Tree<K, V>)
    requires ctx.In?
    ensures ZipAt(a, root, ctx, t) <==>
            ZipAt(a, root, In(ctx.branch.Opposite(), ctx.up, ctx.color, ctx.e, t), ctx.sibling)
  {
    ZoomOut(a, root, ctx, t);
    ZoomOut(a, root, In(ctx.branch.Opposite(), ctx.up, ctx.color, ctx.e, t), ctx.sibling);
  }

  ghost function IdsOf<K, V>(l: List<Entry<K, V>>): set<Handle> {
    if l.End? then {} else {l.head.id} + IdsOf(l.tail)
  }

  lemma {:induction false} FlatIds<K, V>(t: Tree<K, V>, rest: List<Entry<K, V>>)
    ensures IdsOf(Flat(t, rest)) == Ids(t) + IdsOf(rest)
    decreases t
  {
    if t.Node? {
      FlatIds(t.left, Cons(t.e, Flat(t.right, rest)));
      FlatIds(t.right, rest);
    }
  }

  lemma {:induction false} EntriesFixIds<K, V>(t: Tree<K, V>, u: Tree<K, V>)
    requires Entries(t) == Entries(u)
    ensures Ids(t) == Ids(u)
  {
    FlatIds(t, End);
    FlatIds(u, End);
  }

  lemma {:induction false} InsertFixIds<K, V>(ctx: Ctx<K, V>, t: Tree<K, V>)
    requires t.Node?
    ensures Ids(InsertFix(ctx, t)) == PathIds(ctx) + Ids(t)
  {
    InsertFixFlat(ctx, t);
    PlugFlat(ctx, t);
    EntriesFixIds(InsertFix(ctx, t), Plug(ctx, t));
    PlugIds(ctx, t);
  }

  lemma {:induction false} PathReachesRoot<K, V>(ctx: Ctx<K, V>, hole: Link)
    requires ctx.In?
    ensures Entrance(ctx, hole).Some? && Entrance(ctx, hole).value in PathIds(ctx)
    decreases ctx
  {
    if ctx.up.In? {
      PathReachesRoot(ctx.up, Some(ctx.e.id));
    }
  }

  lemma {:induction false} ZipAppend<K, V>(a: Arena<K, V>, root: Link, inner: Ctx<K, V>, outer: Ctx<K, V>,
                                           t: Tree<K, V>)
    ensures ZipAt(a, root, Append(inner, outer), t) <==> ZipAt(a, root, outer, Plug(inner, t))
    decreases inner
  {
    if inner.In? {
      ZoomOut(a, root, Append(inner, outer), t);
      ZipAppend(a, root, inner.up, outer, Join(inner.branch, inner.color, t, inner.e, inner.sibling));
    }
  }

  // ── One cell at a time ────────────────────────────────────────────────────

  lemma {:induction false} FrameTree<K, V>(a: Arena<K, V>, b: Arena<K, V>, parent: Link, t: Tree<K, V>)
    requires TreeAt(a, parent, t) && Same(a, b, Ids(t))
    ensures TreeAt(b, parent, t)
    decreases t
  {
    if t.Node? {
      FrameTree(a, b, Some(t.e.id), t.left);
      FrameTree(a, b, Some(t.e.id), t.right);
    }
  }

  lemma {:induction false} FramePath<K, V>(a: Arena<K, V>, b: Arena<K, V>, top: Link, ctx: Ctx<K, V>, hole: Link)
    requires PathAt(a, top, ctx, hole) && Same(a, b, PathIds(ctx))
    ensures PathAt(b, top, ctx, hole)
    decreases ctx
  {
    if ctx.In? {
      FrameTree(a, b, Some(ctx.e.id), ctx.sibling);
      FramePath(a, b, top, ctx.up, Some(ctx.e.id));
    }
  }

  /** Hanging a subtree below another parent changes the root cell only. */
  lemma {:induction false} Reparent<K, V>(a: Arena<K, V>, b: Arena<K, V>, parent: Link, parent': Link, t: Tree<K, V>)
    requires TreeAt(a, parent, t) && TreeDistinct(t)
    requires t.Node? ==> t.e.id in b && b[t.e.id] == a[t.e.id].(parent := parent') && Same(a, b, Ids(t) - {t.e.id})
    ensures TreeAt(b, parent', t)
  {
    if t.Node? {
      FrameTree(a, b, Some(t.e.id), t.left);
      FrameTree(a, b, Some(t.e.id), t.right);
    }
  }

  /** Hanging another subtree into a path changes the innermost cell only. */
  lemma {:induction false} Rehole<K, V>(a: Arena<K, V>, b: Arena<K, V>, top: Link, ctx: Ctx<K, V>, hole: Link,
                                        hole': Link)
    requires PathAt(a, top, ctx, hole) && PathDistinct(ctx)
    requires ctx.In? ==>
               ctx.e.id in b && b[ctx.e.id] == a[ctx.e.id].WithChild(ctx.branch, hole')
                 && Same(a, b, PathIds(ctx) - {ctx.e.id})
    ensures PathAt(b, top, ctx, hole')
  {
    if ctx.In? {
      FrameTree(a, b, Some(ctx.e.id), ctx.sibling);
      FramePath(a, b, top, ctx.up, Some(ctx.e.id));
    }
  }

  // ── Rotation ──────────────────────────────────────────────────────────────

  /** The child away from `b` moves up, the pivot goes down on side `b`. */
  ghost function RotateTree<K, V>(t: Tree<K, V>, b: Branch): Tree<K, V>
    requires t.Node? && Child(t, b.Opposite()).Node?
  {
    var w := Child(t, b.Opposite());
    Join(b, w.color, Join(b, t.color, Child(t, b), t.e, Child(w, b)), w.e, Child(w, b.Opposite()))
  }

  ghost predicate SameBut<K, V>(a: Arena<K, V>, b: Arena<K, V>, touched: set<Handle>) {
    forall h :: h in a && h !in touched ==> h in b && b[h] == a[h]
  }

  ghost function Touched<K, V>(t: Tree<K, V>): set<Handle> {
    if t.Nil? then {} else {t.e.id}
  }

  lemma {:induction false} RotateDistinct<K, V>(t: Tree<K, V>, b: Branch)
    requires t.Node? && Child(t, b.Opposite()).Node? && TreeDistinct(t)
    ensures TreeDistinct(RotateTree(t, b)) && Ids(RotateTree(t, b)) == Ids(t)
  {
    var w := Child(t, b.Opposite());
    assert TreeDistinct(w) && TreeDistinct(Child(w, b)) && TreeDistinct(Child(w, b.Opposite()));
    assert Ids(t) == Ids(Child(t, b)) + {t.e.id} + Ids(w);
    assert Ids(w) == Ids(Child(w, b)) + {w.e.id} + Ids(Child(w, b.Opposite()));
    var low := Join(b, t.color, Child(t, b), t.e, Child(w, b));
    assert TreeDistinct(low) && Ids(low) == Ids(Child(t, b)) + {t.e.id} + Ids(Child(w, b));
  }

  /** The five links a rotation rewrites are all that has to change. */
  lemma {:induction false} RotateAt<K, V>(a: Arena<K, V>, a': Arena<K, V>, root: Link, root': Link, ctx: Ctx<K, V>,
                                          t: Tree<K, V>, b: Branch)
    requires t.Node? && Child(t, b.Opposite()).Node? && ZipAt(a, root, ctx, t)
    requires var w := Child(t, b.Opposite());
             var mid := Child(w, b);
             && CellAt(a', t.e, t.color, Some(w.e.id), b, Root(Child(t, b)), Root(mid))
             && CellAt(a', w.e, w.color, Above(ctx, None), b, Some(t.e.id), Root(Child(w, b.Opposite())))
             && (mid.Node? ==> mid.e.id in a && mid.e.id in a' && a'[mid.e.id] == a[mid.e.id].(parent := Some(t.e.id)))
             && (ctx.In? ==> ctx.e.id in a' && a'[ctx.e.id] == a[ctx.e.id].WithChild(ctx.branch, Some(w.e.id)))
             && root' == (if ctx.In? then root else Some(w.e.id))
             && SameBut(a, a', {t.e.id, w.e.id} + Touched(mid) + (if ctx.In? then {ctx.e.id} else {}))
    ensures ZipAt(a', root', ctx, RotateTree(t, b))
    ensures Ids(RotateTree(t, b)) == Ids(t)
  {
    var w := Child(t, b.Opposite());
    var near, mid, far := Child(t, b), Child(w, b), Child(w, b.Opposite());
    RotateDistinct(t, b);
    assert TreeAt(a, Some(t.e.id), near) && TreeAt(a, Some(t.e.id), w) && TreeDistinct(w);
    assert TreeAt(a, Some(w.e.id), mid) && TreeAt(a, Some(w.e.id), far) && TreeDistinct(mid);
    RotateFrames(t, b, ctx);
    assert TreeAt(a', Some(t.e.id), near) by { FrameTree(a, a', Some(t.e.id), near); }
    assert TreeAt(a', Some(t.e.id), mid) by { Reparent(a, a', Some(w.e.id), Some(t.e.id), mid); }
    assert TreeAt(a', Some(w.e.id), far) by { FrameTree(a, a', Some(w.e.id), far); }
    assert PathAt(a', None, ctx, Some(w.e.id)) by { Rehole(a, a', None, ctx, Some(t.e.id), Some(w.e.id)); }
    assert TreeAt(a', Some(w.e.id), Join(b, t.color, near, t.e, mid));
  }

  /** The parts of a rotation share no cell. */
  lemma {:induction false} RotateFrames<K, V>(t: Tree<K, V>, b: Branch, ctx: Ctx<K, V>)
    requires t.Node? && Child(t, b.Opposite()).Node? && TreeDistinct(t) && PathDistinct(ctx) && Ids(t) !! PathIds(ctx)
    ensures var w := Child(t, b.Opposite());
            var near, mid, far := Child(t, b), Child(w, b), Child(w, b.Opposite());
            var cells := {t.e.id, w.e.id};
            && Ids(near) !! Ids(mid) && Ids(near) !! Ids(far) && Ids(mid) !! Ids(far)
            && cells !! Ids(near) && cells !! Ids(mid) && cells !! Ids(far) && cells !! PathIds(ctx)
            && PathIds(ctx) !! Ids(near) && PathIds(ctx) !! Ids(mid) && PathIds(ctx) !! Ids(far)
            && t.e.id != w.e.id
  {
    var w := Child(t, b.Opposite());
    assert TreeDistinct(w);
    assert Ids(w) == Ids(Child(w, b)) + {w.e.id} + Ids(Child(w, b.Opposite()));
    assert Ids(t) == Ids(Child(t, b)) + {t.e.id} + Ids(w);
  }

  /** The cells a rotation is about to rewrite, and that they are different cells. */
  lemma {:induction false} RotateCells<K, V>(a: Arena<K, V>, root: Link, ctx: Ctx<K, V>, t: Tree<K, V>, b: Branch)
    requires t.Node? && Child(t, b.Opposite()).Node? && ZipAt(a, root, ctx, t)
    ensures var w := Child(t, b.Opposite());
            var mid := Child(w, b);
            && CellAt(a, t.e, t.color, Above(ctx, None), b, Root(Child(t, b)), Some(w.e.id))
            && CellAt(a, w.e, w.color, Some(t.e.id), b, Root(mid), Root(Child(w, b.Opposite())))
            && t.e.id != w.e.id
            && (mid.Node? ==> mid.e.id in a && mid.e.id != t.e.id && mid.e.id != w.e.id)
            && (ctx.In? ==> ctx.e.id in a && ctx.e.id != t.e.id && ctx.e.id != w.e.id)
            && (ctx.In? && mid.Node? ==> ctx.e.id != mid.e.id)
            && (ctx.In? ==> (a[ctx.e.id].left == Some(t.e.id) <==> ctx.branch.Left?))
            && (ctx.Top? ==> root == Some(t.e.id))
  {
    RotateFrames(t, b, ctx);
    var w := Child(t, b.Opposite());
    assert TreeAt(a, Some(t.e.id), w) && TreeAt(a, Some(w.e.id), Child(w, b));
    assert ctx.In? && ctx.sibling.Node? ==> ctx.sibling.e.id in PathIds(ctx);
  }

  /** The six assignments of a rotation at `x`, in the order the program makes them. */
  ghost function Rewire<K, V>(a: Arena<K, V>, x: Handle, y: Handle, b: Branch): Arena<K, V>
    requires x in a && y in a
    requires a[y].Child(b).Some? ==> a[y].Child(b).value in a
    requires a[x].parent.Some? ==> a[x].parent.value in a
  {
    var mid := a[y].Child(b);
    var a1 := a[x := a[x].WithChild(b.Opposite(), mid)];
    var a2 := if mid.Some? then a1[mid.value := a1[mid.value].(parent := Some(x))] else a1;
    var xp := a2[x].parent;
    var a3 := a2[y := a2[y].(parent := xp)];
    var a4 := if xp.Some? && xp.value in a3 then
                a3[xp.value := a3[xp.value].WithChild(if a3[xp.value].left == Some(x) then Left else Right, Some(y))]
              else a3;
    var a5 := a4[y := a4[y].WithChild(b, Some(x))];
    a5[x := a5[x].(parent := Some(y))]
  }

  /** What those assignments come to when they hit different cells. */
  ghost predicate Rewired<K, V>(a: Arena<K, V>, a': Arena<K, V>, x: Handle, y: Handle, b: Branch)
    requires x in a && y in a
  {
    var m, p := a[y].Child(b), a[x].parent;
    && a'.Keys == a.Keys
    && a'[x] == a[x].WithChild(b.Opposite(), m).(parent := Some(y))
    && a'[y] == a[y].WithChild(b, Some(x)).(parent := p)
    && (m.Some? ==> m.value in a && a'[m.value] == a[m.value].(parent := Some(x)))
    && (p.Some? ==>
          && p.value in a
          && a'[p.value] == a[p.value].WithChild(if a[p.value].left == Some(x) then Left else Right, Some(y)))
    && forall h :: h in a && h != x && h != y && Some(h) != m && Some(h) != p ==> a'[h] == a[h]
  }

  ghost predicate Apart<K, V>(a: Arena<K, V>, x: Handle, y: Handle, b: Branch) {
    && x in a && y in a && x != y
    && (var m := a[y].Child(b); m.Some? ==> m.value in a && m.value != x && m.value != y && m != a[x].parent)
    && (var p := a[x].parent; p.Some? ==> p.value in a && p.value != x && p.value != y)
  }

  lemma {:induction false} RewireEffect<K, V>(a: Arena<K, V>, x: Handle, y: Handle, b: Branch)
    requires Apart(a, x, y, b)
    ensures Rewired(a, Rewire(a, x, y, b), x, y, b)
  {
  }

  lemma {:induction false} RewiredAt<K, V>(a: Arena<K, V>, a': Arena<K, V>, root: Link, ctx: Ctx<K, V>, t: Tree<K, V>,
                                           b: Branch)
    requires t.Node? && Child(t, b.Opposite()).Node? && ZipAt(a, root, ctx, t)
    ensures var y := Child(t, b.Opposite()).e.id;
            && Apart(a, t.e.id, y, b) && a[t.e.id].Child(b.Opposite()) == Some(y)
            && (Rewired(a, a', t.e.id, y, b) ==>
                  && ZipAt(a', if ctx.In? then root else Some(y), ctx, RotateTree(t, b))
                  && Keeps(a, a'))
  {
    RotateCells(a, root, ctx, t, b);
    var y := Child(t, b.Opposite()).e.id;
    if Rewired(a, a', t.e.id, y, b) {
      RotateAt(a, a', root, if ctx.In? then root else Some(y), ctx, t, b);
    }
  }

  lemma {:induction false} RewireAt<K, V>(a: Arena<K, V>, root: Link, ctx: Ctx<K, V>, t: Tree<K, V>, b: Branch)
    requires t.Node? && Child(t, b.Opposite()).Node? && ZipAt(a, root, ctx, t)
    ensures var y := Child(t, b.Opposite()).e.id;
            && Apart(a, t.e.id, y, b) && a[t.e.id].Child(b.Opposite()) == Some(y)
            && var a' := Rewire(a, t.e.id, y, b);
               && ZipAt(a', if ctx.In? then root else Some(y), ctx, RotateTree(t, b))
               && Keeps(a, a') && Rewired(a, a', t.e.id, y, b)
  {
    RewiredAt(a, a, root, ctx, t, b);
    var y := Child(t, b.Opposite()).e.id;
    RewireEffect(a, t.e.id, y, b);
    RewiredAt(a, Rewire(a, t.e.id, y, b), root, ctx, t, b);
  }

  lemma {:induction false} PaintAt<K, V>(a: Arena<K, V>, a': Arena<K, V>, root: Link, ctx: Ctx<K, V>, t: Tree<K, V>,
                                         c: Color)
    requires t.Node? && ZipAt(a, root, ctx, t)
    requires a' == a[t.e.id := a[t.e.id].(color := c)]
    ensures ZipAt(a', root, ctx, Paint(t, c))
  {
    FrameTree(a, a', Some(t.e.id), t.left);
    FrameTree(a, a', Some(t.e.id), t.right);
    FramePath(a, a', None, ctx, Some(t.e.id));
  }

  /** Overwriting the value of the focus. */
  lemma {:induction false} ValueAt<K, V>(a: Arena<K, V>, a': Arena<K, V>, root: Link, ctx: Ctx<K, V>, t: Tree<K, V>,
                                         v: V)
    requires t.Node? && ZipAt(a, root, ctx, t)
    requires a' == a[t.e.id := a[t.e.id].(value := v)]
    ensures ZipAt(a', root, ctx, t.(e := t.e.(value := v)))
  {
    FrameTree(a, a', Some(t.e.id), t.left);
    FrameTree(a, a', Some(t.e.id), t.right);
    FramePath(a, a', None, ctx, Some(t.e.id));
  }

  /** A node with entry `e` put into the hole of a path, above two subtrees that hung elsewhere. */
  lemma {:induction false} SeatAt<K, V>(a: Arena<K, V>, a': Arena<K, V>, root: Link, root': Link, ctx: Ctx<K, V>,
                                        hole: Link, c: Color, l: Tree<K, V>, pl: Link, e: Entry<K, V>, r: Tree<K, V>,
                                        pr: Link)
    requires PathAt(a, None, ctx, hole) && Entrance(ctx, hole) == root
    requires TreeAt(a, pl, l) && TreeAt(a, pr, r)
    requires TreeDistinct(Node(c, l, e, r)) && PathDistinct(ctx) && Ids(Node(c, l, e, r)) !! PathIds(ctx)
    requires CellAt(a', e, c, Above(ctx, None), Left, Root(l), Root(r))
    requires l.Node? ==> l.e.id in a' && a'[l.e.id] == a[l.e.id].(parent := Some(e.id))
    requires r.Node? ==> r.e.id in a' && a'[r.e.id] == a[r.e.id].(parent := Some(e.id))
    requires ctx.In? ==> ctx.e.id in a' && a'[ctx.e.id] == a[ctx.e.id].WithChild(ctx.branch, Some(e.id))
    requires SameBut(a, a', {e.id} + Touched(l) + Touched(r) + (if ctx.In? then {ctx.e.id} else {}))
    requires root' == if ctx.In? then root else Some(e.id)
    ensures ZipAt(a', root', ctx, Node(c, l, e, r))
  {
    Reparent(a, a', pl, Some(e.id), l);
    Reparent(a, a', pr, Some(e.id), r);
    Rehole(a, a', None, ctx, hole, Some(e.id));
  }

  /** A subtree of the focus put in its place. */
  lemma {:induction false} TransplantAt<K, V>(a: Arena<K, V>, a': Arena<K, V>, root: Link, root': Link,
                                              ctx: Ctx<K, V>, t: Tree<K, V>, b: Branch)
    requires ZipAt(a, root, ctx, t) && t.Node?
    requires var r := Child(t, b);
             && (r.Node? ==> r.e.id in a && r.e.id in a' && a'[r.e.id] == a[r.e.id].(parent := Above(ctx, None)))
             && (ctx.In? ==> ctx.e.id in a' && a'[ctx.e.id] == a[ctx.e.id].WithChild(ctx.branch, Root(r)))
             && SameBut(a, a', Touched(r) + (if ctx.In? then {ctx.e.id} else {}))
             && root' == (if ctx.In? then root else Root(r))
    ensures ZipAt(a', root', ctx, Child(t, b))
  {
    var r := Child(t, b);
    Reparent(a, a', Some(t.e.id), Above(ctx, None), r);
    Rehole(a, a', None, ctx, Some(t.e.id), Root(r));
  }

  lemma {:induction false} AppendIds<K, V>(inner: Ctx<K, V>, outer: Ctx<K, V>)
    ensures PathIds(Append(inner, outer)) == PathIds(inner) + PathIds(outer)
    ensures PathDistinct(Append(inner, outer)) ==> PathIds(inner) !! PathIds(outer)
    decreases inner
  {
    if inner.In? {
      AppendIds(inner.up, outer);
    }
  }

  /** The node of `t` still holds its place, while the entry `e` waits above the right subtree `r`. */
  ghost predicate Waiting<K, V>(a: Arena<K, V>, root: Link, ctx: Ctx<K, V>, t: Tree<K, V>, e: Entry<K, V>,
                                r: Tree<K, V>)
  {
    && t.Node? && t.e.id in a && a[t.e.id].parent == Above(ctx, None)
    && a[t.e.id].left == Root(t.left) && a[t.e.id].color == t.color
    && PathAt(a, None, ctx, Some(t.e.id)) && Entrance(ctx, Some(t.e.id)) == root && PathDistinct(ctx)
    && TreeAt(a, Some(t.e.id), t.left) && TreeAt(a, Some(e.id), r)
    && e.id in a && a[e.id].key == e.key && a[e.id].value == e.value && a[e.id].right == Root(r)
    && TreeDistinct(Node(t.color, t.left, e, r)) && Ids(Node(t.color, t.left, e, r)) !! PathIds(ctx)
    && t.e.id !in Ids(Node(t.color, t.left, e, r)) && t.e.id !in PathIds(ctx)
  }

  /** A right child without a left child waits where it is. */
  lemma {:induction false} WaitingChild<K, V>(a: Arena<K, V>, root: Link, ctx: Ctx<K, V>, t: Tree<K, V>)
    requires ZipAt(a, root, ctx, t) && t.Node? && t.right.Node? && t.right.left.Nil?
    ensures Waiting(a, root, ctx, t, t.right.e, t.right.right)
  {
    assert TreeAt(a, Some(t.e.id), t.right) && TreeDistinct(t.right);
    assert Ids(t.right) == {t.right.e.id} + Ids(t.right.right);
  }

  /** A spliced-out cell that took over the right subtree waits as well. */
  lemma {:induction false} WaitingSpliced<K, V>(a: Arena<K, V>, a': Arena<K, V>, root: Link, ctx: Ctx<K, V>,
                                                t: Tree<K, V>, e: Entry<K, V>)
    requires ZipAt(a, root, ctx, t) && t.Node? && e.id !in Ids(t) && e.id !in PathIds(ctx)
    requires e.id in a && e.id in a' && a'[e.id] == a[e.id].(right := Root(t.right))
    requires a[e.id].key == e.key && a[e.id].value == e.value
    requires t.right.Node? ==>
               t.right.e.id in a && t.right.e.id in a' && a'[t.right.e.id] == a[t.right.e.id].(parent := Some(e.id))
    requires SameBut(a, a', {e.id} + Touched(t.right))
    ensures Waiting(a', root, ctx, t, e, t.right)
  {
    FrameTree(a, a', Some(t.e.id), t.left);
    Reparent(a, a', Some(t.e.id), Some(e.id), t.right);
    FramePath(a, a', None, ctx, Some(t.e.id));
  }

  /** Links of the waiting cell and of the cell it replaces. */
  lemma {:induction false} WaitingLinks<K, V>(a: Arena<K, V>, root: Link, ctx: Ctx<K, V>, t: Tree<K, V>,
                                              e: Entry<K, V>, r: Tree<K, V>)
    requires Waiting(a, root, ctx, t, e, r)
    ensures e.id != t.e.id
    ensures ctx.In? ==>
              && ctx.e.id in a && ctx.e.id != e.id && ctx.e.id != t.e.id
              && (a[ctx.e.id].left == Some(t.e.id) <==> ctx.branch.Left?)
    ensures t.left.Node? ==>
              t.left.e.id in a && t.left.e.id != e.id && t.left.e.id != t.e.id && (ctx.In? ==> t.left.e.id != ctx.e.id)
    ensures r.Node? ==> r.e.id in a && a[r.e.id].parent == Some(e.id) && r.e.id != e.id && r.e.id != t.e.id
                        && (ctx.In? ==> r.e.id != ctx.e.id) && (t.left.Node? ==> r.e.id != t.left.e.id)
  {
    assert ctx.In? && ctx.sibling.Node? ==> ctx.sibling.e.id in PathIds(ctx);
    assert t.left.Node? ==> t.left.e.id in Ids(t.left);
    assert r.Node? ==> r.e.id in Ids(r);
  }

  /** What putting `v` in the place of `u` writes. */
  ghost predicate Transplanted<K, V>(a: Arena<K, V>, a': Arena<K, V>, root: Link, root': Link, u: Handle, v: Link)
    requires u in a
  {
    var p := a[u].parent;
    && a'.Keys == a.Keys && (v.Some? ==> v.value in a) && (p.Some? ==> p.value in a)
    && (v.Some? ==> a'[v.value] == a[v.value].(parent := p))
    && (p.Some? ==> a'[p.value] == a[p.value].WithChild(if a[p.value].left == Some(u) then Left else Right, v))
    && (forall h :: h in a && Some(h) != v && Some(h) != p ==> a'[h] == a[h])
    && root' == if p.Some? then root else v
  }

  /** What handing the left subtree and the colour of `z` over to `s` writes. */
  ghost predicate Adopted<K, V>(a: Arena<K, V>, a': Arena<K, V>, z: Handle, s: Handle)
    requires z in a && s in a
  {
    var l := a[z].left;
    && a'.Keys == a.Keys && (l.Some? ==> l.value in a)
    && a'[s] == a[s].(left := l, color := a[z].color)
    && (l.Some? ==> a'[l.value] == a[l.value].(parent := Some(s)))
    && forall h :: h in a && h != s && Some(h) != l ==> a'[h] == a[h]
  }

  /** The two together, cell by cell. */
  lemma {:induction false} SeatedCells<K, V>(a: Arena<K, V>, b: Arena<K, V>, c: Arena<K, V>, root: Link, root': Link,
                                             ctx: Ctx<K, V>, t: Tree<K, V>, e: Entry<K, V>, r: Tree<K, V>)
    requires Waiting(a, root, ctx, t, e, r) && Transplanted(a, b, root, root', t.e.id, Some(e.id))
             && Adopted(b, c, t.e.id, e.id)
    ensures CellAt(c, e, t.color, Above(ctx, None), Left, Root(t.left), Root(r))
    ensures t.left.Node? ==> t.left.e.id in c && c[t.left.e.id] == a[t.left.e.id].(parent := Some(e.id))
    ensures r.Node? ==> r.e.id in c && c[r.e.id] == a[r.e.id].(parent := Some(e.id))
    ensures ctx.In? ==> ctx.e.id in c && c[ctx.e.id] == a[ctx.e.id].WithChild(ctx.branch, Some(e.id))
  {
    WaitingLinks(a, root, ctx, t, e, r);
  }

  lemma {:induction false} TransplantKeeps<K, V>(a: Arena<K, V>, b: Arena<K, V>, root: Link, root': Link, u: Handle,
                                                 v: Handle)
    requires u in a && Transplanted(a, b, root, root', u, Some(v)) && a[u].parent != Some(v)
    ensures Keeps(a, b) && SameBut(a, b, {v} + (if a[u].parent.Some? then {a[u].parent.value} else {}))
  {
  }

  lemma {:induction false} AdoptKeeps<K, V>(a: Arena<K, V>, b: Arena<K, V>, z: Handle, s: Handle)
    requires z in a && s in a && Adopted(a, b, z, s) && a[z].left != Some(s)
    ensures Keeps(a, b) && SameBut(a, b, {s} + (if a[z].left.Some? then {a[z].left.value} else {}))
  {
  }

  lemma {:induction false} SeatedKeeps<K, V>(a: Arena<K, V>, b: Arena<K, V>, c: Arena<K, V>, root: Link, root': Link,
                                             ctx: Ctx<K, V>, t: Tree<K, V>, e: Entry<K, V>, r: Tree<K, V>)
    requires Waiting(a, root, ctx, t, e, r) && Transplanted(a, b, root, root', t.e.id, Some(e.id))
             && Adopted(b, c, t.e.id, e.id)
    ensures Keeps(a, c) && SameBut(a, c, {e.id} + Touched(t.left) + Touched(r) + (if ctx.In? then {ctx.e.id} else {}))
  {
    WaitingLinks(a, root, ctx, t, e, r);
    TransplantKeeps(a, b, root, root', t.e.id, e.id);
    AdoptKeeps(b, c, t.e.id, e.id);
  }

  lemma {:induction false} RootPlug<K, V>(ctx: Ctx<K, V>, t: Tree<K, V>, u: Tree<K, V>)
    requires ctx.In?
    ensures Root(Plug(ctx, t)) == Root(Plug(ctx, u)) && Plug(ctx, u).Node?
    decreases ctx
  {
    if ctx.up.In? {
      RootPlug(ctx.up, Join(ctx.branch, ctx.color, t, ctx.e, ctx.sibling),
               Join(ctx.branch, ctx.color, u, ctx.e, ctx.sibling));
    }
  }

  /** Splicing the successor out leaves the rest of the tree around it in place. */
  lemma {:induction false} SplicedOut<K, V>(a: Arena<K, V>, a': Arena<K, V>, root: Link, root': Link, ctx: Ctx<K, V>,
                                            t: Tree<K, V>)
    requires t.Node? && t.right.Node? && t.right.left.Node?
    requires var d, m := MinPath<K, V>(Top, t.right), MinNode(t.right);
             var o := In(Right, ctx, t.color, t.e, t.left);
             ZipAt(a, root, Append(d, o), m) && ZipAt(a', root', Append(d, o), m.right)
    ensures var d, m := MinPath<K, V>(Top, t.right), MinNode(t.right);
            var t' := Node(t.color, t.left, t.e, Plug(d, m.right));
            && ZipAt(a', root', ctx, t')
            && t'.right.Node? && t'.right.e.id == t.right.e.id
            && m.e.id !in Ids(t') && m.e.id !in PathIds(ctx)
  {
    var d, m := MinPath<K, V>(Top, t.right), MinNode(t.right);
    var o := In(Right, ctx, t.color, t.e, t.left);
    var t' := Node(t.color, t.left, t.e, Plug(d, m.right));
    ZipAppend(a', root', d, o, m.right);
    ZoomOut(a', root', o, Plug(d, m.right));
    MinPathPlug(Top, t.right);
    MinPathDeep(In(Left, Top, t.right.color, t.right.e, t.right.right), t.right.left);
    RootPlug(d, m, m.right);
    PlugIds(d, m.right);
    AppendIds(d, o);
    assert Ids(t') == Ids(t.left) + {t.e.id} + Ids(Plug(d, m.right));
  }

  lemma {:induction false} MinPathDeep<K, V>(ctx: Ctx<K, V>, t: Tree<K, V>)
    requires t.Node? && ctx.In?
    ensures MinPath(ctx, t).In?
    decreases t
  {
    if t.left.Node? {
      MinPathDeep(In(Left, ctx, t.color, t.e, t.right), t.left);
    }
  }

  lemma {:induction false} ParentDiffers<K, V>(d: Ctx<K, V>, o: Ctx<K, V>, parent: Link)
    requires o.In? && PathIds(d) !! PathIds(o) && parent == Some(if d.In? then d.e.id else o.e.id)
    ensures parent == Some(o.e.id) ==> d.Top?
  {
    assert d.In? ==> d.e.id in PathIds(d);
  }

  /** A successor whose parent is the removed node is its right child. */
  lemma {:induction false} DirectSuccessor<K, V>(a: Arena<K, V>, root: Link, ctx: Ctx<K, V>, t: Tree<K, V>)
    requires t.Node? && t.right.Node?
    requires var d, m := MinPath<K, V>(Top, t.right), MinNode(t.right);
             ZipAt(a, root, Append(d, In(Right, ctx, t.color, t.e, t.left)), m) && m.e.id in a
               && a[m.e.id].parent == Some(t.e.id)
    ensures t.right.left.Nil?
  {
    var d, m := MinPath<K, V>(Top, t.right), MinNode(t.right);
    var o := In(Right, ctx, t.color, t.e, t.left);
    AppendIds(d, o);
    ParentDiffers(d, o, a[m.e.id].parent);
    if t.right.left.Node? {
      MinPathDeep(In(Left, Top, t.right.color, t.right.e, t.right.right), t.right.left);
    }
  }

  lemma {:induction false} PreIds<K, V>(ctx: Ctx<K, V>, l: List<Entry<K, V>>)
    requires IdsOf(Post(ctx)) <= IdsOf(l)
    ensures IdsOf(Pre(ctx, l)) == PathIds(ctx) + IdsOf(l)
    ensures IdsOf(Post(ctx)) <= PathIds(ctx)
    decreases ctx
  {
    if ctx.In? {
      if ctx.branch.Left? {
        FlatIds(ctx.sibling, Post(ctx.up));
        PreIds(ctx.up, l);
      } else {
        FlatIds(ctx.sibling, Cons(ctx.e, l));
        PreIds(ctx.up, Flat(ctx.sibling, Cons(ctx.e, l)));
      }
    }
  }

  lemma {:induction false} DetachIds<K, V>(ctx: Ctx<K, V>, t: Tree<K, V>)
    requires t.Node?
    ensures Ids(Detach(ctx, t)) == PathIds(ctx) + Ids(t.left) + Ids(t.right)
  {
    var r := Flat(t.right, Post(ctx));
    DetachFlat(ctx, t);
    FlatIds(Detach(ctx, t), End);
    FlatIds(t.right, Post(ctx));
    FlatIds(t.left, r);
    PreIds(ctx, Flat(t.left, r));
  }

  lemma {:induction false} CellInMap<K, V>(a: Arena<K, V>, parent: Link, t: Tree<K, V>, rest: List<Entry<K, V>>,
                                           h: Handle)
    requires TreeAt(a, parent, t)
    ensures MapOf(rest).Keys <= MapOf(Flat(t, rest)).Keys
    ensures h in Ids(t) ==> h in a && a[h].key in MapOf(Flat(t, rest))
    decreases t
  {
    if t.Node? {
      CellInMap(a, Some(t.e.id), t.left, Cons(t.e, Flat(t.right, rest)), h);
      CellInMap(a, Some(t.e.id), t.right, rest, h);
    }
  }

  /** The detached cell can be freed: nothing left in the tree refers to it. */
  lemma {:induction false} FreeAt<K, V>(a: Arena<K, V>, root: Link, ctx: Ctx<K, V>, t: Tree<K, V>)
    requires t.Node? && TreeDistinct(t) && Ids(t) !! PathIds(ctx)
    requires ZipAt(a, root, Top, Detach(ctx, t)) && a.Keys == Ids(Plug(ctx, t))
    ensures ZipAt(a - {t.e.id}, root, Top, Detach(ctx, t))
    ensures (a - {t.e.id}).Keys == Ids(Detach(ctx, t))
    ensures forall h :: h in a - {t.e.id} ==> a[h].key in MapOf(Entries(Detach(ctx, t)))
  {
    DetachIds(ctx, t);
    PlugIds(ctx, t);
    var t' := Detach(ctx, t);
    FrameTree(a, a - {t.e.id}, None, t');
    forall h | h in a - {t.e.id} ensures a[h].key in MapOf(Entries(t')) {
      CellInMap(a, None, t', End, h);
    }
  }
}
