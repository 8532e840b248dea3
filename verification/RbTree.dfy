/** The red-black tree as the program keeps it: an arena of linked cells updated in place. */
module RbTree {
  import opened Prelude
  import opened OrderedList
  import opened RbShape
  import opened RbArena

  class RedBlackTree<K(==, !new), V> {
    const lt: (K, K) -> bool
    var arena: map<Handle, Cell<K, V>>
    var next: Handle
    var root: Link
    var len: nat
    ghost var shape: Tree<K, V>

    ghost predicate Valid()
      reads this
    {
      && StrictTotalOrder(lt)
      && ZipAt(arena, root, Top, shape)
      && arena.Keys == Ids(shape)
      && (forall h :: h in arena ==> h < next)
      && Sorted(lt, Entries(shape))
      && ColorOf(shape) == Black
      && len == Length(Entries(shape))
    }

    ghost function Contents(): map<K, V>
      reads `shape
    {
      MapOf(Entries(shape))
    }

    constructor (lt: (K, K) -> bool)
      requires StrictTotalOrder(lt)
      ensures Valid() && this.lt == lt && shape == Nil && len == 0 && Contents() == map[]
    {
      this.lt := lt;
      arena, next, root, len := map[], 0, None, 0;
      shape := Nil;
    }

    // ── Rotations ───────────────────────────────────────────────────────────

    method SetChild(p: Handle, b: Branch, link: Link)
      requires p in arena
      modifies `arena
      ensures arena == old(arena)[p := old(arena[p]).WithChild(b, link)]
    {
      if b.Left? {
        arena := arena[p := arena[p].(left := link)];
      } else {
        arena := arena[p := arena[p].(right := link)];
      }
    }

    /** Lets the link that holds `child`, in its parent or in the root, hold `link`. */
    method ReplaceChild(parent: Link, child: Handle, link: Link)
      requires parent.Some? ==> parent.value in arena
      modifies `arena, `root
      ensures parent.None? ==> root == link && arena == old(arena)
      ensures parent.Some? ==>
                && root == old(root)
                && var c := old(arena[parent.value]);
                   arena == old(arena)[parent.value := c.WithChild(if c.left == Some(child) then Left else Right, link)]
    {
      match parent {
        case None => root := link;
        case Some(p) =>
          var branch := if arena[p].left == Some(child) then Left else Right;
          SetChild(p, branch, link);
      }
    }

    method LeftRotate(x: Handle, ghost ctx: Ctx<K, V>, ghost t: Tree<K, V>)
      requires ZipAt(arena, root, ctx, t) && t.Node? && t.e.id == x && t.right.Node?
      modifies `arena, `root
      ensures ZipAt(arena, root, ctx, RotateTree(t, Left)) && Keeps(old(arena), arena)
    {
      RewireAt(arena, root, ctx, t, Left);
      var y := arena[x].right.value;
      arena := arena[x := arena[x].(right := arena[y].left)];
      if arena[y].left.Some? {
        var yl := arena[y].left.value;
        arena := arena[yl := arena[yl].(parent := Some(x))];
      }
      var xp := arena[x].parent;
      arena := arena[y := arena[y].(parent := xp)];
      ReplaceChild(xp, x, Some(y));
      arena := arena[y := arena[y].(left := Some(x))];
      arena := arena[x := arena[x].(parent := Some(y))];
      assert arena == Rewire(old(arena), x, y, Left);
    }

    method RightRotate(x: Handle, ghost ctx: Ctx<K, V>, ghost t: Tree<K, V>)
      requires ZipAt(arena, root, ctx, t) && t.Node? && t.e.id == x && t.left.Node?
      modifies `arena, `root
      ensures ZipAt(arena, root, ctx, RotateTree(t, Right)) && Keeps(old(arena), arena)
    {
      RewireAt(arena, root, ctx, t, Right);
      var y := arena[x].left.value;
      arena := arena[x := arena[x].(left := arena[y].right)];
      if arena[y].right.Some? {
        var yr := arena[y].right.value;
        arena := arena[yr := arena[yr].(parent := Some(x))];
      }
      var xp := arena[x].parent;
      arena := arena[y := arena[y].(parent := xp)];
      ReplaceChild(xp, x, Some(y));
      arena := arena[y := arena[y].(right := Some(x))];
      arena := arena[x := arena[x].(parent := Some(y))];
      assert arena == Rewire(old(arena), x, y, Right);
    }

    method RotateIn(x: Handle, b: Branch, ghost ctx: Ctx<K, V>, ghost t: Tree<K, V>)
      requires ZipAt(arena, root, ctx, t) && t.Node? && t.e.id == x && Child(t, b.Opposite()).Node?
      modifies `arena, `root
      ensures ZipAt(arena, root, ctx, RotateTree(t, b)) && Keeps(old(arena), arena)
    {
      match b {
        case Left => LeftRotate(x, ctx, t);
        case Right => RightRotate(x, ctx, t);
      }
    }

    method RotateOut(x: Handle, b: Branch, ghost ctx: Ctx<K, V>, ghost t: Tree<K, V>)
      requires ZipAt(arena, root, ctx, t) && t.Node? && t.e.id == x && Child(t, b).Node?
      modifies `arena, `root
      ensures ZipAt(arena, root, ctx, RotateTree(t, b.Opposite())) && Keeps(old(arena), arena)
    {
      match b {
        case Left => RightRotate(x, ctx, t);
        case Right => LeftRotate(x, ctx, t);
      }
    }

    method SetColor(h: Handle, c: Color, ghost ctx: Ctx<K, V>, ghost t: Tree<K, V>)
      requires ZipAt(arena, root, ctx, t) && t.Node? && t.e.id == h
      modifies `arena
      ensures ZipAt(arena, root, ctx, Paint(t, c)) && Keeps(old(arena), arena)
    {
      arena := arena[h := arena[h].(color := c)];
      PaintAt(old(arena), arena, root, ctx, t, c);
    }

    /** The least key. */
    method Min() returns (r: Option<K>)
      requires Valid()
      ensures r == if Entries(shape).End? then None else Some(Entries(shape).head.key)
    {
      match root {
        case None => r := None;
        case Some(h) =>
          var m := SubtreeMin(h, Top, shape);
          MinPathFlat(Top, shape, End, End);
          Around(arena, root, MinPath(Top, shape), MinNode(shape));
          r := Some(arena[m].key);
      }
    }

    /** The keys below `current` in ascending order, and the colours of their nodes. */
    method WalkInOrder(current: Link, ghost ctx: Ctx<K, V>, ghost t: Tree<K, V>)
      returns (keys: seq<K>, colors: seq<Color>)
      requires ZipAt(arena, root, ctx, t) && current == Root(t)
      ensures Visited(t, keys, colors)
      decreases t
    {
      match current {
        case None => keys, colors := [], [];
        case Some(h) =>
          Around(arena, root, ctx, t);
          ZoomIn(arena, root, ctx, t, Left);
          ZoomIn(arena, root, ctx, t, Right);
          var l, lc := WalkInOrder(arena[h].left, In(Left, ctx, t.color, t.e, t.right), t.left);
          var r, rc := WalkInOrder(arena[h].right, In(Right, ctx, t.color, t.e, t.left), t.right);
          keys, colors := l + [arena[h].key] + r, lc + [arena[h].color] + rc;
          VisitedNode(t, l, lc, r, rc);
      }
    }

    // ── Insertion ───────────────────────────────────────────────────────────

    method InsertFixup(z0: Handle, ghost ctx0: Ctx<K, V>, ghost t0: Tree<K, V>)
      requires ZipAt(arena, root, ctx0, t0) && t0.Node? && t0.e.id == z0
      requires ctx0.In? ==> ColorOf(Plug(ctx0, t0)) == Black
      modifies `arena, `root
      ensures ZipAt(arena, root, Top, InsertFix(ctx0, t0)) && Keeps(old(arena), arena)
    {
      var z := z0;
      ghost var ctx, t := ctx0, t0;
      while arena[z].parent.Some?
        invariant ZipAt(arena, root, ctx, t) && t.Node? && t.e.id == z
        invariant ctx.In? ==> ColorOf(Plug(ctx, t)) == Black
        invariant InsertFix(ctx, t) == InsertFix(ctx0, t0)
        invariant Keeps(old(arena), arena)
        decreases Depth(ctx)
      {
        Around(arena, root, ctx, t);
        var parent := arena[z].parent.value;
        if arena[parent].color != Red {
          break;
        }
        // The root is black, so a red parent has a parent.
        var grandparent := arena[parent].parent.value;
        ZoomOut(arena, root, ctx, t);
        Around(arena, root, ctx.up, Join(ctx.branch, ctx.color, t, ctx.e, ctx.sibling));
        var branch := if arena[grandparent].left == Some(parent) then Left else Right;
        z, ctx, t := InsertFixupIteration(z, parent, grandparent, branch, ctx, t);
      }
      ZipPlug(arena, root, ctx, t);
      if root.Some? {
        SetColor(root.value, Black, Top, Plug(ctx, t));
      }
    }

    method InsertFixupIteration(z0: Handle, parent0: Handle, grandparent0: Handle, branch: Branch,
                                ghost ctx: Ctx<K, V>, ghost t: Tree<K, V>)
      returns (z: Handle, ghost ctx': Ctx<K, V>, ghost t': Tree<K, V>)
      requires ZipAt(arena, root, ctx, t) && t.Node? && t.e.id == z0
      requires ctx.In? && ctx.color == Red && ctx.up.In? && ctx.e.id == parent0 && ctx.up.e.id == grandparent0
      requires branch == ctx.up.branch && ColorOf(Plug(ctx, t)) == Black
      modifies `arena, `root
      ensures ZipAt(arena, root, ctx', t') && t'.Node? && t'.e.id == z
      ensures Depth(ctx') < Depth(ctx) && (ctx'.In? ==> ColorOf(Plug(ctx', t')) == Black)
      ensures InsertFix(ctx', t') == InsertFix(ctx, t)
      ensures Keeps(old(arena), arena)
    {
      ghost var g := ctx.up;
      ghost var p := Join(ctx.branch, ctx.color, t, ctx.e, ctx.sibling);
      Around(arena, root, ctx, t);
      ZoomOut(arena, root, ctx, t);
      Around(arena, root, g, p);
      var uncle := arena[grandparent0].Child(branch.Opposite());
      if uncle.Some? && arena[uncle.value].color == Red {
        Recolor(parent0, uncle.value, grandparent0, g, p);
        z, ctx', t' := grandparent0, g.up, Recolored(ctx, t);
        RecolorFix(ctx, t);
        return;
      }
      z := z0;
      ghost var c, f := ctx, t;
      if arena[parent0].Child(branch.Opposite()) == Some(z) {
        z := parent0;
        RotateIn(z, branch, g, p);
        c := In(branch, g, t.color, t.e, Child(t, branch.Opposite()));
        f := Join(branch, ctx.color, ctx.sibling, ctx.e, Child(t, branch));
        ZoomOut(arena, root, c, f);
      }
      ctx', t' := In(branch, g.up, Black, c.e, Join(branch, Red, c.sibling, g.e, g.sibling)), f;
      FinishRotation(z, branch, c, f);
      RotatedFix(ctx, t, c, f, ctx');
    }

    /** The recolouring of the red-uncle case. */
    method Recolor(parent: Handle, uncle: Handle, grandparent: Handle, ghost g: Ctx<K, V>, ghost p: Tree<K, V>)
      requires ZipAt(arena, root, g, p) && p.Node? && p.e.id == parent
      requires g.In? && g.e.id == grandparent && g.sibling.Node? && g.sibling.e.id == uncle
      modifies `arena
      ensures ZipAt(arena, root, g.up, Join(g.branch, Red, Paint(p, Black), g.e, Paint(g.sibling, Black)))
      ensures Keeps(old(arena), arena)
    {
      SetColor(parent, Black, g, p);
      ghost var p' := Paint(p, Black);
      ghost var o := In(g.branch.Opposite(), g.up, g.color, g.e, p');
      ZoomAcross(arena, root, g, p');
      SetColor(uncle, Black, o, g.sibling);
      ghost var u' := Paint(g.sibling, Black);
      ZoomOut(arena, root, o, u');
      SetColor(grandparent, Red, g.up, Join(g.branch, g.color, p', g.e, u'));
    }

    /** The straight case: parent black, grandparent red, grandparent rotated down. */
    method FinishRotation(z: Handle, branch: Branch, ghost c: Ctx<K, V>, ghost f: Tree<K, V>)
      requires ZipAt(arena, root, c, f) && f.Node? && f.e.id == z
      requires c.In? && c.up.In? && c.branch == branch && c.up.branch == branch
      modifies `arena, `root
      ensures ZipAt(arena, root, In(branch, c.up.up, Black, c.e, Join(branch, Red, c.sibling, c.up.e, c.up.sibling)), f)
      ensures Keeps(old(arena), arena)
    {
      ghost var g := c.up;
      ghost var p := Join(branch, c.color, f, c.e, c.sibling);
      Around(arena, root, c, f);
      ZoomOut(arena, root, c, f);
      Around(arena, root, g, p);
      var parent := arena[z].parent.value;
      var grandparent := arena[parent].parent.value;
      SetColor(parent, Black, g, p);
      p := Paint(p, Black);
      ZoomOut(arena, root, g, p);
      SetColor(grandparent, Red, g.up, Join(branch, g.color, p, g.e, g.sibling));
      RotateOut(grandparent, branch, g.up, Join(branch, Red, p, g.e, g.sibling));
      ZoomOut(arena, root, In(branch, g.up, Black, c.e, Join(branch, Red, c.sibling, g.e, g.sibling)), f);
    }

    /** Descends towards `key`; ends at its cell or at the empty place it belongs to. */
    method Descend(key: K)
      returns (parent: Link, current: Link, ghost ctx: Ctx<K, V>, ghost t: Tree<K, V>, ghost steps: nat)
      requires Valid()
      ensures ZipAt(arena, root, ctx, t) && current == Root(t) && parent == Above(ctx, None)
      ensures Plug(ctx, t) == shape && OnPath(lt, ctx, key) && (t.Node? ==> t.e.key == key)
      ensures steps == Depth(ctx) && steps + Height(t) <= Height(shape)
    {
      parent, current := None, root;
      ctx, t, steps := Top, shape, 0;
      while current.Some?
        invariant ZipAt(arena, root, ctx, t) && current == Root(t) && parent == Above(ctx, None)
        invariant Plug(ctx, t) == shape && OnPath(lt, ctx, key)
        invariant steps == Depth(ctx) && steps + Height(t) <= Height(shape)
        decreases t
      {
        var cur := current.value;
        Around(arena, root, ctx, t);
        if key == arena[cur].key {
          return;
        }
        parent := Some(cur);
        steps := steps + 1;
        if lt(key, arena[cur].key) {
          current := arena[cur].left;
          ZoomIn(arena, root, ctx, t, Left);
          ctx, t := In(Left, ctx, t.color, t.e, t.right), t.left;
        } else {
          current := arena[cur].right;
          ZoomIn(arena, root, ctx, t, Right);
          ctx, t := In(Right, ctx, t.color, t.e, t.left), t.right;
        }
      }
    }

    /** Finds the handle of `key`, in at most as many steps down as the tree is high. */
    method FindNode(key: K) returns (r: Link, ghost steps: nat)
      requires Valid()
      ensures r.Some? <==> key in Contents()
      ensures r.Some? ==> r.value in arena && arena[r.value].key == key && arena[r.value].value == Contents()[key]
      ensures steps <= Height(shape)
      ensures RedBlack(shape) ==> Pow2(steps) <= (len + 1) * (len + 1)
    {
      var _, current, ctx, t, s := Descend(key);
      r, steps := current, s;
      SearchDecides(lt, ctx, t, key);
      if RedBlack(shape) {
        HeightBound(shape);
        Pow2Monotone(steps, Height(shape));
        FlatLength(shape, End);
      }
    }

    // ── Insertion ───────────────────────────────────────────────────────────

    /** The key and value each live handle names. */
    ghost function Handles(): map<Handle, (K, V)>
      reads `arena
    {
      Payload(arena)
    }

    method Insert(key: K, value: V) returns (h: Handle)
      requires Valid()
      modifies this
      ensures Valid()
      ensures shape == InsertAt(lt, Top, old(shape), Entry(old(next), key, value))
      ensures Entries(shape) == InsertList(lt, old(Entries(shape)), Entry(old(next), key, value))
      ensures Contents() == old(Contents())[key := value]
      ensures Handles() == old(Handles())[h := (key, value)]
      ensures if key in old(Contents()) then h in old(arena) && old(arena[h]).key == key else h == old(next)
      ensures RedBlack(old(shape)) ==> RedBlack(shape)
      ensures len == old(len) + (if key in old(Contents()) then 0 else 1)
      ensures next == old(next) + if key in old(Contents()) then 0 else 1
    {
      ghost var e := Entry(next, key, value);
      var parent, current, ctx, t, _ := Descend(key);
      SearchDecides(lt, ctx, t, key);
      InsertSteps(lt, ctx, t, e);
      InsertFacts(lt, shape, e);
      if current.Some? {
        h := current.value;
        Overwrite(h, value, ctx, t);
      } else {
        h := InsertNew(key, value, parent, ctx);
      }
      shape := InsertAt(lt, Top, shape, e);
    }

    method Overwrite(h: Handle, value: V, ghost ctx: Ctx<K, V>, ghost t: Tree<K, V>)
      requires ZipAt(arena, root, ctx, t) && t.Node? && t.e.id == h
      modifies `arena
      ensures ZipAt(arena, root, Top, Plug(ctx, t.(e := t.e.(value := value))))
      ensures arena.Keys == old(arena.Keys) && h in arena
      ensures Handles() == old(Handles())[h := (t.e.key, value)]
      ensures Ids(Plug(ctx, t.(e := t.e.(value := value)))) == Ids(Plug(ctx, t))
    {
      arena := arena[h := arena[h].(value := value)];
      ValueAt(old(arena), arena, root, ctx, t, value);
      ghost var t' := t.(e := t.e.(value := value));
      ZipPlug(arena, root, ctx, t');
      PlugIds(ctx, t);
      PlugIds(ctx, t');
    }

    method InsertNew(key: K, value: V, parent: Link, ghost ctx: Ctx<K, V>) returns (h: Handle)
      requires Valid() && ZipAt(arena, root, ctx, Nil) && Plug(ctx, Nil) == shape && parent == Above(ctx, None)
      requires OnPath(lt, ctx, key)
      modifies `arena, `next, `root, `len
      ensures h == old(next) && next == h + 1 && len == old(len) + 1
      ensures ZipAt(arena, root, Top, InsertFix(ctx, Node(Red, Nil, Entry(h, key, value), Nil)))
      ensures h !in old(arena) && arena.Keys == old(arena.Keys) + {h}
      ensures Handles() == old(Handles())[h := (key, value)]
      ensures arena.Keys == Ids(InsertFix(ctx, Node(Red, Nil, Entry(h, key, value), Nil)))
    {
      ghost var leaf := Node(Red, Nil, Entry(next, key, value), Nil);
      h := Hang(key, value, parent, ctx);
      if ctx.In? {
        PlugColor(ctx, Nil, leaf);
      }
      ghost var a := arena;
      InsertFixup(h, ctx, leaf);
      PayloadAdded(old(arena), a, arena, h);
      InsertFixIds(ctx, leaf);
      PlugIds<K, V>(ctx, Nil);
    }

    /** Puts a new red cell into the empty place below `parent`. */
    method Hang(key: K, value: V, parent: Link, ghost ctx: Ctx<K, V>) returns (h: Handle)
      requires Valid() && ZipAt(arena, root, ctx, Nil) && Plug(ctx, Nil) == shape && parent == Above(ctx, None)
      requires OnPath(lt, ctx, key)
      modifies `arena, `next, `root, `len
      ensures h == old(next) && next == h + 1 && len == old(len) + 1
      ensures ZipAt(arena, root, ctx, Node(Red, Nil, Entry(h, key, value), Nil))
      ensures h !in old(arena) && h in arena && arena[h].key == key && arena[h].value == value
      ensures Keeps(old(arena), arena - {h})
    {
      PlugIds<K, V>(ctx, Nil);
      h := next;
      next := next + 1;
      arena := arena[h := Cell(key, value, Red, None, None, None)];
      len := len + 1;
      arena := arena[h := arena[h].(parent := parent)];
      match parent {
        case None => root := Some(h);
        case Some(p) =>
          var branch := if lt(arena[h].key, arena[p].key) then Left else Right;
          SetChild(p, branch, Some(h));
      }
      SeatAt(old(arena), arena, old(root), root, ctx, None, Red, Nil, None, Entry(h, key, value), Nil, None);
    }

    // ── Removal ─────────────────────────────────────────────────────────────

    method SubtreeMin(node: Handle, ghost ctx: Ctx<K, V>, ghost t: Tree<K, V>) returns (r: Handle)
      requires ZipAt(arena, root, ctx, t) && t.Node? && t.e.id == node
      ensures ZipAt(arena, root, MinPath(ctx, t), MinNode(t)) && r == MinNode(t).e.id
    {
      r := node;
      ghost var c, f := ctx, t;
      Around(arena, root, c, f);
      while arena[r].left.Some?
        invariant ZipAt(arena, root, c, f) && f.Node? && f.e.id == r && r in arena
        invariant MinPath(c, f) == MinPath(ctx, t) && MinNode(f) == MinNode(t)
        decreases f
      {
        r := arena[r].left.value;
        ZoomIn(arena, root, c, f, Left);
        c, f := In(Left, c, f.color, f.e, f.right), f.left;
        Around(arena, root, c, f);
      }
    }

    method Transplant(u: Handle, v: Link)
      requires u in arena && (arena[u].parent.Some? ==> arena[u].parent.value in arena)
               && (v.Some? ==> v.value in arena)
      requires v.Some? ==> v != arena[u].parent
      modifies `arena, `root
      ensures Transplanted(old(arena), arena, old(root), root, u, v)
    {
      var p := arena[u].parent;
      ReplaceChild(p, u, v);
      if v.Some? {
        arena := arena[v.value := arena[v.value].(parent := p)];
      }
    }

    /** Unlinks a focus that has at most the one child on side `b`. */
    method Splice(z: Handle, b: Branch, ghost ctx: Ctx<K, V>, ghost t: Tree<K, V>)
      requires ZipAt(arena, root, ctx, t) && t.Node? && t.e.id == z
      modifies `arena, `root
      ensures ZipAt(arena, root, ctx, Child(t, b)) && Keeps(old(arena), arena) && arena[z] == old(arena[z])
    {
      Around(arena, root, ctx, t);
      ZoomIn(arena, root, ctx, t, b);
      if Child(t, b).Node? {
        Around(arena, root, In(b, ctx, t.color, t.e, Child(t, b.Opposite())), Child(t, b));
      }
      Transplant(z, arena[z].Child(b));
      TransplantAt(old(arena), arena, old(root), root, ctx, t, b);
    }

    /** Hands the left subtree and the colour of `z` over to `s`. */
    method AdoptLeft(z: Handle, s: Handle)
      requires z in arena && s in arena && z != s
      requires var l := arena[z].left; l.Some? ==> l.value in arena && l.value != s && l.value != z
      modifies `arena
      ensures Adopted(old(arena), arena, z, s)
    {
      arena := arena[s := arena[s].(left := arena[z].left)];
      if arena[s].left.Some? {
        var zl := arena[s].left.value;
        arena := arena[zl := arena[zl].(parent := Some(s))];
      }
      arena := arena[s := arena[s].(color := arena[z].color)];
    }

    /** Moves the waiting cell `s` into the place of `z`. */
    method SeatSuccessor(z: Handle, s: Handle, ghost ctx: Ctx<K, V>, ghost t: Tree<K, V>, ghost e: Entry<K, V>,
                         ghost r: Tree<K, V>)
      requires Waiting(arena, root, ctx, t, e, r) && z == t.e.id && s == e.id
      modifies `arena, `root
      ensures ZipAt(arena, root, ctx, Node(t.color, t.left, e, r)) && Keeps(old(arena), arena)
    {
      WaitingLinks(arena, root, ctx, t, e, r);
      Transplant(z, Some(s));
      ghost var b := arena;
      AdoptLeft(z, s);
      SeatedCells(old(arena), b, arena, old(root), root, ctx, t, e, r);
      SeatedKeeps(old(arena), b, arena, old(root), root, ctx, t, e, r);
      SeatAt(old(arena), arena, old(root), root, ctx, Some(z), t.color, t.left, Some(z), e, r, Some(s));
    }

    /** Makes the successor `s` the root of the right subtree of `z`, without a left child of its own. */
    method FreeSuccessor(z: Handle, zr: Handle, s: Handle, ghost ctx: Ctx<K, V>, ghost t: Tree<K, V>)
      requires ZipAt(arena, root, ctx, t) && t.Node? && t.e.id == z && t.right.Node? && t.right.e.id == zr
      requires s == MinNode(t.right).e.id
      requires ZipAt(arena, root, Append(MinPath(Top, t.right), In(Right, ctx, t.color, t.e, t.left)), MinNode(t.right))
      modifies `arena, `root
      ensures Waiting(arena, root, ctx, t, MinNode(t.right).e, Plug(MinPath(Top, t.right), MinNode(t.right).right))
      ensures Keeps(old(arena), arena)
    {
      ghost var d, m := MinPath<K, V>(Top, t.right), MinNode(t.right);
      ghost var o := In(Right, ctx, t.color, t.e, t.left);
      Around(arena, root, Append(d, o), m);
      assert TreeAt(arena, Some(z), t.right);
      if arena[s].parent == Some(z) {
        DirectSuccessor(arena, root, ctx, t);
        WaitingChild(arena, root, ctx, t);
        var sr := arena[s].right;
        if sr.Some? {
          WaitingLinks(arena, root, ctx, t, m.e, m.right);
          arena := arena[sr.value := arena[sr.value].(parent := Some(s))];
          assert arena == old(arena);
        }
      } else {
        assert t.right.left.Nil? ==> Append(d, o) == o;
        Splice(s, Right, Append(d, o), m);
        SplicedOut(old(arena), arena, old(root), root, ctx, t);
        ghost var a := arena;
        ghost var t' := Node(t.color, t.left, t.e, Plug(d, m.right));
        arena := arena[s := arena[s].(right := Some(zr))];
        arena := arena[zr := arena[zr].(parent := Some(s))];
        WaitingSpliced(a, arena, root, ctx, t', m.e);
      }
    }

    method DetachTwoChildren(z: Handle, ghost ctx: Ctx<K, V>, ghost t: Tree<K, V>) returns (sr: Link, color: Color)
      requires ZipAt(arena, root, ctx, t) && t.Node? && t.e.id == z && t.left.Node? && t.right.Node?
      modifies `arena, `root
      ensures ZipAt(arena, root, Gap(ctx, t), Replacement(t)) && Keeps(old(arena), arena)
      ensures sr == Root(Replacement(t)) && color == Unlinked(t).color
    {
      var zr := arena[z].right.value;
      ghost var o := In(Right, ctx, t.color, t.e, t.left);
      ghost var d, m := MinPath<K, V>(Top, t.right), MinNode(t.right);
      ZoomIn(arena, root, ctx, t, Right);
      var s := SubtreeMin(zr, o, t.right);
      MinPathAppend(Top, o, t.right);
      Around(arena, root, Append(d, o), m);
      color, sr := arena[s].color, arena[s].right;
      FreeSuccessor(z, zr, s, ctx, t);
      SeatSuccessor(z, s, ctx, t, m.e, Plug(d, m.right));
      ZoomIn(arena, root, ctx, Node(t.color, t.left, m.e, Plug(d, m.right)), Right);
      ZipAppend(arena, root, d, In(Right, ctx, t.color, m.e, t.left), m.right);
    }

    // ── Delete fixup ────────────────────────────────────────────────────────

    ghost predicate RedNephew(c: Ctx<K, V>) {
      c.In? && (ColorOf(Inner(c)) == Red || ColorOf(Outer(c)) == Red)
    }

    method ColorAt(link: Link) returns (c: Color)
      requires link.Some? ==> link.value in arena
      ensures c == if link.None? then Black else arena[link.value].color
    {
      c := if link.Some? then arena[link.value].color else Black;
    }

    method DeleteFixup(extra0: Link, ghost ctx0: Ctx<K, V>, ghost t0: Tree<K, V>)
      requires ZipAt(arena, root, ctx0, t0) && extra0 == Root(t0)
      modifies `arena, `root
      ensures ZipAt(arena, root, Top, if t0.Node? then DeleteFix(ctx0, t0) else Plug(ctx0, t0))
      ensures Keeps(old(arena), arena)
    {
      var extra := extra0;
      ghost var ctx, t := ctx0, t0;
      while extra != root
        invariant ZipAt(arena, root, ctx, t) && extra == Root(t) && t.Node? == t0.Node?
        invariant t.Node? ==> DeleteFix(ctx, t) == DeleteFix(ctx0, t0)
        invariant t.Nil? ==> ctx == ctx0
        invariant Keeps(old(arena), arena)
        decreases if t.Nil? || t.color == Red then 0 else 1 + Depth(ctx)
      {
        if extra.None? {
          break;
        }
        Around(arena, root, ctx, t);
        if arena[extra.value].color != Black {
          break;
        }
        var parent := arena[extra.value].parent.value;
        var branch := if arena[parent].left == extra then Left else Right;
        extra, ctx, t := DeleteFixupIteration(parent, branch, ctx, t);
      }
      if extra.Some? {
        if ctx.In? {
          PathReachesRoot(ctx, Root(t));
        }
        SetColor(extra.value, Black, ctx, t);
        ZipPlug(arena, root, ctx, Paint(t, Black));
      } else {
        ZipPlug(arena, root, ctx, t);
      }
    }

    method DeleteFixupIteration(parent: Handle, branch: Branch, ghost ctx: Ctx<K, V>, ghost t: Tree<K, V>)
      returns (extra: Link, ghost ctx': Ctx<K, V>, ghost t': Tree<K, V>)
      requires ZipAt(arena, root, ctx, t) && t.Node? && t.color == Black
      requires ctx.In? && ctx.e.id == parent && ctx.branch == branch
      modifies `arena, `root
      ensures ZipAt(arena, root, ctx', t') && t'.Node? && extra == Root(t')
      ensures DeleteFix(ctx', t') == DeleteFix(ctx, t)
      ensures (if t'.color == Red then 0 else 1 + Depth(ctx')) < 1 + Depth(ctx)
      ensures Keeps(old(arena), arena)
    {
      Around(arena, root, ctx, t);
      var sibling := arena[parent].Child(branch.Opposite());
      ghost var c := ctx;
      if sibling.Some? && arena[sibling.value].color == Red {
        LowerParent(parent, sibling.value, branch, ctx, t);
        c := Lowered(ctx);
        Around(arena, root, c, t);
        sibling := arena[parent].Child(branch.Opposite());
      }
      extra, ctx', t' := Settle(parent, sibling, branch, c, t);
    }

    /** The rest of the round, with a sibling that is now black. */
    method Settle(parent: Handle, sibling0: Link, branch: Branch, ghost c: Ctx<K, V>, ghost t: Tree<K, V>)
      returns (extra: Link, ghost ctx': Ctx<K, V>, ghost t': Tree<K, V>)
      requires ZipAt(arena, root, c, t) && t.Node?
      requires c.In? && c.e.id == parent && c.branch == branch && sibling0 == Root(c.sibling)
      modifies `arena, `root
      ensures ZipAt(arena, root, ctx', t') && t'.Node? && extra == Root(t')
      ensures ColorOf(Inner(c)) == Black && ColorOf(Outer(c)) == Black ==>
                ctx' == c.up && t' == Join(branch, c.color, t, c.e, Paint(c.sibling, Red))
      ensures ColorOf(Inner(c)) == Red || ColorOf(Outer(c)) == Red ==>
                ctx' == Top && t' == Plug(c.up, Borrowed(c, t))
      ensures Keeps(old(arena), arena)
    {
      var sibling := sibling0;
      ZoomAcross(arena, root, c, t);
      var near, far := NephewColors(sibling, branch.Opposite(), In(branch.Opposite(), c.up, c.color, c.e, t),
                                    c.sibling);
      if near == Black && far == Black {
        if sibling.Some? {
          SetColor(sibling.value, Red, In(branch.Opposite(), c.up, c.color, c.e, t), c.sibling);
        }
        ZoomAcross(arena, root, c.(sibling := Paint(c.sibling, Red)), t);
        ZoomOut(arena, root, c.(sibling := Paint(c.sibling, Red)), t);
        extra, ctx', t' := Some(parent), c.up, Join(branch, c.color, t, c.e, Paint(c.sibling, Red));
        return;
      }
      ghost var c' := c;
      if far == Black {
        RaiseNephew(sibling.value, branch, c, t);
        c' := c.(sibling := Readied(c));
        Around(arena, root, c', t);
        sibling := arena[parent].Child(branch.Opposite());
      }
      Borrow(parent, sibling.value, branch, c', t);
      extra := root;
      ctx', t' := Top, Plug(c.up, Borrowed(c, t));
      ZipPlug(arena, root, c.up, Borrowed(c, t));
      if c.up.In? {
        RootPlug(c.up, t, Borrowed(c, t));
      }
    }

    /** The colours of the children of a sibling, the one on `side` first. */
    method NephewColors(sibling: Link, side: Branch, ghost o: Ctx<K, V>, ghost w: Tree<K, V>)
      returns (near: Color, far: Color)
      requires ZipAt(arena, root, o, w) && sibling == Root(w)
      ensures near == if w.Nil? then Black else ColorOf(Child(w, side))
      ensures far == if w.Nil? then Black else ColorOf(Child(w, side.Opposite()))
    {
      if sibling.None? {
        return Black, Black;
      }
      assert TreeAt(arena, Some(w.e.id), w.left) && TreeAt(arena, Some(w.e.id), w.right);
      near := ColorAt(arena[sibling.value].Child(side));
      far := ColorAt(arena[sibling.value].Child(side.Opposite()));
    }

    /** Red sibling: sibling black, parent red, parent rotated down. */
    method LowerParent(parent: Handle, w: Handle, branch: Branch, ghost ctx: Ctx<K, V>, ghost t: Tree<K, V>)
      requires ZipAt(arena, root, ctx, t) && ctx.In? && ctx.e.id == parent && ctx.branch == branch
      requires ctx.sibling.Node? && ctx.sibling.e.id == w
      modifies `arena, `root
      ensures ZipAt(arena, root, Lowered(ctx), t) && Keeps(old(arena), arena)
    {
      ghost var o := In(branch.Opposite(), ctx.up, ctx.color, ctx.e, t);
      ghost var w' := Paint(ctx.sibling, Black);
      ZoomAcross(arena, root, ctx, t);
      SetColor(w, Black, o, ctx.sibling);
      ZoomOut(arena, root, o, w');
      SetColor(parent, Red, ctx.up, Join(branch, ctx.color, t, ctx.e, w'));
      RotateIn(parent, branch, ctx.up, Join(branch, Red, t, ctx.e, w'));
      ghost var c := Lowered(ctx);
      ZoomOut(arena, root, c, t);
      ZoomOut(arena, root, c.up, Join(branch, Red, t, ctx.e, c.sibling));
    }

    /** Black inner and red outer nephew: the outer one is rotated up in place of the sibling. */
    method RaiseNephew(w: Handle, branch: Branch, ghost c: Ctx<K, V>, ghost t: Tree<K, V>)
      requires ZipAt(arena, root, c, t) && RedNephew(c) && ColorOf(Inner(c)) == Black
      requires c.sibling.Node? && c.sibling.e.id == w && c.branch == branch
      modifies `arena, `root
      ensures ZipAt(arena, root, c.(sibling := Readied(c)), t) && Keeps(old(arena), arena)
    {
      var side := branch.Opposite();
      ghost var s := c.sibling;
      ghost var o := In(side, c.up, c.color, c.e, t);
      ghost var n := In(side, o, s.color, s.e, Inner(c));
      ZoomAcross(arena, root, c, t);
      ZoomIn(arena, root, o, s, side);
      Around(arena, root, n, Outer(c));
      var near := arena[w].Child(side).value;
      SetColor(near, Black, n, Outer(c));
      ghost var u := Paint(Outer(c), Black);
      ZoomOut(arena, root, n, u);
      SetColor(w, Red, o, Join(side, s.color, u, s.e, Inner(c)));
      RotateOut(w, side, o, Join(side, Red, u, s.e, Inner(c)));
      ZoomAcross(arena, root, c.(sibling := Readied(c)), t);
    }

    /** The sibling takes the parent's colour, the parent and the inner nephew turn black, the parent goes down. */
    method Borrow(parent: Handle, w: Handle, branch: Branch, ghost c: Ctx<K, V>, ghost t: Tree<K, V>)
      requires ZipAt(arena, root, c, t) && t.Node? && c.In? && c.e.id == parent && c.branch == branch
      requires c.sibling.Node? && c.sibling.e.id == w
      modifies `arena, `root
      ensures var s := c.sibling;
              ZipAt(arena, root, c.up,
                    Join(branch, c.color, Join(branch, Black, t, c.e, Paint(Child(s, branch), Black)), s.e,
                         Child(s, branch.Opposite())))
      ensures Keeps(old(arena), arena)
    {
      var side := branch.Opposite();
      ghost var s := c.sibling;
      ghost var o := In(side, c.up, c.color, c.e, t);
      Around(arena, root, c, t);
      ZoomAcross(arena, root, c, t);
      SetColor(w, arena[parent].color, o, s);
      s := Paint(s, c.color);
      ZoomOut(arena, root, o, s);
      SetColor(parent, Black, c.up, Join(side, c.color, s, c.e, t));
      o := In(side, c.up, Black, c.e, t);
      ZoomOut(arena, root, o, s);
      ZoomIn(arena, root, o, s, branch);
      var far := arena[w].Child(branch);
      ghost var n := In(branch, o, s.color, s.e, Child(s, side));
      if far.Some? {
        SetColor(far.value, Black, n, Child(s, branch));
      }
      ghost var s' := Join(branch, c.color, Paint(Child(s, branch), Black), s.e, Child(s, side));
      ZoomOut(arena, root, n, Paint(Child(s, branch), Black));
      ZoomOut(arena, root, o, s');
      RotateIn(parent, branch, c.up, Join(branch, Black, t, c.e, s'));
    }

    method DetachNode(z: Handle, ghost ctx: Ctx<K, V>, ghost t: Tree<K, V>)
      requires ZipAt(arena, root, ctx, t) && t.Node? && t.e.id == z && 0 < len
      modifies `arena, `root, `len
      ensures ZipAt(arena, root, Top, Detach(ctx, t)) && Keeps(old(arena), arena) && len == old(len) - 1
    {
      len := len - 1;
      Around(arena, root, ctx, t);
      var zl, zr := arena[z].left, arena[z].right;
      var fix: Link;
      var color: Color;
      if zl.None? {
        color := arena[z].color;
        Splice(z, Right, ctx, t);
        fix := zr;
      } else if zr.None? {
        color := arena[z].color;
        Splice(z, Left, ctx, t);
        fix := zl;
      } else {
        fix, color := DetachTwoChildren(z, ctx, t);
      }
      if color == Black {
        DeleteFixup(fix, Gap(ctx, t), Replacement(t));
      } else {
        ZipPlug(arena, root, Gap(ctx, t), Replacement(t));
      }
    }

    /** Takes a found cell out of the tree and out of the arena. */
    method Free(z: Handle, ghost ctx: Ctx<K, V>, ghost t: Tree<K, V>) returns (v: V)
      requires ZipAt(arena, root, ctx, t) && t.Node? && t.e.id == z && 0 < len && arena.Keys == Ids(Plug(ctx, t))
      modifies `arena, `root, `len
      ensures ZipAt(arena, root, Top, Detach(ctx, t)) && arena.Keys == Ids(Detach(ctx, t)) && len == old(len) - 1
      ensures z in old(arena) && Keeps(old(arena) - {z}, arena) && v == t.e.value == old(arena[z]).value
      ensures forall h :: h in arena ==> arena[h].key in MapOf(Entries(Detach(ctx, t)))
    {
      DetachNode(z, ctx, t);
      FreeAt(arena, root, ctx, t);
      v := arena[z].value;
      arena := arena - {z};
    }

    method Remove(key: K) returns (r: Option<V>)
      requires Valid()
      modifies this
      ensures Valid()
      ensures shape == RemoveAt(lt, Top, old(shape), key) && next == old(next)
      ensures Entries(shape) == RemoveList(old(Entries(shape)), key)
      ensures Contents() == old(Contents()) - {key}
      ensures r == if key in old(Contents()) then Some(old(Contents())[key]) else None
      ensures forall h :: h in arena <==> h in old(arena) && old(arena[h]).key != key
      ensures forall h :: h in old(arena) && old(arena[h]).key == key ==>
                            r == Some(old(arena[h]).value) && arena.Keys == old(arena.Keys) - {h}
      ensures forall h :: h in arena ==> arena[h].key == old(arena[h]).key && arena[h].value == old(arena[h]).value
      ensures len == old(len) - if key in old(Contents()) then 1 else 0
    {
      var _, current, ctx, t, _ := Descend(key);
      SearchDecides(lt, ctx, t, key);
      RemoveSteps(lt, ctx, t, key);
      RemoveFacts(lt, shape, key);
      if current.None? {
        forall h | h in arena ensures arena[h].key != key {
          CellInMap(arena, None, shape, End, h);
        }
        return None;
      }
      var v := Free(current.value, ctx, t);
      shape := Detach(ctx, t);
      r := Some(v);
    }
  }

  /** What one insertion does to an ordered tree with a black root. */
  lemma {:induction false} InsertFacts<K(!new), V>(lt: (K, K) -> bool, t: Tree<K, V>, e: Entry<K, V>)
    requires StrictTotalOrder(lt) && Sorted(lt, Entries(t)) && ColorOf(t) == Black
    ensures var t' := InsertAt(lt, Top, t, e);
            && Entries(t') == InsertList(lt, Entries(t), e)
            && Sorted(lt, Entries(t')) && ColorOf(t') == Black
            && MapOf(Entries(t')) == MapOf(Entries(t))[e.key := e.value]
            && Length(Entries(t')) == Length(Entries(t)) + (if e.key in MapOf(Entries(t)) then 0 else 1)
            && (RedBlack(t) ==> RedBlack(t'))
  {
    InsertRefines(lt, Top, t, e);
    InsertIsUpdate(lt, Entries(t), e);
    InsertRootBlack(lt, Top, t, e);
    if RedBlack(t) {
      InsertRedBlack(lt, Top, t, e);
    }
  }

  /** What one removal does to an ordered tree with a black root, whatever its other colours. */
  lemma {:induction false} RemoveFacts<K(!new), V>(lt: (K, K) -> bool, t: Tree<K, V>, k: K)
    requires StrictTotalOrder(lt) && Sorted(lt, Entries(t)) && ColorOf(t) == Black
    ensures var t' := RemoveAt(lt, Top, t, k);
            && Entries(t') == RemoveList(Entries(t), k)
            && Sorted(lt, Entries(t')) && ColorOf(t') == Black
            && MapOf(Entries(t')) == MapOf(Entries(t)) - {k}
            && Length(Entries(t')) == Length(Entries(t)) - (if k in MapOf(Entries(t)) then 1 else 0)
  {
    RemoveRefines(lt, Top, t, k);
    RemoveIsErase(lt, Entries(t), k);
    RemoveRootBlack(lt, Top, t, k);
  }

  /** The red-uncle case leaves the rest of the fixup to do. */
  lemma {:induction false} RecolorFix<K, V>(ctx: Ctx<K, V>, t: Tree<K, V>)
    requires t.Node? && ctx.In? && ctx.color == Red && ctx.up.In? && ColorOf(Plug(ctx, t)) == Black
             && ColorOf(ctx.up.sibling) == Red
    ensures InsertFix(ctx.up.up, Recolored(ctx, t)) == InsertFix(ctx, t)
    ensures Recolored(ctx, t).Node? && Depth(ctx.up.up) < Depth(ctx)
    ensures ctx.up.up.In? ==> ColorOf(Plug(ctx.up.up, Recolored(ctx, t))) == Black
  {
    var g := ctx.up;
    if g.up.In? {
      PlugColor(g.up, Join(g.branch, g.color, Join(ctx.branch, ctx.color, t, ctx.e, ctx.sibling), g.e, g.sibling),
                Recolored(ctx, t));
    }
  }

  /** The rotations leave the rest of the fixup nothing to do. */
  lemma {:induction false} RotatedFix<K, V>(ctx: Ctx<K, V>, t: Tree<K, V>, c: Ctx<K, V>, f: Tree<K, V>, ctx': Ctx<K, V>)
    requires t.Node? && ctx.In? && ctx.color == Red && ctx.up.In? && ColorOf(Plug(ctx, t)) == Black
             && ColorOf(ctx.up.sibling) == Black
    requires var g, branch := ctx.up, ctx.up.branch;
             && (if ctx.branch == branch then c == ctx && f == t
                 else c == In(branch, g, t.color, t.e, Child(t, branch.Opposite()))
                      && f == Join(branch, ctx.color, ctx.sibling, ctx.e, Child(t, branch)))
             && ctx' == In(branch, g.up, Black, c.e, Join(branch, Red, c.sibling, g.e, g.sibling))
    ensures InsertFix(ctx', f) == InsertFix(ctx, t) && Depth(ctx') < Depth(ctx) && ColorOf(Plug(ctx', f)) == Black
  {
    var g := ctx.up;
    if g.up.In? {
      PlugColor(g.up, Join(g.branch, g.color, Join(ctx.branch, ctx.color, t, ctx.e, ctx.sibling), g.e, g.sibling),
                Rotated(ctx, t));
    }
  }
}
