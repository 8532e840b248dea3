/** Whole runs of insertions and removals on the red-black tree: what they keep, when the tree
    stays balanced, and how far from balanced removals can take it. */
module RbRuns {
  import opened OrderedList
  import opened RbShape

  datatype Op<K, V> = Put(key: K, value: V) | Take(key: K)

  function Step<K(==), V>(lt: (K, K) -> bool, t: Tree<K, V>, op: Op<K, V>, id: Handle): Tree<K, V> {
    match op
    case Put(k, v) => InsertAt(lt, Top, t, Entry(id, k, v))
    case Take(k) => RemoveAt(lt, Top, t, k)
  }

  /** The tree after a run from empty; handles are numbered by operation. */
  function Run<K(==), V>(lt: (K, K) -> bool, ops: seq<Op<K, V>>): Tree<K, V> {
    if ops == [] then Nil else Step(lt, Run(lt, ops[..|ops| - 1]), ops[|ops| - 1], |ops|)
  }

  function RunMap<K(==), V>(ops: seq<Op<K, V>>): map<K, V> {
    if ops == [] then map[]
    else
      var m := RunMap(ops[..|ops| - 1]);
      match ops[|ops| - 1]
      case Put(k, v) => m[k := v]
      case Take(k) => m - {k}
  }

  lemma {:induction false} RunOneMore<K, V>(lt: (K, K) -> bool, ops: seq<Op<K, V>>, op: Op<K, V>)
    ensures Run(lt, ops + [op]) == Step(lt, Run(lt, ops), op, |ops| + 1)
  {
    assert (ops + [op])[..|ops|] == ops;
  }

  /** Every run keeps the keys in order, the root absent or black, and the contents of a plain map. */
  lemma {:induction false} RunAgreesWithMap<K(!new), V>(lt: (K, K) -> bool, ops: seq<Op<K, V>>)
    requires StrictTotalOrder(lt)
    ensures Sorted(lt, Entries(Run(lt, ops))) && ColorOf(Run(lt, ops)) == Black
    ensures MapOf(Entries(Run(lt, ops))) == RunMap(ops)
    decreases |ops|
  {
    if ops != [] {
      RunAgreesWithMap(lt, ops[..|ops| - 1]);
      var t := Run(lt, ops[..|ops| - 1]);
      match ops[|ops| - 1]
      case Put(k, v) =>
        var e := Entry(|ops|, k, v);
        InsertRefines(lt, Top, t, e);
        InsertRootBlack(lt, Top, t, e);
        InsertIsUpdate(lt, Entries(t), e);
      case Take(k) =>
        RemoveRefines(lt, Top, t, k);
        RemoveRootBlack(lt, Top, t, k);
        RemoveIsErase(lt, Entries(t), k);
    }
  }

  // ── When a run stays balanced ─────────────────────────────────────────────

  /** Operation `i` of the run is no removal, or one that keeps the balance. */
  predicate KeepsAt<K(==), V>(lt: (K, K) -> bool, ops: seq<Op<K, V>>, i: nat)
    requires i < |ops|
  {
    ops[i].Take? ==> KeepsBalanceAt(lt, Top, Run(lt, ops[..i]), ops[i].key)
  }

  predicate RedBlackAt<K(==), V>(lt: (K, K) -> bool, ops: seq<Op<K, V>>, i: nat)
    requires i <= |ops|
  {
    RedBlack(Run(lt, ops[..i]))
  }

  lemma {:induction false} StepRedBlack<K, V>(lt: (K, K) -> bool, ops: seq<Op<K, V>>, i: nat)
    requires i < |ops| && RedBlackAt(lt, ops, i)
    ensures RedBlackAt(lt, ops, i + 1) <==> KeepsAt(lt, ops, i)
  {
    var t := Run(lt, ops[..i]);
    assert ops[..i + 1] == ops[..i] + [ops[i]];
    RunOneMore(lt, ops[..i], ops[i]);
    match ops[i]
    case Put(k, v) => InsertRedBlack(lt, Top, t, Entry(i + 1, k, v));
    case Take(k) => RemoveRedBlack(lt, Top, t, k);
  }

  lemma {:induction false} StaysRedBlack<K, V>(lt: (K, K) -> bool, ops: seq<Op<K, V>>, n: nat)
    requires n <= |ops| && forall i :: 0 <= i < n ==> KeepsAt(lt, ops, i)
    ensures RedBlackAt(lt, ops, n)
  {
    if n > 0 {
      StaysRedBlack(lt, ops, n - 1);
      StepRedBlack(lt, ops, n - 1);
    }
  }

  /** A run stays red-black throughout exactly if every removal in it keeps the balance;
      the height is then logarithmic throughout. */
  lemma {:induction false} RunRedBlack<K, V>(lt: (K, K) -> bool, ops: seq<Op<K, V>>)
    ensures (forall i :: 0 <= i <= |ops| ==> RedBlackAt(lt, ops, i))
              <==> (forall i :: 0 <= i < |ops| ==> KeepsAt(lt, ops, i))
    ensures (forall i :: 0 <= i < |ops| ==> KeepsAt(lt, ops, i))
        ==> Pow2(Height(Run(lt, ops))) <= (Size(Run(lt, ops)) + 1) * (Size(Run(lt, ops)) + 1)
  {
    if forall i :: 0 <= i <= |ops| ==> RedBlackAt(lt, ops, i) {
      forall i | 0 <= i < |ops| ensures KeepsAt(lt, ops, i) {
        assert RedBlackAt(lt, ops, i + 1);
        StepRedBlack(lt, ops, i);
      }
    }
    if forall i :: 0 <= i < |ops| ==> KeepsAt(lt, ops, i) {
      forall i | 0 <= i <= |ops| ensures RedBlackAt(lt, ops, i) {
        StaysRedBlack(lt, ops, i);
      }
      assert RedBlackAt(lt, ops, |ops|) && ops[..|ops|] == ops;
      HeightBound(Run(lt, ops));
    }
  }

  /** Runs of insertions are among them. */
  lemma {:induction false} InsertRunBalanced<K, V>(lt: (K, K) -> bool, ops: seq<Op<K, V>>)
    requires forall i :: 0 <= i < |ops| ==> ops[i].Put?
    ensures RedBlack(Run(lt, ops))
    ensures Pow2(Height(Run(lt, ops))) <= (Size(Run(lt, ops)) + 1) * (Size(Run(lt, ops)) + 1)
  {
    forall i | 0 <= i < |ops| ensures KeepsAt(lt, ops, i) {
    }
    RunRedBlack(lt, ops);
    assert RedBlackAt(lt, ops, |ops|) && ops[..|ops|] == ops;
  }

  // ── How far removals can take the tree from balanced ──────────────────────

  function Less(x: int, y: int): bool { x < y }

  /** Every key of `t` would be looked for along `ctx`. */
  ghost predicate Routed<K, V>(lt: (K, K) -> bool, ctx: Ctx<K, V>, t: Tree<K, V>) {
    t.Node? ==> OnPath(lt, ctx, t.e.key) && Routed(lt, ctx, t.left) && Routed(lt, ctx, t.right)
  }

  ghost predicate SearchTree<K, V>(lt: (K, K) -> bool, t: Tree<K, V>) {
    t.Node? ==>
      && TreeBelow(lt, t.left, t.e.key) && TreeAbove(lt, t.right, t.e.key)
      && SearchTree(lt, t.left) && SearchTree(lt, t.right)
  }

  lemma {:induction false} SortedIsSearchTree<K(!new), V>(lt: (K, K) -> bool, t: Tree<K, V>, rest: List<Entry<K, V>>)
    requires StrictTotalOrder(lt) && Sorted(lt, Flat(t, rest))
    ensures SearchTree(lt, t)
    decreases t
  {
    if t.Node? {
      var l := Cons(t.e, Flat(t.right, rest));
      BelowFromSorted(lt, t.left, l, t.e.key);
      BelowFromSorted(lt, t.right, rest, t.e.key);
      SortedIsSearchTree(lt, t.left, l);
      SortedIsSearchTree(lt, t.right, rest);
    }
  }

  lemma {:induction false} RoutedTop<K, V>(lt: (K, K) -> bool, t: Tree<K, V>)
    ensures Routed(lt, Top, t)
  {
    if t.Node? {
      RoutedTop(lt, t.left);
      RoutedTop(lt, t.right);
    }
  }

  /** The keys on side `b` of `e` are looked for through `e`, whatever is on its other side. */
  lemma {:induction false} RoutedThrough<K(!new), V>(lt: (K, K) -> bool, b: Branch, ctx: Ctx<K, V>, c: Color,
                                                     e: Entry<K, V>, s: Tree<K, V>, t: Tree<K, V>)
    requires StrictTotalOrder(lt) && Routed(lt, ctx, t)
    requires if b.Left? then TreeBelow(lt, t, e.key) else TreeAbove(lt, t, e.key)
    ensures Routed(lt, In(b, ctx, c, e, s), t)
    decreases t
  {
    if t.Node? {
      RoutedThrough(lt, b, ctx, c, e, s, t.left);
      RoutedThrough(lt, b, ctx, c, e, s, t.right);
    }
  }

  /** Taking a leaf just unlinks it. */
  lemma {:induction false} TakeLeaf<K, V>(lt: (K, K) -> bool, ctx: Ctx<K, V>, c: Color, e: Entry<K, V>)
    requires OnPath(lt, ctx, e.key)
    ensures RemoveAt(lt, Top, Plug(ctx, Node(c, Nil, e, Nil)), e.key) == Plug(ctx, Nil)
  {
    RemoveSteps(lt, ctx, Node(c, Nil, e, Nil), e.key);
  }

  /** Any subtree can be taken away, leaves first, without touching the rest of the tree. */
  lemma {:induction false} Prune<K(!new), V>(lt: (K, K) -> bool, ctx: Ctx<K, V>, t: Tree<K, V>, ops: seq<Op<K, V>>)
    returns (ops': seq<Op<K, V>>)
    requires StrictTotalOrder(lt) && Run(lt, ops) == Plug(ctx, t) && SearchTree(lt, t) && Routed(lt, ctx, t)
    ensures Run(lt, ops') == Plug(ctx, Nil)
    decreases t
  {
    if t.Nil? {
      return ops;
    }
    RoutedThrough(lt, Left, ctx, t.color, t.e, t.right, t.left);
    ops' := Prune(lt, In(Left, ctx, t.color, t.e, t.right), t.left, ops);
    RoutedThrough(lt, Right, ctx, t.color, t.e, Nil, t.right);
    ops' := Prune(lt, In(Right, ctx, t.color, t.e, Nil), t.right, ops');
    TakeLeaf(lt, ctx, t.color, t.e);
    RunOneMore(lt, ops', Take(t.e.key));
    ops' := ops' + [Take(t.e.key)];
  }

  /** Removals can leave of a subtree just its longest path. */
  lemma {:induction false} Straighten<K(!new), V>(lt: (K, K) -> bool, ctx: Ctx<K, V>, t: Tree<K, V>, ops: seq<Op<K, V>>)
    returns (ops': seq<Op<K, V>>, t': Tree<K, V>)
    requires StrictTotalOrder(lt) && Run(lt, ops) == Plug(ctx, t) && SearchTree(lt, t) && Routed(lt, ctx, t)
    ensures Run(lt, ops') == Plug(ctx, t') && Size(t') == Height(t') == Height(t)
    decreases t
  {
    if t.Nil? {
      return ops, t;
    }
    var b := if Height(t.left) < Height(t.right) then Right else Left;
    var near, far := Child(t, b), Child(t, b.Opposite());
    RoutedThrough(lt, b.Opposite(), ctx, t.color, t.e, near, far);
    ops' := Prune(lt, In(b.Opposite(), ctx, t.color, t.e, near), far, ops);
    RoutedThrough(lt, b, ctx, t.color, t.e, Nil, near);
    var u;
    ops', u := Straighten(lt, In(b, ctx, t.color, t.e, Nil), near, ops');
    t' := Join(b, t.color, u, t.e, Nil);
  }

  function Puts(n: nat): (ops: seq<Op<int, int>>)
    ensures |ops| == n
  {
    if n == 0 then [] else Puts(n - 1) + [Put(n, n)]
  }

  lemma {:induction false} PutsFill(n: nat)
    ensures Size(Run(Less, Puts(n))) == n && forall k :: k in RunMap(Puts(n)) ==> k <= n
  {
    if n > 0 {
      var ops := Puts(n - 1);
      var t, e := Run(Less, ops), Entry(n, n, n);
      PutsFill(n - 1);
      assert Puts(n)[..n - 1] == ops;
      RunAgreesWithMap(Less, ops);
      InsertRefines(Less, Top, t, e);
      InsertIsUpdate(Less, Entries(t), e);
      FlatLength(t, End);
      FlatLength(Run(Less, Puts(n)), End);
    }
  }

  lemma {:induction false} SizeBound<K, V>(t: Tree<K, V>)
    ensures Size(t) + 1 <= Pow2(Height(t))
  {
    if t.Node? {
      SizeBound(t.left);
      SizeBound(t.right);
      Pow2Monotone(Height(t.left), Height(t) - 1);
      Pow2Monotone(Height(t.right), Height(t) - 1);
    }
  }

  lemma {:induction false} NextSquare(n: nat, square: nat)
    requires 6 < n && square == n * n
    ensures (n + 1) * (n + 1) <= 2 * square
  {
    assert square == 3 * n + (n - 3) * n && (n + 1) * (n + 1) == square + 2 * n + 1;
    assert 0 <= (n - 3) * n;
  }

  lemma {:induction false} SquareBelowPow2(n: nat)
    requires 6 <= n
    ensures (n + 1) * (n + 1) < Pow2(n)
  {
    if n == 6 {
      assert Pow2(3) == 8;
      assert Pow2(5) == 32;
    } else {
      SquareBelowPow2(n - 1);
      NextSquare(n, n * n);
    }
  }

  /** A tree that is one long path, over the height that a red-black tree of its size may have. */
  ghost predicate Degenerate(ops: seq<Op<int, int>>, n: nat) {
    var t := Run(Less, ops);
    n <= Size(t) == Height(t) && (Size(t) + 1) * (Size(t) + 1) < Pow2(Height(t))
  }

  /** Insertions give trees of any height. */
  lemma {:induction false} TallRun(h: nat) returns (ops: seq<Op<int, int>>)
    ensures h <= Height(Run(Less, ops))
  {
    ops := Puts(Pow2(h));
    var t := Run(Less, ops);
    PutsFill(Pow2(h));
    SizeBound(t);
    if Height(t) < h {
      Pow2Monotone(Height(t), h);
      assert false;
    }
  }

  /** No logarithmic bound on the height survives removals: there are runs that end in arbitrarily long paths. */
  lemma {:induction false} RemovalsDegenerate(n: nat)
    ensures exists ops :: Degenerate(ops, n)
  {
    var ops := TallRun(n + 6);
    var t := Run(Less, ops);
    RunAgreesWithMap(Less, ops);
    SortedIsSearchTree(Less, t, End);
    RoutedTop(Less, t);
    var ops', t' := Straighten(Less, Top, t, ops);
    SquareBelowPow2(Height(t'));
    assert Degenerate(ops', n);
  }

  // ── The rule on a short run ───────────────────────────────────────────────

  /** Three keys, a fourth to turn the leaves black, which goes again; then a leaf goes. */
  function ShortRun(): seq<Op<int, int>> {
    [Put(2, 0), Put(1, 0), Put(3, 0), Put(4, 0), Take(4), Take(1)]
  }

  lemma {:induction false} ShortRunTrees()
    ensures Run(Less, ShortRun()[..5])
         == Node(Black, Node(Black, Nil, Entry(2, 1, 0), Nil), Entry(1, 2, 0), Node(Black, Nil, Entry(3, 3, 0), Nil))
  {
    var ops := ShortRun();
    var a, b, c, d := Entry(1, 2, 0), Entry(2, 1, 0), Entry(3, 3, 0), Entry(4, 4, 0);
    var t1 := Node(Black, Nil, a, Nil);
    var t2 := Node(Black, Node(Red, Nil, b, Nil), a, Nil);
    var t3 := Node(Black, Node(Red, Nil, b, Nil), a, Node(Red, Nil, c, Nil));
    var right := Node(Black, Nil, c, Node(Red, Nil, d, Nil));
    var t4 := Node(Black, Node(Black, Nil, b, Nil), a, right);
    assert ops[..1] == [] + [ops[0]] && ops[..2] == ops[..1] + [ops[1]] && ops[..3] == ops[..2] + [ops[2]];
    assert ops[..4] == ops[..3] + [ops[3]] && ops[..5] == ops[..4] + [ops[4]];
    RunOneMore(Less, [], ops[0]);
    assert Run(Less, ops[..1]) == t1;
    RunOneMore(Less, ops[..1], ops[1]);
    assert Run(Less, ops[..2]) == t2;
    RunOneMore(Less, ops[..2], ops[2]);
    assert Run(Less, ops[..3]) == t3;
    RunOneMore(Less, ops[..3], ops[3]);
    assert Run(Less, ops[..4]) == t4;
    RunOneMore(Less, ops[..4], ops[4]);
    var up := In(Right, Top, Black, a, Node(Black, Nil, b, Nil));
    var ctx := In(Right, up, Black, c, Nil);
    assert Plug(ctx, Node(Red, Nil, d, Nil)) == Plug(up, right) == t4;
    assert OnPath(Less, up, 4) && OnPath(Less, ctx, 4);
    TakeLeaf(Less, ctx, Red, d);
    assert Plug(ctx, Nil) == Plug(up, Node(Black, Nil, c, Nil));
    assert ops[4] == Take(4) && Step(Less, t4, ops[4], 5) == RemoveAt(Less, Top, t4, 4);
  }

  /** A run of six operations that ends in a tree that is not red-black. */
  lemma {:induction false} BlackLeafCounterexample()
    ensures RedBlackAt(Less, ShortRun(), 5) && !KeepsAt(Less, ShortRun(), 5) && !RedBlackAt(Less, ShortRun(), 6)
  {
    ShortRunTrees();
    StepRedBlack(Less, ShortRun(), 5);
  }
}
