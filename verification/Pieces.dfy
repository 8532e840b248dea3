/** Sequences made of pieces, and sequences with a piece replaced. */
module Pieces {
  /** `k` times `n`, by addition. */
  function Times(k: nat, n: nat): nat {
    if k == 0 then 0 else n + Times(k - 1, n)
  }

  lemma {:induction false} TimesIsProduct(k: nat, n: nat)
    ensures Times(k, n) == k * n
  {
    if k > 0 {
      TimesIsProduct(k - 1, n);
      assert k * n == n + (k - 1) * n;
    }
  }

  lemma {:induction false} TimesNext(k: nat, n: nat)
    ensures Times(k + 1, n) == Times(k, n) + n
  {
  }

  lemma {:induction false} TimesMonotone(j: nat, k: nat, n: nat)
    requires j <= k
    ensures Times(j, n) <= Times(k, n)
  {
    if j < k {
      TimesMonotone(j, k - 1, n);
    }
  }

  function Concat<T>(ps: seq<seq<T>>): seq<T> {
    if ps == [] then [] else ps[0] + Concat(ps[1..])
  }

  lemma {:induction false} ConcatAppend<T>(ps: seq<seq<T>>, qs: seq<seq<T>>)
    ensures Concat(ps + qs) == Concat(ps) + Concat(qs)
    decreases |ps|
  {
    if ps == [] {
      assert ps + qs == qs;
    } else {
      assert (ps + qs)[1..] == ps[1..] + qs;
      ConcatAppend(ps[1..], qs);
      assert ps[0] + (Concat(ps[1..]) + Concat(qs)) == (ps[0] + Concat(ps[1..])) + Concat(qs);
    }
  }

  lemma {:induction false} ConcatOne<T>(p: seq<T>)
    ensures Concat([p]) == p
  {
    assert Concat([p]) == p + Concat([p][1..]);
  }

  lemma {:induction false} ConcatNext<T>(ps: seq<seq<T>>, i: nat)
    requires i < |ps|
    ensures Concat(ps[..i + 1]) == Concat(ps[..i]) + ps[i]
  {
    assert ps[..i + 1] == ps[..i] + [ps[i]];
    ConcatAppend(ps[..i], [ps[i]]);
    ConcatOne(ps[i]);
  }

  ghost predicate Uniform<T>(ps: seq<seq<T>>, size: nat) {
    forall i :: 0 <= i < |ps| ==> |ps[i]| == size
  }

  lemma {:induction false} UniformLength<T>(ps: seq<seq<T>>, size: nat)
    requires Uniform(ps, size)
    ensures |Concat(ps)| == Times(|ps|, size)
    decreases |ps|
  {
    if ps != [] {
      UniformLength(ps[1..], size);
    }
  }

  /** The sequence around piece `k`, which begins at `before`. */
  lemma {:induction false} AroundPiece<T>(ps: seq<seq<T>>, k: nat, size: nat)
    returns (head: seq<T>, tail: seq<T>)
    requires Uniform(ps, size) && k < |ps|
    ensures |head| == Times(k, size) && head == Concat(ps[..k]) && tail == Concat(ps[k + 1..])
    ensures Concat(ps) == head + ps[k] + tail
    ensures forall p: seq<T> :: Concat(ps[k := p]) == head + p + tail
  {
    head, tail := Concat(ps[..k]), Concat(ps[k + 1..]);
    UniformLength(ps[..k], size);
    forall p: seq<T> ensures Concat(ps[k := p]) == head + p + tail {
      assert ps[k := p] == ps[..k] + ([p] + ps[k + 1..]);
      ConcatAppend(ps[..k], [p] + ps[k + 1..]);
      ConcatAppend([p], ps[k + 1..]);
      ConcatOne(p);
    }
    assert ps[k := ps[k]] == ps;
  }

  /** `f` with the elements from `o` on replaced by `b`. */
  function Splice<T>(f: seq<T>, o: nat, b: seq<T>): (r: seq<T>)
    requires o + |b| <= |f|
    ensures |r| == |f|
  {
    f[..o] + b + f[o + |b|..]
  }

  lemma {:induction false} SpliceSplice<T>(f: seq<T>, o: nat, a: seq<T>, b: seq<T>, at: nat)
    requires at == o + |a| && at + |b| <= |f|
    ensures Splice(Splice(f, o, a), at, b) == Splice(f, o, a + b)
  {
    var s := Splice(f, o, a);
    assert s[..at] == f[..o] + a && s[at + |b|..] == f[at + |b|..];
  }

  lemma {:induction false} SpliceSlices<T>(f: seq<T>, o: nat, b: seq<T>, i: nat, j: nat)
    requires o + |b| <= |f| && i <= j <= |f| && (j <= o || o + |b| <= i)
    ensures Splice(f, o, b)[o..o + |b|] == b && Splice(f, o, b)[i..j] == f[i..j]
  {
  }

  lemma {:induction false} SpliceNothing<T>(f: seq<T>, o: nat)
    requires o <= |f|
    ensures Splice(f, o, []) == f
  {
  }

  lemma {:induction false} SpliceInside<T>(head: seq<T>, p: seq<T>, tail: seq<T>, o: nat, b: seq<T>, at: nat)
    requires o + |b| <= |p| && at == |head| + o
    ensures Splice(head + p + tail, at, b) == head + Splice(p, o, b) + tail
    ensures (head + p + tail)[at..at + |b|] == p[o..o + |b|]
  {
    var f := head + p + tail;
    assert f[..at] == head + p[..o] && f[at + |b|..] == p[o + |b|..] + tail;
  }

  /** A stretch of piece `k`, at `at` in the whole. */
  lemma {:induction false} PieceInWhole<T>(ps: seq<seq<T>>, size: nat, k: nat, o: nat, n: nat, at: nat)
    requires Uniform(ps, size) && k < |ps| && o + n <= size && at == Times(k, size) + o
    ensures at + n <= |Concat(ps)| && Concat(ps)[at..at + n] == ps[k][o..o + n]
  {
    var head, tail := AroundPiece(ps, k, size);
    SpliceInside(head, ps[k], tail, o, ps[k][o..o + n], at);
  }

  /** Replacing a stretch of piece `k` replaces it in the whole. */
  lemma {:induction false} SpliceInWhole<T>(ps: seq<seq<T>>, size: nat, k: nat, o: nat, b: seq<T>, at: nat)
    requires Uniform(ps, size) && k < |ps| && o + |b| <= size && at == Times(k, size) + o
    ensures at + |b| <= |Concat(ps)| && Concat(ps[k := Splice(ps[k], o, b)]) == Splice(Concat(ps), at, b)
  {
    var head, tail := AroundPiece(ps, k, size);
    SpliceInside(head, ps[k], tail, o, b, at);
  }
}
