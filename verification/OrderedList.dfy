/** An ordered map in its simplest form: a linked list of entries in key order. */
module OrderedList {
  /** Never reused: the arena tags every slot with a generation. */
  type Handle = nat

  datatype Entry<K, V> = Entry(id: Handle, key: K, value: V)

  datatype List<T> = End | Cons(head: T, tail: List<T>)

  ghost predicate StrictTotalOrder<K(!new)>(lt: (K, K) -> bool) {
    && (forall x :: !lt(x, x))
    && (forall x, y, z :: lt(x, y) && lt(y, z) ==> lt(x, z))
    && (forall x, y :: x == y || lt(x, y) || lt(y, x))
  }

  function Length<T>(l: List<T>): nat {
    if l.End? then 0 else 1 + Length(l.tail)
  }

  function Keys<K, V>(l: List<Entry<K, V>>): seq<K> {
    if l.End? then [] else [l.head.key] + Keys(l.tail)
  }

  ghost predicate AllAbove<K, V>(lt: (K, K) -> bool, l: List<Entry<K, V>>, k: K) {
    l.End? || (lt(k, l.head.key) && AllAbove(lt, l.tail, k))
  }

  ghost predicate Sorted<K, V>(lt: (K, K) -> bool, l: List<Entry<K, V>>) {
    l.End? || (AllAbove(lt, l.tail, l.head.key) && Sorted(lt, l.tail))
  }

  /** The plain map the entries stand for. */
  ghost function MapOf<K, V>(l: List<Entry<K, V>>): map<K, V> {
    if l.End? then map[] else MapOf(l.tail)[l.head.key := l.head.value]
  }

  /** Puts `e` in its place, or overwrites the value kept under its key. */
  ghost function InsertList<K, V>(lt: (K, K) -> bool, l: List<Entry<K, V>>, e: Entry<K, V>): List<Entry<K, V>> {
    if l.End? then Cons(e, End)
    else if l.head.key == e.key then Cons(l.head.(value := e.value), l.tail)
    else if lt(e.key, l.head.key) then Cons(e, l)
    else Cons(l.head, InsertList(lt, l.tail, e))
  }

  ghost function RemoveList<K, V>(l: List<Entry<K, V>>, k: K): List<Entry<K, V>> {
    if l.End? then End
    else if l.head.key == k then l.tail
    else Cons(l.head, RemoveList(l.tail, k))
  }

  lemma {:induction false} AboveTransitive<K(!new), V>(lt: (K, K) -> bool, l: List<Entry<K, V>>, k: K, j: K)
    requires StrictTotalOrder(lt) && AllAbove(lt, l, k) && lt(j, k)
    ensures AllAbove(lt, l, j)
  {
    if l.Cons? { AboveTransitive(lt, l.tail, k, j); }
  }

  lemma {:induction false} AboveAbsent<K(!new), V>(lt: (K, K) -> bool, l: List<Entry<K, V>>, k: K)
    requires StrictTotalOrder(lt) && AllAbove(lt, l, k)
    ensures k !in MapOf(l)
  {
    if l.Cons? { AboveAbsent(lt, l.tail, k); }
  }

  lemma {:induction false} InsertAbove<K(!new), V>(lt: (K, K) -> bool, l: List<Entry<K, V>>, e: Entry<K, V>, k: K)
    requires StrictTotalOrder(lt) && AllAbove(lt, l, k) && lt(k, e.key)
    ensures AllAbove(lt, InsertList(lt, l, e), k)
  {
    if l.Cons? { InsertAbove(lt, l.tail, e, k); }
  }

  lemma {:induction false} RemoveAbove<K(!new), V>(lt: (K, K) -> bool, l: List<Entry<K, V>>, d: K, k: K)
    requires AllAbove(lt, l, k)
    ensures AllAbove(lt, RemoveList(l, d), k)
  {
    if l.Cons? { RemoveAbove(lt, l.tail, d, k); }
  }

  lemma {:induction false} InsertIsUpdate<K(!new), V>(lt: (K, K) -> bool, l: List<Entry<K, V>>, e: Entry<K, V>)
    requires StrictTotalOrder(lt) && Sorted(lt, l)
    ensures Sorted(lt, InsertList(lt, l, e))
    ensures MapOf(InsertList(lt, l, e)) == MapOf(l)[e.key := e.value]
    ensures Length(InsertList(lt, l, e)) == Length(l) + (if e.key in MapOf(l) then 0 else 1)
  {
    if l.End? {
    } else if l.head.key == e.key {
    } else if lt(e.key, l.head.key) {
      AboveTransitive(lt, l.tail, l.head.key, e.key);
      AboveAbsent(lt, l, e.key);
    } else {
      InsertIsUpdate(lt, l.tail, e);
      InsertAbove(lt, l.tail, e, l.head.key);
    }
  }

  lemma {:induction false} RemoveIsErase<K(!new), V>(lt: (K, K) -> bool, l: List<Entry<K, V>>, k: K)
    requires StrictTotalOrder(lt) && Sorted(lt, l)
    ensures Sorted(lt, RemoveList(l, k))
    ensures MapOf(RemoveList(l, k)) == MapOf(l) - {k}
    ensures Length(RemoveList(l, k)) == Length(l) - (if k in MapOf(l) then 1 else 0)
  {
    if l.Cons? {
      if l.head.key == k {
        AboveAbsent(lt, l.tail, k);
      } else {
        RemoveIsErase(lt, l.tail, k);
        RemoveAbove(lt, l.tail, k, l.head.key);
      }
    }
  }
}
