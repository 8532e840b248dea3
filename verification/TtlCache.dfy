/** The cache on its array of slots (kernel/src/driver/net/mod.rs). */
module TtlCache {
  import opened Prelude
  import opened TtlCacheModel

  class Cache<K(==, !new), V> {
    const entries: array<Slot<K, V>>
    const defaultTtl: nat
    ghost var history: map<K, Record<V>>

    ghost predicate Valid()
      reads this, entries
    {
      Agrees(entries[..], history)
    }

    constructor (capacity: nat, emptyKey: K, emptyValue: V, ttl: nat)
      ensures Valid() && fresh(entries) && entries.Length == capacity && history == map[] && defaultTtl == ttl
      ensures forall k: K, now: nat :: !Present(entries[..], k, now)
    {
      entries := new Slot<K, V>[capacity](_ => Slot(false, emptyKey, emptyValue, None, None));
      defaultTtl, history := ttl, map[];
    }

    /** A hit is the value of the last insertion of the key, not yet expired; a miss means no live entry. */
    method Lookup(k: K, now: nat) returns (found: Option<V>)
      requires Valid()
      modifies this, entries
      ensures Valid() && (entries[..], found) == LookedUp(old(entries[..]), k, now)
      ensures history == Noted(old(history), old(entries[..]), Op<K, V>.Lookup(k, now))
      ensures found.Some? <==> Present(old(entries[..]), k, now)
      ensures found.Some? ==> k in history && found == Some(history[k].value) && now < history[k].expires
    {
      ghost var es, op: Op<K, V> := entries[..], Op.Lookup(k, now);
      HitIsLatest(es, history, k, now);
      if 0 < |es| {
        StepAgrees(es, history, op);
      }
      history := Noted(history, es, op);
      found := None;
      var i := 0;
      while i < entries.Length
        invariant 0 <= i <= entries.Length && entries[..] == es
        invariant FirstHolding(es, k, 0) == FirstHolding(es, k, i)
      {
        if Holds(entries[i], k) {
          if entries[i].Expired(now) {
            entries[i] := entries[i].Freed();
          } else {
            entries[i] := entries[i].(lastAccess := Some(now));
            found := Some(entries[i].value);
          }
          return;
        }
        i := i + 1;
      }
    }

    /** Where the least recently used entry is. */
    method LeastRecentlyUsed() returns (lru: nat)
      requires 0 < entries.Length
      ensures lru == Lru(entries[..], entries.Length) && lru < entries.Length
    {
      lru := 0;
      for i := 1 to entries.Length
        invariant lru == Lru(entries[..], i) && lru < i
      {
        if Older(entries[i].lastAccess, entries[lru].lastAccess) {
          lru := i;
        }
      }
    }

    /** The slot of the key, else the first free or expired slot, else the least recently used one. */
    method TargetSlot(k: K, now: nat) returns (t: nat)
      requires 0 < entries.Length
      ensures t == Target(entries[..], k, now)
    {
      ghost var es := entries[..];
      var i := 0;
      while i < entries.Length
        invariant 0 <= i <= entries.Length && FirstHolding(es, k, 0) == FirstHolding(es, k, i)
      {
        if Holds(entries[i], k) {
          return i;
        }
        i := i + 1;
      }
      i := 0;
      while i < entries.Length
        invariant 0 <= i <= entries.Length && FirstDead(es, now, 0) == FirstDead(es, now, i)
      {
        if !entries[i].Live(now) {
          return i;
        }
        i := i + 1;
      }
      t := LeastRecentlyUsed();
    }

    method InsertWithTtl(k: K, v: V, ttl: nat, now: nat)
      requires Valid() && 0 < entries.Length
      modifies this, entries
      ensures Valid() && entries[..] == Inserted(old(entries[..]), k, v, now, ttl)
      ensures history == old(history)[k := Record(v, Later(now, ttl), now)]
      ensures forall t: nat :: LookedUp(entries[..], k, t).1
                            == if t < now + ttl && t < 0xFFFF_FFFF_FFFF_FFFF then Some(v) else None
    {
      ghost var es, op: Op<K, V> := entries[..], Op.Insert(k, v, ttl, now);
      StepAgrees(es, history, op);
      forall t: nat
        ensures LookedUp(Inserted(es, k, v, now, ttl), k, t).1
             == if t < now + ttl && t < 0xFFFF_FFFF_FFFF_FFFF then Some(v) else None
      {
        InsertIsFound(es, history, k, v, ttl, now, t);
      }
      history := Noted(history, es, op);
      var slot := TargetSlot(k, now);
      entries[slot] := Slot(true, k, v, Some(Later(now, ttl)), Some(now));
      assert entries[..] == Inserted(es, k, v, now, ttl);
    }

    method Insert(k: K, v: V, now: nat)
      requires Valid() && 0 < entries.Length
      modifies this, entries
      ensures Valid() && entries[..] == Inserted(old(entries[..]), k, v, now, defaultTtl)
      ensures history == old(history)[k := Record(v, Later(now, defaultTtl), now)]
    {
      InsertWithTtl(k, v, defaultTtl, now);
    }

    /** Purging frees slots and changes no lookup. */
    method PurgeExpired(now: nat)
      requires Valid()
      modifies entries
      ensures Valid() && entries[..] == Purged(old(entries[..]), now)
      ensures forall k: K :: Present(entries[..], k, now) <==> Present(old(entries[..]), k, now)
      ensures forall i :: 0 <= i < entries.Length && entries[i].occupied ==> entries[i].Live(now)
    {
      ghost var es := entries[..];
      if 0 < |es| {
        StepAgrees(es, history, Purge(now));
      }
      for i := 0 to entries.Length
        invariant forall j :: 0 <= j < i ==> entries[j] == Purged(es, now)[j]
        invariant forall j :: i <= j < entries.Length ==> entries[j] == es[j]
      {
        if entries[i].occupied && entries[i].Expired(now) {
          entries[i] := entries[i].Freed();
        }
      }
      assert entries[..] == Purged(es, now);
      PurgeKeepsLookups(es, now);
    }

    /** The number of keys a lookup finds. */
    method Len(now: nat) returns (count: nat)
      requires Valid()
      ensures count == |set k: K | k in history && Present(entries[..], k, now)|
    {
      count := 0;
      for i := 0 to entries.Length
        invariant count == LiveCount(entries[..], now, i)
      {
        if entries[i].Live(now) {
          count := count + 1;
        }
      }
      CountIsKeys(entries[..], history, now, entries.Length);
      assert LiveKeys(entries[..], now, entries.Length) == set k: K | k in history && Present(entries[..], k, now);
    }
  }

  lemma {:induction false} PurgeKeepsLookups<K(!new), V>(es: seq<Slot<K, V>>, now: nat)
    ensures forall k: K :: Present(Purged(es, now), k, now) <==> Present(es, k, now)
  {
    forall k: K ensures Present(Purged(es, now), k, now) <==> Present(es, k, now) {
      if i :| 0 <= i < |es| && Holds(es[i], k) && es[i].Live(now) {
        assert Holds(Purged(es, now)[i], k);
      }
    }
  }
}
