/**
 * The fixed-capacity cache with an expiry per entry (kernel/src/driver/net/mod.rs),
 * as functions on its slots. Times are 64-bit nanosecond counts, passed in.
 */
module TtlCacheModel {
  import opened Prelude

  const MAX_TIME: nat := 0xFFFF_FFFF_FFFF_FFFF

  /** Addition of a duration stops at the largest time. */
  function Later(now: nat, ttl: nat): nat {
    if now + ttl <= MAX_TIME then now + ttl else MAX_TIME
  }

  datatype Slot<K, V> = Slot(occupied: bool, key: K, value: V, expiresAt: Option<nat>, lastAccess: Option<nat>) {
    predicate Expired(now: nat) { expiresAt.None? || expiresAt.value <= now }

    predicate Live(now: nat) { occupied && !Expired(now) }

    function Freed(): Slot<K, V> { this.(occupied := false, expiresAt := None, lastAccess := None) }
  }

  predicate Holds<K(==), V>(e: Slot<K, V>, k: K) { e.occupied && e.key == k }

  /** The first slot that holds `k`, from slot `i` on. */
  function FirstHolding<K(==), V>(es: seq<Slot<K, V>>, k: K, i: nat): (r: Option<nat>)
    requires i <= |es|
    ensures r.Some? ==> i <= r.value < |es| && Holds(es[r.value], k)
    ensures forall j :: i <= j < (if r.Some? then r.value else |es|) ==> !Holds(es[j], k)
    decreases |es| - i
  {
    if i == |es| then None else if Holds(es[i], k) then Some(i) else FirstHolding(es, k, i + 1)
  }

  /** The first slot that is free or expired, from slot `i` on. */
  function FirstDead<K, V>(es: seq<Slot<K, V>>, now: nat, i: nat): (r: Option<nat>)
    requires i <= |es|
    ensures r.Some? ==> i <= r.value < |es| && !es[r.value].Live(now)
    ensures forall j :: i <= j < (if r.Some? then r.value else |es|) ==> es[j].Live(now)
    decreases |es| - i
  {
    if i == |es| then None else if !es[i].Live(now) then Some(i) else FirstDead(es, now, i + 1)
  }

  predicate Older(a: Option<nat>, b: Option<nat>) {
    b.Some? && (a.None? || a.value < b.value)
  }

  /** The least recently used of the first `n` slots. */
  function Lru<K, V>(es: seq<Slot<K, V>>, n: nat): (r: nat)
    requires 0 < n <= |es|
    ensures r < n && forall j :: 0 <= j < n ==> !Older(es[j].lastAccess, es[r].lastAccess)
  {
    if n == 1 then 0 else
      var b := Lru(es, n - 1);
      if Older(es[n - 1].lastAccess, es[b].lastAccess) then n - 1 else b
  }

  // ── Operations ────────────────────────────────────────────────────────────

  function LookedUp<K(==), V>(es: seq<Slot<K, V>>, k: K, now: nat): (r: (seq<Slot<K, V>>, Option<V>))
    ensures |r.0| == |es|
  {
    match FirstHolding(es, k, 0)
    case None => (es, None)
    case Some(i) =>
      if es[i].Expired(now) then (es[i := es[i].Freed()], None)
      else (es[i := es[i].(lastAccess := Some(now))], Some(es[i].value))
  }

  /** The slot an insertion writes to. */
  function Target<K(==), V>(es: seq<Slot<K, V>>, k: K, now: nat): (i: nat)
    requires es != []
    ensures i < |es|
  {
    if FirstHolding(es, k, 0).Some? then FirstHolding(es, k, 0).value
    else if FirstDead(es, now, 0).Some? then FirstDead(es, now, 0).value
    else Lru(es, |es|)
  }

  function Inserted<K(==), V>(es: seq<Slot<K, V>>, k: K, v: V, now: nat, ttl: nat): (r: seq<Slot<K, V>>)
    requires es != []
    ensures |r| == |es|
  {
    es[Target(es, k, now) := Slot(true, k, v, Some(Later(now, ttl)), Some(now))]
  }

  function Purged<K, V>(es: seq<Slot<K, V>>, now: nat): (r: seq<Slot<K, V>>)
    ensures |r| == |es|
  {
    seq(|es|, i requires 0 <= i < |es| => if es[i].occupied && es[i].Expired(now) then es[i].Freed() else es[i])
  }

  /** The key whose live entry an insertion throws out: only when every slot is live and none holds `k`. */
  function Victim<K(==), V>(es: seq<Slot<K, V>>, k: K, now: nat): Option<K>
    requires es != []
  {
    if FirstHolding(es, k, 0).Some? || FirstDead(es, now, 0).Some? then None else Some(es[Lru(es, |es|)].key)
  }

  // ── Runs ──────────────────────────────────────────────────────────────────

  datatype Op<K, V> = Lookup(k: K, now: nat) | Insert(k: K, v: V, ttl: nat, now: nat) | Purge(now: nat)

  function Step<K(==), V>(es: seq<Slot<K, V>>, op: Op<K, V>): (r: seq<Slot<K, V>>)
    requires es != []
    ensures |r| == |es|
  {
    match op
    case Lookup(k, now) => LookedUp(es, k, now).0
    case Insert(k, v, ttl, now) => Inserted(es, k, v, now, ttl)
    case Purge(now) => Purged(es, now)
  }

  /** What the callers did: for each key its last insertion, and when it was last inserted or found. */
  datatype Record<V> = Record(value: V, expires: nat, touched: nat)

  function Noted<K(==), V>(h: map<K, Record<V>>, es: seq<Slot<K, V>>, op: Op<K, V>): map<K, Record<V>> {
    match op
    case Lookup(k, now) => if k in h && LookedUp(es, k, now).1.Some? then h[k := h[k].(touched := now)] else h
    case Insert(k, v, ttl, now) => h[k := Record(v, if now + ttl < MAX_TIME then now + ttl else MAX_TIME, now)]
    case Purge(_) => h
  }

  /** At most one slot per key, and each occupied slot as its key's last insertion and access left it. */
  ghost predicate Agrees<K(!new), V>(es: seq<Slot<K, V>>, h: map<K, Record<V>>) {
    && (forall i, j :: 0 <= i < j < |es| && es[i].occupied && es[j].occupied ==> es[i].key != es[j].key)
    && forall i :: 0 <= i < |es| && es[i].occupied ==> SlotOk(es[i], h)
  }

  ghost predicate SlotOk<K(!new), V>(e: Slot<K, V>, h: map<K, Record<V>>) {
    e.key in h && h[e.key] == Record(e.value, h[e.key].expires, h[e.key].touched)
    && e.expiresAt == Some(h[e.key].expires) && e.lastAccess == Some(h[e.key].touched)
  }

  lemma {:induction false} StepAgrees<K(!new), V>(es: seq<Slot<K, V>>, h: map<K, Record<V>>, op: Op<K, V>)
    requires es != [] && Agrees(es, h)
    ensures Agrees(Step(es, op), Noted(h, es, op))
  {
  }

  function Run<K(==), V>(es: seq<Slot<K, V>>, ops: seq<Op<K, V>>): (r: seq<Slot<K, V>>)
    requires es != []
    ensures |r| == |es|
    decreases |ops|
  {
    if ops == [] then es else Run(Step(es, ops[0]), ops[1..])
  }

  function History<K(==), V>(h: map<K, Record<V>>, es: seq<Slot<K, V>>, ops: seq<Op<K, V>>): map<K, Record<V>>
    requires es != []
    decreases |ops|
  {
    if ops == [] then h else History(Noted(h, es, ops[0]), Step(es, ops[0]), ops[1..])
  }

  lemma {:induction false} RunAgrees<K(!new), V>(es: seq<Slot<K, V>>, h: map<K, Record<V>>, ops: seq<Op<K, V>>)
    requires es != [] && Agrees(es, h)
    ensures Agrees(Run(es, ops), History(h, es, ops))
    decreases |ops|
  {
    if ops != [] {
      StepAgrees(es, h, ops[0]);
      RunAgrees(Step(es, ops[0]), Noted(h, es, ops[0]), ops[1..]);
    }
  }

  ghost predicate Present<K(!new), V>(es: seq<Slot<K, V>>, k: K, now: nat) {
    exists i :: 0 <= i < |es| && Holds(es[i], k) && es[i].Live(now)
  }

  /** A lookup hits exactly on live entries, with the value of the key's last insertion, whose expiry is ahead. */
  lemma {:induction false} HitIsLatest<K(!new), V>(es: seq<Slot<K, V>>, h: map<K, Record<V>>, k: K, now: nat)
    requires Agrees(es, h)
    ensures LookedUp(es, k, now).1.Some? <==> Present(es, k, now)
    ensures LookedUp(es, k, now).1.Some? ==> k in h && LookedUp(es, k, now).1 == Some(h[k].value) && now < h[k].expires
  {
  }

  /** The entry thrown out is live and, of all the live entries, the one longest untouched. */
  lemma {:induction false} VictimIsLeast<K(!new), V>(es: seq<Slot<K, V>>, h: map<K, Record<V>>, k: K, now: nat, x: K)
    requires es != [] && Agrees(es, h) && Victim(es, k, now) == Some(x)
    ensures forall i :: 0 <= i < |es| ==> es[i].Live(now) && es[i].key != k
    ensures x in h && Present(es, x, now)
    ensures forall i :: 0 <= i < |es| ==> es[i].key in h && h[x].touched <= h[es[i].key].touched
  {
  }

  predicate Inserts<K(==), V>(op: Op<K, V>, x: K) { op.Insert? && op.k == x }

  predicate ThrowsOut<K(==), V>(es: seq<Slot<K, V>>, op: Op<K, V>, x: K)
    requires es != []
  {
    op.Insert? && Victim(es, op.k, op.now) == Some(x)
  }

  /** A live entry outlives a step exactly when the step does not throw it out. */
  lemma {:induction false} StepKeeps<K(!new), V>(es: seq<Slot<K, V>>, h: map<K, Record<V>>, op: Op<K, V>, x: K)
    requires es != [] && Agrees(es, h) && Present(es, x, op.now) && !Inserts(op, x)
    ensures Present(Step(es, op), x, op.now) <==> !ThrowsOut(es, op, x)
    ensures x in h && x in Noted(h, es, op)
    ensures Noted(h, es, op)[x].(touched := 0) == h[x].(touched := 0)
  {
    var i :| 0 <= i < |es| && Holds(es[i], x) && es[i].Live(op.now);
    var es' := Step(es, op);
    if !ThrowsOut(es, op, x) {
      assert Holds(es'[i], x) && es'[i].Live(op.now);
    }
  }

  lemma {:induction false} StepKeepsAbsent<K(!new), V>(es: seq<Slot<K, V>>, op: Op<K, V>, x: K)
    requires es != [] && !Inserts(op, x) && forall i :: 0 <= i < |es| ==> !Holds(es[i], x)
    ensures forall i :: 0 <= i < |es| ==> !Holds(Step(es, op)[i], x)
  {
  }

  lemma {:induction false} RunKeepsAbsent<K(!new), V>(es: seq<Slot<K, V>>, ops: seq<Op<K, V>>, x: K)
    requires es != [] && (forall i :: 0 <= i < |es| ==> !Holds(es[i], x))
    requires forall i :: 0 <= i < |ops| ==> !Inserts(ops[i], x)
    ensures forall i :: 0 <= i < |es| ==> !Holds(Run(es, ops)[i], x)
    decreases |ops|
  {
    if ops != [] {
      StepKeepsAbsent(es, ops[0], x);
      RunKeepsAbsent(Step(es, ops[0]), ops[1..], x);
    }
  }

  /** The clock does not run backwards, from `start` to `end`. */
  predicate Ordered<K, V>(ops: seq<Op<K, V>>, start: nat, end: nat) {
    if ops == [] then start <= end else start <= ops[0].now && Ordered(ops[1..], ops[0].now, end)
  }

  lemma {:induction false} OrderedEnd<K, V>(ops: seq<Op<K, V>>, start: nat, end: nat)
    requires Ordered(ops, start, end)
    ensures start <= end
    decreases |ops|
  {
    if ops != [] {
      OrderedEnd(ops[1..], ops[0].now, end);
    }
  }

  /** Some step of the run throws the entry of `x` out. */
  predicate ThrownOut<K(==), V>(es: seq<Slot<K, V>>, ops: seq<Op<K, V>>, x: K)
    requires es != []
    decreases |ops|
  {
    ops != [] && (ThrowsOut(es, ops[0], x) || ThrownOut(Step(es, ops[0]), ops[1..], x))
  }

  /**
   * Over every run with a non-decreasing clock that does not insert `x`
   * again and ends before the entry of `x` expires, a lookup of `x` at the
   * end finds the inserted value exactly when no insertion of the run threw
   * the entry out.
   */
  lemma {:induction false} RunKeeps<K(!new), V>(es: seq<Slot<K, V>>, h: map<K, Record<V>>, ops: seq<Op<K, V>>, x: K,
                                      start: nat, end: nat)
    requires es != [] && Agrees(es, h) && Present(es, x, start) && x in h && end < h[x].expires
    requires Ordered(ops, start, end) && forall i :: 0 <= i < |ops| ==> !Inserts(ops[i], x)
    ensures LookedUp(Run(es, ops), x, end).1 == if ThrownOut(es, ops, x) then None else Some(h[x].value)
    decreases |ops|
  {
    OrderedEnd(ops, start, end);
    var i :| 0 <= i < |es| && Holds(es[i], x) && es[i].Live(start);
    assert SlotOk(es[i], h);
    if ops == [] {
      assert Holds(es[i], x) && es[i].Live(end);
      HitIsLatest(es, h, x, end);
    } else {
      var op, es', h' := ops[0], Step(es, ops[0]), Noted(h, es, ops[0]);
      OrderedEnd(ops[1..], op.now, end);
      assert Holds(es[i], x) && es[i].Live(op.now);
      StepAgrees(es, h, op);
      StepKeeps(es, h, op, x);
      if ThrowsOut(es, op, x) {
        ThrownIsAbsent(es, h, op, x);
        RunKeepsAbsent(es', ops[1..], x);
      } else {
        RunKeeps(es', h', ops[1..], x, op.now, end);
      }
    }
  }

  lemma {:induction false} ThrownIsAbsent<K(!new), V>(es: seq<Slot<K, V>>, h: map<K, Record<V>>, op: Op<K, V>, x: K)
    requires es != [] && Agrees(es, h) && ThrowsOut(es, op, x) && !Inserts(op, x)
    ensures forall i :: 0 <= i < |es| ==> !Holds(Step(es, op)[i], x)
  {
    var v := Lru(es, |es|);
    assert forall i :: 0 <= i < |es| && i != v ==> Step(es, op)[i] == es[i];
  }

  /** An insertion is found until its time to live is over. */
  lemma {:induction false} InsertIsFound<K(!new), V>(es: seq<Slot<K, V>>, h: map<K, Record<V>>, k: K, v: V, ttl: nat,
                                           now: nat, t: nat)
    requires es != [] && Agrees(es, h)
    ensures LookedUp(Inserted(es, k, v, now, ttl), k, t).1
         == if t < now + ttl && t < 0xFFFF_FFFF_FFFF_FFFF then Some(v) else None
  {
    var op: Op<K, V> := Insert(k, v, ttl, now);
    StepAgrees(es, h, op);
    HitIsLatest(Step(es, op), Noted(h, es, op), k, t);
    assert Holds(Step(es, op)[Target(es, k, now)], k);
  }

  // ── Size ──────────────────────────────────────────────────────────────────

  function LiveCount<K, V>(es: seq<Slot<K, V>>, now: nat, n: nat): nat
    requires n <= |es|
  {
    if n == 0 then 0 else LiveCount(es, now, n - 1) + if es[n - 1].Live(now) then 1 else 0
  }

  function LiveKeys<K(==), V>(es: seq<Slot<K, V>>, now: nat, n: nat): set<K>
    requires n <= |es|
  {
    set i | 0 <= i < n && es[i].Live(now) :: es[i].key
  }

  /** The number of live slots is the number of different keys a lookup finds. */
  lemma {:induction false} CountIsKeys<K(!new), V>(es: seq<Slot<K, V>>, h: map<K, Record<V>>, now: nat, n: nat)
    requires n <= |es| && Agrees(es, h)
    ensures LiveCount(es, now, n) == |LiveKeys(es, now, n)|
  {
    if n > 0 {
      CountIsKeys(es, h, now, n - 1);
      var key := es[n - 1].key;
      if es[n - 1].Live(now) {
        assert LiveKeys(es, now, n) == LiveKeys(es, now, n - 1) + {key};
        assert key !in LiveKeys(es, now, n - 1);
      } else {
        assert LiveKeys(es, now, n) == LiveKeys(es, now, n - 1);
      }
    }
  }
}
