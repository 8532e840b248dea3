/** The high-resolution timer queue, kept in a red-black tree ordered by expiry. */
module Timer {
  import opened Prelude
  import opened OrderedList
  import opened RbShape
  import opened RbTree

  const U64_MAX: nat := 0xFFFF_FFFF_FFFF_FFFF

  datatype TimerAction =
    | ExecuteCallback(function_: nat)
    | Reschedule
    | WakeUp(processId: nat, threadId: nat)

  datatype Timer = Timer(expiresAt: nat, isPeriodic: bool, interval: Option<nat>, action: TimerAction)

  datatype TimerQueueKey = TimerQueueKey(expiresAt: nat, order: nat)

  predicate KeyLess(a: TimerQueueKey, b: TimerQueueKey) {
    a.expiresAt < b.expiresAt || (a.expiresAt == b.expiresAt && a.order < b.order)
  }

  type Queue = List<Entry<TimerQueueKey, Timer>>

  function Min(a: nat, b: nat): nat {
    if a < b then a else b
  }

  /** The wrapping increment of a 64-bit counter. */
  function Bump(n: nat): nat {
    if n == U64_MAX then 0 else n + 1
  }

  // ── What a timer owes at a given instant ──────────────────────────────────

  predicate Due(t: Timer, now: nat) {
    t.expiresAt <= now
  }

  predicate Repeats(t: Timer) {
    t.isPeriodic && t.interval.Some?
  }

  /** The timer that is queued after `t` fired. */
  function Next(t: Timer): Timer
    requires Repeats(t)
  {
    t.(expiresAt := Min(t.expiresAt + t.interval.value, U64_MAX))
  }

  /** A due periodic timer whose next expiry never passes `now`. */
  predicate Stuck(t: Timer, now: nat) {
    Due(t, now) && Repeats(t) && (t.interval.value == 0 || U64_MAX <= now)
  }

  /** Every firing that `t` owes up to and including `now`. */
  ghost function Firings(t: Timer, now: nat): multiset<Timer>
    decreases if t.expiresAt <= now then now - t.expiresAt + 1 else 0
  {
    if !Due(t, now) || Stuck(t, now) then multiset{}
    else if Repeats(t) then multiset{t} + Firings(Next(t), now)
    else multiset{t}
  }

  /** What is left of `t` once it owes nothing. */
  ghost function Leftover(t: Timer, now: nat): multiset<Timer>
    decreases if t.expiresAt <= now then now - t.expiresAt + 1 else 0
  {
    if !Due(t, now) || Stuck(t, now) then multiset{t}
    else if Repeats(t) then Leftover(Next(t), now)
    else multiset{}
  }

  /** A timer that is not due owes nothing; one that does not repeat owes itself, and nothing is left of it. */
  lemma {:induction false} OneShotFirings(t: Timer, now: nat)
    ensures now < t.expiresAt ==> Firings(t, now) == multiset{} && Leftover(t, now) == multiset{t}
    ensures t.expiresAt <= now && !(t.isPeriodic && t.interval.Some?) ==>
              Firings(t, now) == multiset{t} && Leftover(t, now) == multiset{}
  {
  }

  /** A due periodic timer (e, p) leaves itself, at the first of e, e + p, e + 2p, … that is later than now. */
  lemma {:induction false} PeriodicLeftover(t: Timer, now: nat, n: nat, next: nat)
    requires t.expiresAt <= now < U64_MAX && t.isPeriodic && t.interval.Some? && 0 < t.interval.value
    requires n == (now - t.expiresAt) / t.interval.value + 1 && next == t.expiresAt + n * t.interval.value
    ensures Leftover(t, now) == multiset{t.(expiresAt := Min(next, 0xFFFF_FFFF_FFFF_FFFF))} && now < Min(next, U64_MAX)
    decreases now - t.expiresAt
  {
    var p, d := t.interval.value, now - t.expiresAt;
    if d < p {
      DivSmall(d, p);
    } else {
      DivStep(d, p);
      OneLess(n, p);
      PeriodicLeftover(Next(t), now, n - 1, next);
    }
  }

  lemma {:induction false} OneLess(n: nat, p: nat)
    requires 0 < n
    ensures n * p == p + (n - 1) * p
  {
  }

  /** A due periodic timer (e, p) owes floor((now - e) / p) + 1 firings, at e, e + p, e + 2p, … */
  lemma {:induction false} PeriodicFirings(t: Timer, now: nat, i: nat, at: nat, q: nat)
    requires t.expiresAt <= now < U64_MAX && t.isPeriodic && t.interval.Some? && 0 < t.interval.value
    requires at == t.expiresAt + i * t.interval.value && q == (now - t.expiresAt) / t.interval.value
    ensures |Firings(t, now)| == q + 1
    ensures Firings(t, now)[t.(expiresAt := at)] == if i <= q then 1 else 0
    decreases now - t.expiresAt
  {
    var p, d, n := t.interval.value, now - t.expiresAt, Next(t);
    if i > 0 {
      OneLess(i, p);
    }
    if d < p {
      DivSmall(d, p);
      OneShotFirings(n, now);
    } else {
      DivStep(d, p);
      if i > 0 {
        PeriodicFirings(n, now, i - 1, at, q - 1);
      } else {
        PeriodicFirings(n, now, 0, n.expiresAt, q - 1);
        FiringsLater(n, now, t);
      }
    }
  }

  lemma {:induction false} FiringsLater(t: Timer, now: nat, u: Timer)
    requires u.expiresAt < t.expiresAt
    ensures u !in Firings(t, now)
    decreases if t.expiresAt <= now then now - t.expiresAt + 1 else 0
  {
    if Due(t, now) && !Stuck(t, now) && Repeats(t) {
      FiringsLater(Next(t), now, u);
    }
  }

  lemma {:induction false} DivSmall(d: nat, p: nat)
    requires d < p
    ensures d / p == 0
  {
  }

  lemma {:induction false} DivStep(d: nat, p: nat)
    requires 0 < p <= d
    ensures d / p == (d - p) / p + 1
  {
    var k := d / p - (d - p) / p - 1;
    assert p * k == (d - p) % p - d % p;
    if k > 0 { ProductAtLeast(k, p); }
  }

  lemma {:induction false} ProductAtLeast(i: nat, p: nat)
    requires 0 < i
    ensures p <= i * p
  {
    assert i * p == p + (i - 1) * p;
  }

  // ── Queues ────────────────────────────────────────────────────────────────

  ghost function AllFirings(q: Queue, now: nat): multiset<Timer> {
    if q.End? then multiset{} else Firings(q.head.value, now) + AllFirings(q.tail, now)
  }

  ghost function AllLeftovers(q: Queue, now: nat): multiset<Timer> {
    if q.End? then multiset{} else Leftover(q.head.value, now) + AllLeftovers(q.tail, now)
  }

  ghost function Timers(q: Queue): multiset<Timer> {
    if q.End? then multiset{} else multiset{q.head.value} + Timers(q.tail)
  }

  predicate AnyStuck(q: Queue, now: nat) {
    q.Cons? && (Stuck(q.head.value, now) || AnyStuck(q.tail, now))
  }

  /** Keys carry the expiry of their timer. */
  predicate Stamped(q: Queue) {
    q.Cons? ==>
      && q.head.key.expiresAt == q.head.value.expiresAt <= U64_MAX
      && q.head.key.order <= U64_MAX
      && Stamped(q.tail)
  }

  /** How many order numbers are handed out before `a`, the counter being at `order`. */
  function Ahead(a: nat, order: nat): (n: nat)
    requires a <= U64_MAX && order <= U64_MAX
    ensures n <= U64_MAX && (n == 0 <==> a == order)
  {
    if order <= a then a - order else U64_MAX + 1 - order + a
  }

  lemma {:induction false} AheadNext(a: nat, order: nat)
    requires a <= U64_MAX && order <= U64_MAX
    ensures Ahead(a, Bump(order)) == if a == order then U64_MAX else Ahead(a, order) - 1
  {
  }

  /** The next `n` order numbers are not in the queue. */
  predicate Room(q: Queue, order: nat, n: nat)
    requires Stamped(q) && order <= U64_MAX
  {
    q.Cons? ==> n <= Ahead(q.head.key.order, order) && Room(q.tail, order, n)
  }

  lemma {:induction false} InsertStamped(q: Queue, e: Entry<TimerQueueKey, Timer>)
    requires Stamped(q) && e.key.expiresAt == e.value.expiresAt <= U64_MAX && e.key.order <= U64_MAX
    ensures Stamped(InsertList(KeyLess, q, e))
  {
    if q.Cons? && !KeyLess(e.key, q.head.key) {
      InsertStamped(q.tail, e);
    }
  }

  lemma {:induction false} RemoveStamped(q: Queue, k: TimerQueueKey)
    requires Stamped(q)
    ensures Stamped(RemoveList(q, k))
  {
    if q.Cons? {
      RemoveStamped(q.tail, k);
    }
  }

  /** The queue once `fired` has been put back, if it is periodic. */
  ghost function Requeued(q: Queue, fired: Timer, order: nat, id: Handle): Queue {
    if Repeats(fired) then InsertList(KeyLess, q, Entry(id, TimerQueueKey(Next(fired).expiresAt, order), Next(fired)))
    else q
  }

  lemma {:induction false} KeyLessIsOrder()
    ensures StrictTotalOrder(KeyLess)
  {
  }

  lemma {:induction false} Exchange(a: multiset<Timer>, b: multiset<Timer>, c: multiset<Timer>)
    ensures a + (b + c) == b + (a + c)
  {
  }

  lemma {:induction false} InsertOwes(q: Queue, e: Entry<TimerQueueKey, Timer>, now: nat)
    requires e.key !in MapOf(q)
    ensures AllFirings(InsertList(KeyLess, q, e), now) == Firings(e.value, now) + AllFirings(q, now)
  {
    if q.Cons? && !KeyLess(e.key, q.head.key) {
      InsertOwes(q.tail, e, now);
      Exchange(Firings(q.head.value, now), Firings(e.value, now), AllFirings(q.tail, now));
    }
  }

  lemma {:induction false} InsertLeaves(q: Queue, e: Entry<TimerQueueKey, Timer>, now: nat)
    requires e.key !in MapOf(q)
    ensures AllLeftovers(InsertList(KeyLess, q, e), now) == Leftover(e.value, now) + AllLeftovers(q, now)
  {
    if q.Cons? && !KeyLess(e.key, q.head.key) {
      InsertLeaves(q.tail, e, now);
      Exchange(Leftover(q.head.value, now), Leftover(e.value, now), AllLeftovers(q.tail, now));
    }
  }

  lemma {:induction false} Across(h: multiset<Timer>, a: multiset<Timer>, b: multiset<Timer>, c: multiset<Timer>,
                                  d: multiset<Timer>)
    requires a + b == c + d
    ensures a + (h + b) == c + (h + d)
  {
    assert a + (h + b) == h + (a + b);
    assert c + (h + d) == h + (c + d);
  }

  lemma {:induction false} NotBelow(q: Queue, k: TimerQueueKey)
    requires q.Cons? && Sorted(KeyLess, q) && k in MapOf(q)
    ensures !KeyLess(k, q.head.key)
  {
    KeyLessIsOrder();
    if KeyLess(k, q.head.key) {
      AboveTransitive(KeyLess, q.tail, q.head.key, k);
      AboveAbsent(KeyLess, q, k);
    }
  }

  /** Under a key that is in use the new timer takes the place of the old one. */
  lemma {:induction false} InsertReplaces(q: Queue, e: Entry<TimerQueueKey, Timer>, now: nat)
    requires Sorted(KeyLess, q) && e.key in MapOf(q)
    ensures var q', u := InsertList(KeyLess, q, e), MapOf(q)[e.key];
            && Firings(u, now) + AllFirings(q', now) == Firings(e.value, now) + AllFirings(q, now)
            && Leftover(u, now) + AllLeftovers(q', now) == Leftover(e.value, now) + AllLeftovers(q, now)
  {
    var t := q.head.value;
    if q.head.key == e.key {
      Exchange(Firings(t, now), Firings(e.value, now), AllFirings(q.tail, now));
      Exchange(Leftover(t, now), Leftover(e.value, now), AllLeftovers(q.tail, now));
    } else {
      NotBelow(q, e.key);
      InsertReplaces(q.tail, e, now);
      var u, q' := MapOf(q)[e.key], InsertList(KeyLess, q.tail, e);
      Across(Firings(t, now), Firings(u, now), AllFirings(q', now), Firings(e.value, now), AllFirings(q.tail, now));
      Across(Leftover(t, now), Leftover(u, now), AllLeftovers(q', now), Leftover(e.value, now),
             AllLeftovers(q.tail, now));
    }
  }

  lemma {:induction false} InsertStuck(q: Queue, e: Entry<TimerQueueKey, Timer>, now: nat)
    ensures AnyStuck(InsertList(KeyLess, q, e), now) ==> Stuck(e.value, now) || AnyStuck(q, now)
    ensures e.key !in MapOf(q) ==>
              AnyStuck(InsertList(KeyLess, q, e), now) == (Stuck(e.value, now) || AnyStuck(q, now))
  {
    if q.Cons? && !KeyLess(e.key, q.head.key) {
      InsertStuck(q.tail, e, now);
    }
  }

  lemma {:induction false} InsertRoom(q: Queue, e: Entry<TimerQueueKey, Timer>, n: nat)
    requires Stamped(q) && e.key.expiresAt == e.value.expiresAt <= U64_MAX && e.key.order <= U64_MAX
    requires Room(q, e.key.order, n + 1) && n <= U64_MAX
    ensures Stamped(InsertList(KeyLess, q, e)) && Room(InsertList(KeyLess, q, e), Bump(e.key.order), n)
  {
    InsertStamped(q, e);
    RoomNext(q, e.key.order, n);
    AheadNext(e.key.order, e.key.order);
    if q.Cons? && !KeyLess(e.key, q.head.key) {
      InsertRoom(q.tail, e, n);
    }
  }

  lemma {:induction false} RoomNext(q: Queue, order: nat, n: nat)
    requires Stamped(q) && order <= U64_MAX && Room(q, order, n + 1)
    ensures Room(q, Bump(order), n) && Room(q, order, n)
  {
    if q.Cons? {
      AheadNext(q.head.key.order, order);
      RoomNext(q.tail, order, n);
    }
  }

  lemma {:induction false} RoomAbsent(q: Queue, k: TimerQueueKey, n: nat)
    requires Stamped(q) && k.order <= U64_MAX && 0 < n && Room(q, k.order, n)
    ensures k !in MapOf(q)
  {
    if q.Cons? {
      RoomAbsent(q.tail, k, n);
    }
  }

  /** The timer taken out of the queue goes back under a key that is in use. */
  ghost predicate Clash(q: Queue, order: nat)
    requires q.Cons?
  {
    Repeats(q.head.value) && TimerQueueKey(Next(q.head.value).expiresAt, order) in MapOf(q.tail)
  }

  /** The queue `q'` owes and leaves what `q` does, once `paid` has fired. */
  ghost predicate Conserves(q: Queue, q': Queue, now: nat, paid: multiset<Timer>) {
    AllFirings(q, now) == paid + AllFirings(q', now) && AllLeftovers(q, now) == AllLeftovers(q', now)
  }

  /** The queue `q'` owes and leaves no more than `q`, once `paid` has fired. */
  ghost predicate Within(q: Queue, q': Queue, now: nat, paid: multiset<Timer>) {
    paid + AllFirings(q', now) <= AllFirings(q, now) && AllLeftovers(q', now) <= AllLeftovers(q, now)
  }

  /** All that the timers of the queue come to: their firings and what is left of them. */
  ghost function Worth(q: Queue, now: nat): nat {
    |AllFirings(q, now)| + |AllLeftovers(q, now)|
  }

  /** One poll of a queue with a due head that is not stuck pays one firing. The rest is conserved exactly if the key of
      the timer that goes back is not in use; else the timer that was under it is lost. */
  lemma {:induction false} PollPays(q: Queue, now: nat, order: nat, id: Handle)
    requires q.Cons? && Due(q.head.value, now) && !AnyStuck(q, now) && Sorted(KeyLess, q)
    ensures var q', paid := Requeued(q.tail, q.head.value, order, id), multiset{q.head.value};
            && Within(q, q', now, paid)
            && (Conserves(q, q', now, paid) <==> !Clash(q, order))
            && (Clash(q, order) ==> 1 + Worth(q', now) < Worth(q, now))
  {
    var t := q.head.value;
    if Repeats(t) {
      var e := Entry(id, TimerQueueKey(Next(t).expiresAt, order), Next(t));
      var f, g := Firings(Next(t), now), AllFirings(q.tail, now);
      assert (multiset{t} + f) + g == multiset{t} + (f + g);
      if Clash(q, order) {
        InsertReplaces(q.tail, e, now);
        WorthOne(MapOf(q.tail)[e.key], now);
      } else {
        InsertOwes(q.tail, e, now);
        InsertLeaves(q.tail, e, now);
      }
    }
  }

  lemma {:induction false} WorthOne(t: Timer, now: nat)
    ensures 0 < |Firings(t, now)| + |Leftover(t, now)|
  {
  }

  /** The queue after the poll is in order again, and every key in it is greater than the one taken. */
  lemma {:induction false} PollAdvances(q: Queue, now: nat, order: nat, id: Handle)
    requires q.Cons? && Due(q.head.value, now) && !AnyStuck(q, now)
    requires Sorted(KeyLess, q) && Stamped(q)
    ensures var q' := Requeued(q.tail, q.head.value, order, id);
            !AnyStuck(q', now) && Sorted(KeyLess, q') && AllAbove(KeyLess, q', q.head.key)
  {
    var t := q.head.value;
    if Repeats(t) {
      var e := Entry(id, TimerQueueKey(Next(t).expiresAt, order), Next(t));
      InsertStuck(q.tail, e, now);
      KeyLessIsOrder();
      InsertIsUpdate(KeyLess, q.tail, e);
      InsertAbove(KeyLess, q.tail, e, q.head.key);
    }
  }

  /** A queue whose head is not due owes nothing and leaves every timer as it is. */
  lemma {:induction false} NothingOwed(q: Queue, now: nat)
    requires Sorted(KeyLess, q) && Stamped(q) && (q.Cons? ==> !Due(q.head.value, now))
    ensures AllFirings(q, now) == multiset{} && AllLeftovers(q, now) == Timers(q)
  {
    if q.Cons? {
      NothingOwed(q.tail, now);
    }
  }

  /** No poll of the first `k` puts a timer back under a key that is in use. */
  ghost predicate Clashless(q: Queue, now: nat, order: nat, id: Handle, k: nat)
    decreases k
  {
    k > 0 && q.Cons? && Due(q.head.value, now) ==>
      && !Clash(q, order)
      && if Repeats(q.head.value) then Clashless(Requeued(q.tail, q.head.value, order, id), now, Bump(order), id
                                                 + 1, k - 1)
         else Clashless(q.tail, now, order, id, k - 1)
  }

  /** No key is in use again while the numbers that the counter hands out are not. */
  lemma {:induction false} RoomClashless(q: Queue, now: nat, order: nat, id: Handle, k: nat)
    requires Stamped(q) && order <= U64_MAX && Room(q, order, k)
    ensures Clashless(q, now, order, id, k)
    decreases k
  {
    if k > 0 && q.Cons? && Due(q.head.value, now) {
      var t := q.head.value;
      if Repeats(t) {
        var e := Entry(id, TimerQueueKey(Next(t).expiresAt, order), Next(t));
        RoomAbsent(q.tail, e.key, k);
        InsertRoom(q.tail, e, k - 1);
        RoomClashless(Requeued(q.tail, t, order, id), now, Bump(order), id + 1, k - 1);
      } else {
        RoomNext(q.tail, order, k - 1);
        RoomClashless(q.tail, now, order, id, k - 1);
      }
    }
  }

  /** A counter that has come round to the number of a waiting timer: the next poll loses that timer. */
  lemma {:induction false} ClashLoses(order: nat, id: Handle, t: Timer, u: Timer, last: Queue, q: Queue)
    requires order <= U64_MAX && t == t.(expiresAt := 5, isPeriodic := true, interval := Some(5))
    requires u.expiresAt == 10 && !u.isPeriodic
    requires last == Cons(Entry(1, TimerQueueKey(10, order), u), End)
    requires q == Cons(Entry(0, TimerQueueKey(5, 0), t), last)
    ensures Sorted(KeyLess, q) && Stamped(q) && !AnyStuck(q, 5)
    ensures !Clashless(q, 5, order, id, 1) && u in AllLeftovers(q, 5)
    ensures u !in Timers(Requeued(last, t, order, id))
  {
    assert AllAbove(KeyLess, last.tail, last.head.key) && AllAbove(KeyLess, last.tail, q.head.key);
    assert Sorted(KeyLess, last) && AllAbove(KeyLess, last, q.head.key);
    assert Stamped(last.tail) && Stamped(last);
    assert !AnyStuck(last.tail, 5) && !AnyStuck(last, 5);
    assert Next(t).expiresAt == 10 && Clash(q, order);
    assert AllLeftovers(last, 5) == multiset{u} + AllLeftovers(last.tail, 5);
    assert AllLeftovers(q, 5) == Leftover(t, 5) + AllLeftovers(last, 5);
    var after: Queue := Cons(Entry(1, TimerQueueKey(10, order), Next(t)), End);
    assert Requeued(last, t, order, id) == after;
    assert Timers(after) == multiset{Next(t)} + Timers(after.tail);
  }

  /** The queue after `k` polls, or after the first that found nothing due. */
  ghost function Polled(q: Queue, now: nat, order: nat, id: Handle, k: nat): Queue
    decreases k
  {
    if k == 0 || q.End? || !Due(q.head.value, now) then q
    else
      var t := q.head.value;
      if Repeats(t) then Polled(Requeued(q.tail, t, order, id), now, Bump(order), id + 1, k - 1)
      else Polled(q.tail, now, order, id, k - 1)
  }

  /** A stuck timer stays stuck: however often such a queue is polled, another timer is due, up to a clash. */
  lemma {:induction false} StuckForever(q: Queue, now: nat, order: nat, id: Handle, k: nat)
    requires AnyStuck(q, now) && Sorted(KeyLess, q) && Stamped(q) && order <= U64_MAX
    requires Clashless(q, now, order, id, k)
    ensures Polled(q, now, order, id, k).Cons? && Due(Polled(q, now, order, id, k).head.value, now)
    decreases k
  {
    StuckHeadDue(q, now);
    if k > 0 {
      StuckPoll(q, now, order, id);
      var t := q.head.value;
      if Repeats(t) {
        StuckForever(Requeued(q.tail, t, order, id), now, Bump(order), id + 1, k - 1);
      } else {
        StuckForever(q.tail, now, order, id, k - 1);
      }
    }
  }

  lemma {:induction false} StuckPoll(q: Queue, now: nat, order: nat, id: Handle)
    requires AnyStuck(q, now) && Sorted(KeyLess, q) && Stamped(q) && order <= U64_MAX && !Clash(q, order)
    ensures var q' := Requeued(q.tail, q.head.value, order, id);
            AnyStuck(q', now) && Sorted(KeyLess, q') && Stamped(q')
  {
    var t := q.head.value;
    if Repeats(t) {
      var e := Entry(id, TimerQueueKey(Next(t).expiresAt, order), Next(t));
      InsertStamped(q.tail, e);
      InsertStuck(q.tail, e, now);
      KeyLessIsOrder();
      InsertIsUpdate(KeyLess, q.tail, e);
    }
  }

  lemma {:induction false} StuckHeadDue(q: Queue, now: nat)
    requires AnyStuck(q, now) && Sorted(KeyLess, q) && Stamped(q)
    ensures Due(q.head.value, now)
  {
    if !Stuck(q.head.value, now) {
      StuckHeadDue(q.tail, now);
    }
  }

  ghost predicate Increasing(keys: seq<TimerQueueKey>) {
    forall i, j :: 0 <= i < j < |keys| ==> KeyLess(keys[i], keys[j])
  }

  ghost predicate KeysOf(keys: seq<TimerQueueKey>, fired: seq<Timer>) {
    |keys| == |fired| && forall i :: 0 <= i < |keys| ==> keys[i].expiresAt == fired[i].expiresAt
  }

  /** Nothing has been lost so far, and nothing will be, exactly if there is no clash from the start. */
  ghost predicate Exact(q0: Queue, order0: nat, id0: Handle, q: Queue, order: nat, id: Handle, now: nat,
                        fired: seq<Timer>)
  {
    Clashless(q0, now, order0, id0, |AllFirings(q0, now)|) <==>
    Conserves(q0, q, now, multiset(fired)) && Clashless(q, now, order, id, |AllFirings(q, now)|)
  }

  /** `fired` has been paid out of the queue `q0`, which by now is `q`. */
  ghost predicate Draining(q0: Queue, order0: nat, id0: Handle, q: Queue, order: nat, id: Handle, now: nat,
                           fired: seq<Timer>, keys: seq<TimerQueueKey>)
  {
    && Stamped(q) && !AnyStuck(q, now) && Sorted(KeyLess, q)
    && Within(q0, q, now, multiset(fired)) && Exact(q0, order0, id0, q, order, id, now, fired)
    && KeysOf(keys, fired) && Increasing(keys)
    && (|keys| > 0 ==> AllAbove(KeyLess, q, keys[|keys| - 1]))
  }

  lemma {:induction false} DrainStep(q0: Queue, order0: nat, id0: Handle, q: Queue, order: nat, id: Handle, now: nat,
                                     fired: seq<Timer>, keys: seq<TimerQueueKey>,
                                     q': Queue, order': nat, id': Handle)
    requires Draining(q0, order0, id0, q, order, id, now, fired, keys) && q.Cons? && Due(q.head.value, now)
    requires q' == Requeued(q.tail, q.head.value, order, id) && Stamped(q')
    requires order' == if Repeats(q.head.value) then Bump(order) else order
    requires id' == if Repeats(q.head.value) && !Clash(q, order) then id + 1 else id
    ensures |AllFirings(q', now)| < |AllFirings(q, now)|
    ensures Draining(q0, order0, id0, q', order', id', now, fired + [q.head.value], keys + [q.head.key])
  {
    PollPays(q, now, order, id);
    PollAdvances(q, now, order, id);
    ExtendKeys(keys, fired, q);
    PaidOne(q0, q, q', now, fired, q.head.value);
    ExactStep(q0, order0, id0, q, order, id, now, fired, q', order', id');
  }

  lemma {:induction false} DrainEnd(q0: Queue, order0: nat, id0: Handle, q: Queue, order: nat, id: Handle, now: nat,
                                    fired: seq<Timer>, keys: seq<TimerQueueKey>)
    requires Draining(q0, order0, id0, q, order, id, now, fired, keys) && (q.Cons? ==> !Due(q.head.value, now))
    ensures multiset(fired) <= AllFirings(q0, now) && Timers(q) <= AllLeftovers(q0, now)
    ensures multiset(fired) == AllFirings(q0, now) && Timers(q) == AllLeftovers(q0, now) <==>
            Clashless(q0, now, order0, id0, |AllFirings(q0, now)|)
  {
    NothingOwed(q, now);
    assert multiset(fired) + multiset{} == multiset(fired);
  }

  lemma {:induction false} ExactStep(q0: Queue, order0: nat, id0: Handle, q: Queue, order: nat, id: Handle, now: nat,
                                     fired: seq<Timer>, q': Queue, order': nat, id': Handle)
    requires q.Cons? && Due(q.head.value, now) && !AnyStuck(q, now) && Sorted(KeyLess, q)
    requires Within(q0, q, now, multiset(fired)) && Exact(q0, order0, id0, q, order, id, now, fired)
    requires q' == Requeued(q.tail, q.head.value, order, id)
    requires order' == if Repeats(q.head.value) then Bump(order) else order
    requires id' == if Repeats(q.head.value) && !Clash(q, order) then id + 1 else id
    ensures Exact(q0, order0, id0, q', order', id', now, fired + [q.head.value])
  {
    PollPays(q, now, order, id);
    PaidOne(q0, q, q', now, fired, q.head.value);
    if Clash(q, order) {
      NotConserved(q0, q, q', now, fired, q.head.value);
    }
  }

  lemma {:induction false} Smaller(a: multiset<Timer>, b: multiset<Timer>)
    requires a <= b
    ensures |a| <= |b|
  {
    assert b == a + (b - a);
  }

  lemma {:induction false} PaidOne(q0: Queue, q: Queue, q': Queue, now: nat, fired: seq<Timer>, t: Timer)
    requires Within(q0, q, now, multiset(fired)) && Within(q, q', now, multiset{t})
    ensures |AllFirings(q', now)| < |AllFirings(q, now)|
    ensures Within(q0, q', now, multiset(fired + [t]))
    ensures Conserves(q, q', now, multiset{t}) ==>
              && |AllFirings(q, now)| == 1 + |AllFirings(q', now)|
              && (Conserves(q0, q', now, multiset(fired + [t])) <==> Conserves(q0, q, now, multiset(fired)))
  {
    var rest := AllFirings(q', now);
    assert multiset(fired + [t]) + rest == multiset(fired) + (multiset{t} + rest);
    assert |multiset{t} + rest| == 1 + |rest|;
    Smaller(multiset{t} + rest, AllFirings(q, now));
  }

  lemma {:induction false} NotConserved(q0: Queue, q: Queue, q': Queue, now: nat, fired: seq<Timer>, t: Timer)
    requires Within(q0, q, now, multiset(fired)) && 1 + Worth(q', now) < Worth(q, now)
    ensures !Conserves(q0, q', now, multiset(fired + [t]))
  {
    Smaller(multiset(fired) + AllFirings(q, now), AllFirings(q0, now));
    Smaller(AllLeftovers(q, now), AllLeftovers(q0, now));
    assert |multiset(fired + [t]) + AllFirings(q', now)| == |fired| + 1 + |AllFirings(q', now)|;
  }

  lemma {:induction false} ExtendKeys(keys: seq<TimerQueueKey>, fired: seq<Timer>, q: Queue)
    requires KeysOf(keys, fired) && Increasing(keys) && q.Cons? && q.head.key.expiresAt == q.head.value.expiresAt
    requires |keys| > 0 ==> AllAbove(KeyLess, q, keys[|keys| - 1])
    ensures KeysOf(keys + [q.head.key], fired + [q.head.value]) && Increasing(keys + [q.head.key])
  {
    var keys' := keys + [q.head.key];
    forall i, j | 0 <= i < j < |keys'| ensures KeyLess(keys'[i], keys'[j]) {
      assert KeyLess(keys[|keys| - 1], q.head.key);
    }
  }

  /** The first key in the queue that expires at `e`. */
  function FirstAt(q: Queue, e: nat): Option<TimerQueueKey> {
    if q.End? then None else if q.head.key.expiresAt == e then Some(q.head.key) else FirstAt(q.tail, e)
  }

  /** It is the earliest registered one. */
  lemma {:induction false} FirstAtIsEarliest(q: Queue, e: nat, k: TimerQueueKey)
    requires Sorted(KeyLess, q) && k in Keys(q) && k.expiresAt == e
    ensures FirstAt(q, e).Some? && FirstAt(q, e).value in Keys(q) && FirstAt(q, e).value.order <= k.order
  {
    assert k == q.head.key || k in Keys(q.tail);
    if q.head.key.expiresAt == e {
      if k != q.head.key {
        AboveKeys(q.tail, q.head.key, k);
      }
    } else {
      FirstAtIsEarliest(q.tail, e, k);
    }
  }

  lemma {:induction false} AboveKeys(q: Queue, m: TimerQueueKey, k: TimerQueueKey)
    requires AllAbove(KeyLess, q, m) && k in Keys(q)
    ensures KeyLess(m, k)
  {
    if k != q.head.key {
      AboveKeys(q.tail, m, k);
    }
  }

  // ── The timer subsystem ───────────────────────────────────────────────────

  class HrTimer {
    const queue: RedBlackTree<TimerQueueKey, Timer>
    var nextOrder: nat

    ghost predicate Valid()
      reads this, queue
    {
      queue.Valid() && queue.lt == KeyLess && nextOrder <= U64_MAX && Stamped(Pending())
    }

    ghost function Pending(): Queue
      reads queue
    {
      Entries(queue.shape)
    }

    constructor ()
      ensures Valid() && Pending() == End && nextOrder == 0 && fresh(queue)
    {
      KeyLessIsOrder();
      queue := new RedBlackTree<TimerQueueKey, Timer>(KeyLess);
      nextOrder := 0;
    }

    method InsertTimer(expiresAt: nat, isPeriodic: bool, interval: Option<nat>, action: TimerAction) returns (h: Handle)
      requires Valid() && expiresAt <= U64_MAX
      modifies this, queue
      ensures Valid() && nextOrder == Bump(old(nextOrder))
      ensures var key := TimerQueueKey(expiresAt, old(nextOrder));
              var timer := Timer(expiresAt, isPeriodic, interval, action);
              && Pending() == InsertList(KeyLess, old(Pending()), Entry(old(queue.next), key, timer))
              && queue.Handles() == old(queue.Handles())[h := (key, timer)]
      ensures var taken := TimerQueueKey(expiresAt, old(nextOrder)) in MapOf(old(Pending()));
              && queue.len == old(queue.len) + (if taken then 0 else 1)
              && queue.next == old(queue.next) + (if taken then 0 else 1)
      ensures forall n: nat :: n <= U64_MAX && old(Room(Pending(), nextOrder, n + 1)) ==> Room(Pending(), nextOrder, n)
    {
      var key := TimerQueueKey(expiresAt, nextOrder);
      var timer := Timer(expiresAt, isPeriodic, interval, action);
      InsertStamped(Pending(), Entry(queue.next, key, timer));
      forall n: nat | n <= U64_MAX && Room(Pending(), nextOrder, n + 1)
        ensures Room(InsertList(KeyLess, Pending(), Entry(queue.next, key, timer)), Bump(nextOrder), n)
      {
        InsertRoom(Pending(), Entry(queue.next, key, timer), n);
      }
      nextOrder := Bump(nextOrder);
      h := queue.Insert(key, timer);
    }

    method NextExpiry() returns (r: Option<nat>)
      requires Valid()
      ensures r == if Pending().End? then None else Some(Pending().head.key.expiresAt)
    {
      var k := queue.Min();
      r := if k.Some? then Some(k.value.expiresAt) else None;
    }

    method ReinsertPeriodic(fired: Timer)
      requires Valid() && fired.expiresAt <= U64_MAX
      modifies this, queue
      ensures Valid()
      ensures Pending() == Requeued(old(Pending()), fired, old(nextOrder), old(queue.next))
      ensures nextOrder == if Repeats(fired) then Bump(old(nextOrder)) else old(nextOrder)
      ensures queue.next == old(queue.next)
                + if Repeats(fired) && TimerQueueKey(Next(fired).expiresAt, old(nextOrder)) !in MapOf(old(Pending()))
                  then 1 else 0
    {
      if !fired.isPeriodic || fired.interval.None? {
        return;
      }
      var nextExpires := Min(fired.expiresAt + fired.interval.value, U64_MAX);
      var _ := InsertTimer(nextExpires, fired.isPeriodic, fired.interval, fired.action);
    }

    /** Takes the soonest due timer out of the queue and puts it back if it is periodic. */
    method PollExpired(now: nat) returns (r: Option<Timer>)
      requires Valid()
      modifies this, queue
      ensures Valid()
      ensures var q := old(Pending());
              if q.End? || !Due(q.head.value, now) then
                r == None && Pending() == q && nextOrder == old(nextOrder)
              else
                && r == Some(q.head.value)
                && Pending() == Requeued(q.tail, q.head.value, old(nextOrder), old(queue.next))
                && nextOrder == (if Repeats(q.head.value) then Bump(old(nextOrder)) else old(nextOrder))
                && queue.next
                     == old(queue.next) + if Repeats(q.head.value) && !Clash(q, old(nextOrder)) then 1 else 0
    {
      var key := queue.Min();
      if key.None? || key.value.expiresAt > now {
        return None;
      }
      RemoveStamped(Pending(), key.value);
      r := queue.Remove(key.value);
      assert nextOrder == old(nextOrder) && r == Some(old(Pending()).head.value);
      ReinsertPeriodic(r.value);
    }

    /** Cancels the timer a handle names, and no other. */
    method Cancel(handle: Handle) returns (ok: bool)
      requires Valid()
      modifies queue
      ensures Valid()
      ensures ok <==> handle in old(queue.Handles())
      ensures queue.Handles() == old(queue.Handles()) - {handle}
      ensures Pending() == if ok then RemoveList(old(Pending()), old(queue.Handles())[handle].0) else old(Pending())
    {
      if handle !in queue.arena {
        return false;
      }
      RemoveStamped(Pending(), queue.arena[handle].key);
      var r := queue.Remove(queue.arena[handle].key);
      ok := r.Some?;
    }

    /** Removes the earliest registered of the timers that expire at `expires`. */
    method RemoveTimer(expires: nat) returns (ok: bool)
      requires Valid()
      modifies queue
      ensures Valid()
      ensures ok <==> FirstAt(old(Pending()), expires).Some?
      ensures Pending() == if ok then RemoveList(old(Pending()), FirstAt(old(Pending()), expires).value)
                           else old(Pending())
    {
      var keys, _ := queue.WalkInOrder(queue.root, Top, queue.shape);
      var found: Option<TimerQueueKey> := None;
      ghost var rest := Pending();
      for i := 0 to |keys|
        invariant Keys(rest) == keys[i..]
        invariant FirstAt(Pending(), expires) == if found.Some? then found else FirstAt(rest, expires)
        invariant found.Some? ==> found.value in MapOf(Pending())
        invariant forall k :: k in MapOf(rest) ==> k in MapOf(Pending())
      {
        if found.None? && keys[i].expiresAt == expires {
          found := Some(keys[i]);
        }
        rest := rest.tail;
      }
      if found.None? {
        return false;
      }
      RemoveStamped(Pending(), found.value);
      var r := queue.Remove(found.value);
      ok := r.Some?;
    }

    /** The loop of the timer interrupt: polls until nothing is due. */
    method Drain(now: nat) returns (fired: seq<Timer>, ghost keys: seq<TimerQueueKey>)
      requires Valid() && !AnyStuck(Pending(), now)
      modifies this, queue
      ensures Valid()
      ensures multiset(fired) <= AllFirings(old(Pending()), now)
      ensures Timers(Pending()) <= AllLeftovers(old(Pending()), now)
      ensures multiset(fired) == AllFirings(old(Pending()), now)
              && Timers(Pending()) == AllLeftovers(old(Pending()), now)
              <==> Clashless(old(Pending()), now, old(nextOrder), old(queue.next), |AllFirings(old(Pending()), now)|)
      ensures Pending().Cons? ==> now < Pending().head.key.expiresAt
      ensures KeysOf(keys, fired) && Increasing(keys)
    {
      fired, keys := [], [];
      ghost var q0, order0, id0 := Pending(), nextOrder, queue.next;
      var polling := true;
      while polling
        invariant Valid() && Draining(q0, order0, id0, Pending(), nextOrder, queue.next, now, fired, keys)
        invariant !polling ==> (Pending().Cons? ==> !Due(Pending().head.value, now))
        decreases polling, |AllFirings(Pending(), now)|
      {
        polling, fired, keys := DrainOnce(now, fired, q0, order0, id0, keys);
      }
      DrainEnd(q0, order0, id0, Pending(), nextOrder, queue.next, now, fired, keys);
    }

    method DrainOnce(now: nat, fired0: seq<Timer>, ghost q0: Queue, ghost order0: nat, ghost id0: Handle,
                     ghost keys0: seq<TimerQueueKey>)
      returns (more: bool, fired: seq<Timer>, ghost keys: seq<TimerQueueKey>)
      requires Valid() && Draining(q0, order0, id0, Pending(), nextOrder, queue.next, now, fired0, keys0)
      modifies this, queue
      ensures Valid() && Draining(q0, order0, id0, Pending(), nextOrder, queue.next, now, fired, keys)
      ensures more ==> |AllFirings(Pending(), now)| < old(|AllFirings(Pending(), now)|)
      ensures !more ==> (Pending().Cons? ==> !Due(Pending().head.value, now))
    {
      ghost var q, order, id := Pending(), nextOrder, queue.next;
      var r := PollExpired(now);
      more := r.Some?;
      if r.None? {
        fired, keys := fired0, keys0;
      } else {
        fired, keys := fired0 + [r.value], keys0 + [q.head.key];
        DrainStep(q0, order0, id0, q, order, id, now, fired0, keys0, Pending(), nextOrder, queue.next);
      }
    }
  }
}
