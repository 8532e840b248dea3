/**
 * The priority scheduler as a step system: threads with a status and a
 * reschedule flag, sixteen run queues and the current thread
 * (kernel/src/subsystem/scheduler.rs, kernel/src/subsystem/process.rs).
 */
module SchedulerModel {
  import opened Prelude

  type Id = nat

  const LEVELS := 16

  datatype Status = Running | Waiting | Stopped

  datatype Thread = Thread(status: Status, reschedule: bool, priority: nat) {
    /** The run queue of the thread; priorities above the last queue share it. */
    function Level(): (l: nat)
      ensures l < LEVELS
    {
      if priority < LEVELS - 1 then priority else LEVELS - 1
    }
  }

  datatype State = State(threads: map<Id, Thread>, queues: seq<seq<Id>>, current: Option<Id>) {
    /** Sixteen queues, and only known threads in them. */
    ghost predicate Shaped() {
      && |queues| == LEVELS && (current.Some? ==> current.value in threads)
      && forall p, t: Id :: 0 <= p < LEVELS && t in queues[p] ==> t in threads
    }

    predicate IsRunning(t: Id) { t in threads && threads[t].status == Running }

    predicate IsRunningAt(t: Id, p: nat) { IsRunning(t) && threads[t].Level() == p }
  }

  // ── Steps ─────────────────────────────────────────────────────────────────

  function Scheduled(s: State, t: Id): (r: State)
    requires s.Shaped() && t in s.threads
    ensures r.Shaped()
  {
    var thread := s.threads[t];
    if thread.status != Running then
      s
    else
      var p := thread.Level();
      s.(threads := s.threads[t := thread.(reschedule := true)],
         queues := if t in s.queues[p] then s.queues else s.queues[p := s.queues[p] + [t]])
  }

  /** A queue without the first occurrence of `t`. */
  function Without(q: seq<Id>, t: Id): (r: seq<Id>)
    ensures forall x :: x in r ==> x in q
  {
    if q == [] then [] else if q[0] == t then q[1..] else [q[0]] + Without(q[1..], t)
  }

  /** Removing a thread cuts out its first occurrence, if there is one. */
  lemma {:induction false} WithoutFirst(q: seq<Id>, t: Id, i: nat)
    requires i <= |q| && t !in q[..i]
    ensures i == |q| ==> Without(q, t) == q
    ensures i < |q| && q[i] == t ==> Without(q, t) == q[..i] + q[i + 1..]
    decreases i
  {
    if i > 0 {
      assert q[0] == q[..i][0] && q[1..][..i - 1] == q[..i][1..];
      WithoutFirst(q[1..], t, i - 1);
      assert i < |q| ==> q[..i] == [q[0]] + q[1..][..i - 1] && q[i + 1..] == q[1..][i..];
    }
  }

  function Unscheduled(s: State, t: Id): (r: State)
    requires s.Shaped() && t in s.threads
    ensures r.Shaped()
  {
    var p := s.threads[t].Level();
    s.(threads := s.threads[t := s.threads[t].(reschedule := false)], queues := s.queues[p := Without(s.queues[p], t)])
  }

  function StatusSet(s: State, t: Id, status: Status): (r: State)
    requires s.Shaped() && t in s.threads
    ensures r.Shaped()
  {
    var s' := s.(threads := s.threads[t := s.threads[t].(status := status)]);
    if s.threads[t].status == Running && status != Running then
      Unscheduled(s', t)
    else if s.threads[t].status != Running && status == Running then
      Scheduled(s', t)
    else
      s'
  }

  /** A new thread starts out running and is scheduled at once (kernel/src/kernel.rs). */
  function Spawned(s: State, t: Id, priority: nat): (r: State)
    requires s.Shaped()
    ensures r.Shaped()
  {
    Scheduled(s.(threads := s.threads[t := Thread(Running, true, priority)]), t)
  }

  /** The highest non-empty queue among the first `n`. */
  function Highest(queues: seq<seq<Id>>, n: nat): (p: Option<nat>)
    requires n <= |queues|
    ensures p.Some? ==> p.value < n && queues[p.value] != []
    ensures forall q :: (if p.Some? then p.value + 1 else 0) <= q < n ==> queues[q] == []
  {
    if n == 0 then None else if queues[n - 1] != [] then Some(n - 1) else Highest(queues, n - 1)
  }

  /** The queues once the thread that ran is put back. */
  function PutBack(s: State): (r: seq<seq<Id>>)
    requires s.Shaped()
    ensures |r| == LEVELS
  {
    if s.current.Some? && s.threads[s.current.value].reschedule then
      var p := s.threads[s.current.value].Level();
      s.queues[p := s.queues[p] + [s.current.value]]
    else
      s.queues
  }

  /** The queues and the current thread once the head of the highest queue is taken. */
  function Elected(s: State, queues: seq<seq<Id>>): (r: State)
    requires |queues| == LEVELS
  {
    match Highest(queues, LEVELS)
    case None => s.(queues := queues, current := None)
    case Some(p) => s.(queues := queues[p := queues[p][1..]], current := Some(queues[p][0]))
  }

  function Dispatched(s: State): (r: State)
    requires s.Shaped()
    ensures r.Shaped()
  {
    Elected(s, PutBack(s))
  }

  // ── The invariant ─────────────────────────────────────────────────────────

  /**
   * The queues hold exactly the running threads other than the current one,
   * each once and in the queue of its own priority; the reschedule flag is
   * set exactly on running threads.
   */
  ghost predicate Inv(s: State) {
    && s.Shaped()
    && (forall t: Id :: t in s.threads ==> FlagOk(s.threads[t]))
    && forall p :: 0 <= p < LEVELS ==> QueueOk(s, p)
  }

  predicate FlagOk(thread: Thread) {
    thread.reschedule <==> thread.status == Running
  }

  ghost predicate QueueOk(s: State, p: nat)
    requires |s.queues| == LEVELS && p < LEVELS
  {
    && Distinct(s.queues[p])
    && forall t: Id :: t in s.queues[p] <==> s.IsRunningAt(t, p) && s.current != Some(t)
  }

  /** A thread is woken while it is still the current one. */
  predicate WakesCurrent(s: State, t: Id, status: Status) {
    t in s.threads && s.current == Some(t) && s.threads[t].status != Running && status == Running
  }

  lemma {:induction false} WithoutMember(q: seq<Id>, t: Id)
    requires Distinct(q)
    ensures Distinct(Without(q, t))
    ensures forall x: Id :: x in Without(q, t) <==> x in q && x != t
  {
    if q != [] && q[0] != t {
      var r := Without(q[1..], t);
      WithoutMember(q[1..], t);
      assert q == [q[0]] + q[1..];
      assert q[0] !in q[1..];
      forall i, j | 0 <= i < j < |r| + 1 ensures ([q[0]] + r)[i] != ([q[0]] + r)[j] {
        assert r[j - 1] in r;
      }
    } else if q != [] {
      assert q == [t] + q[1..];
    }
  }

  /** A thread that does not run before and after a change of its fields. */
  lemma {:induction false} IdleChangeKeeps(s: State, t: Id, thread: Thread)
    requires Inv(s) && !s.IsRunning(t) && thread.status != Running && FlagOk(thread)
    ensures Inv(s.(threads := s.threads[t := thread]))
  {
    var s' := s.(threads := s.threads[t := thread]);
    forall q | 0 <= q < LEVELS ensures QueueOk(s', q) {
      assert QueueOk(s, q);
      assert forall x: Id :: s'.IsRunningAt(x, q) == s.IsRunningAt(x, q);
    }
  }

  lemma {:induction false} ScheduledKeeps(s: State, t: Id)
    requires s.Shaped() && s.IsRunning(t) && s.current != Some(t)
    requires Inv(s.(threads := s.threads[t := s.threads[t].(status := Stopped, reschedule := false)]))
    ensures Inv(Scheduled(s, t))
  {
    var p := s.threads[t].Level();
    var s0 := s.(threads := s.threads[t := s.threads[t].(status := Stopped, reschedule := false)]);
    var s' := Scheduled(s, t);
    assert QueueOk(s0, p) && !s0.IsRunningAt(t, p) && t !in s.queues[p];
    forall x: Id | x in s'.threads ensures FlagOk(s'.threads[x]) {
      assert x in s0.threads;
    }
    forall q | 0 <= q < LEVELS ensures QueueOk(s', q) {
      assert QueueOk(s0, q);
      assert forall x: Id :: x != t ==> s'.IsRunningAt(x, q) == s0.IsRunningAt(x, q);
    }
  }

  lemma {:induction false} UnscheduledKeeps(s: State, t: Id)
    requires s.Shaped() && t in s.threads && !s.IsRunning(t)
    requires Inv(s.(threads := s.threads[t := s.threads[t].(status := Running, reschedule := true)]))
    ensures Inv(Unscheduled(s, t))
  {
    var p := s.threads[t].Level();
    var s0 := s.(threads := s.threads[t := s.threads[t].(status := Running, reschedule := true)]);
    var s' := Unscheduled(s, t);
    assert QueueOk(s0, p);
    WithoutMember(s.queues[p], t);
    forall x: Id | x in s'.threads ensures FlagOk(s'.threads[x]) {
      assert x in s0.threads;
    }
    forall q | 0 <= q < LEVELS ensures QueueOk(s', q) {
      assert QueueOk(s0, q);
      assert forall x: Id :: x != t ==> s'.IsRunningAt(x, q) == s0.IsRunningAt(x, q);
    }
  }

  /** A change of status keeps the invariant exactly when it does not wake the current thread. */
  lemma {:induction false} StatusSetKeeps(s: State, t: Id, status: Status)
    requires Inv(s) && t in s.threads
    ensures Inv(StatusSet(s, t, status)) <==> !WakesCurrent(s, t, status)
  {
    var s' := s.(threads := s.threads[t := s.threads[t].(status := status)]);
    if s.threads[t].status == Running && status != Running {
      assert s'.(threads := s'.threads[t := s'.threads[t].(status := Running, reschedule := true)]) == s;
      UnscheduledKeeps(s', t);
    } else if s.threads[t].status != Running && status == Running {
      var p := s.threads[t].Level();
      assert !s.IsRunningAt(t, p);
      if s.current == Some(t) {
        assert t in StatusSet(s, t, status).queues[p];
        assert !QueueOk(StatusSet(s, t, status), p);
      } else {
        var s0 := s.(threads := s.threads[t := s.threads[t].(status := Stopped, reschedule := false)]);
        assert s'.(threads := s'.threads[t := s'.threads[t].(status := Stopped, reschedule := false)]) == s0;
        IdleChangeKeeps(s, t, s0.threads[t]);
        ScheduledKeeps(s', t);
      }
    } else if s.threads[t].status == Running {
      assert s' == s;
    } else {
      IdleChangeKeeps(s, t, s'.threads[t]);
    }
  }

  lemma {:induction false} SpawnedKeeps(s: State, t: Id, priority: nat)
    requires Inv(s) && t !in s.threads
    ensures Inv(Spawned(s, t, priority))
  {
    var s' := s.(threads := s.threads[t := Thread(Running, true, priority)]);
    var s0 := s.(threads := s.threads[t := Thread(Stopped, false, priority)]);
    assert s'.(threads := s'.threads[t := s'.threads[t].(status := Stopped, reschedule := false)]) == s0;
    IdleChangeKeeps(s, t, s0.threads[t]);
    ScheduledKeeps(s', t);
  }

  // ── Dispatch ──────────────────────────────────────────────────────────────

  /** The threads waiting for level `p`, first to run first, with the current thread last. */
  function Line(s: State, p: nat): seq<Id>
    requires s.Shaped() && p < LEVELS
  {
    s.queues[p] + (if s.current.Some? && s.IsRunningAt(s.current.value, p) then [s.current.value] else [])
  }

  lemma {:induction false} LineIsRunning(s: State, p: nat)
    requires Inv(s) && p < LEVELS
    ensures Distinct(Line(s, p))
    ensures forall t: Id :: t in Line(s, p) <==> s.IsRunningAt(t, p)
  {
    assert QueueOk(s, p);
  }

  /** `p` is the highest level with a running thread. */
  ghost predicate Top(s: State, p: nat)
    requires s.Shaped()
  {
    && p < LEVELS && (exists t: Id :: s.IsRunningAt(t, p))
    && forall q: nat, t: Id :: p < q && s.IsRunningAt(t, q) ==> false
  }

  lemma {:induction false} PutBackIsLine(s: State, p: nat)
    requires Inv(s) && p < LEVELS
    ensures PutBack(s)[p] == Line(s, p)
  {
  }

  /**
   * A dispatch takes the first of the line of the highest level with a
   * running thread, puts the thread that ran back at the end of its own
   * line, and keeps every other line.
   */
  lemma {:induction false} DispatchTakesHead(s: State, p: nat)
    requires Inv(s) && Top(s, p)
    ensures var s' := Dispatched(s);
            && Line(s, p) != [] && s'.current == Some(Line(s, p)[0]) && s'.threads == s.threads
            && s'.queues[p] == Line(s, p)[1..]
            && (forall q :: 0 <= q < LEVELS && q != p ==> s'.queues[q] == Line(s, q))
    ensures Inv(Dispatched(s)) && Top(Dispatched(s), p)
    ensures Line(Dispatched(s), p) == Line(s, p)[1..] + [Line(s, p)[0]]
  {
    forall q | 0 <= q < LEVELS ensures PutBack(s)[q] == Line(s, q) {
      PutBackIsLine(s, q);
      LineIsRunning(s, q);
    }
    LineIsRunning(s, p);
    var t: Id :| s.IsRunningAt(t, p);
    assert t in Line(s, p);
    HighestIsTop(s, p);
    DispatchKeeps(s, p);
    var s' := Dispatched(s);
    assert forall q: nat, x: Id :: s'.IsRunningAt(x, q) == s.IsRunningAt(x, q);
    assert Line(s, p)[0] in Line(s, p);
  }

  lemma {:induction false} HighestIsTop(s: State, p: nat)
    requires Inv(s) && Top(s, p)
    ensures Highest(PutBack(s), LEVELS) == Some(p) && Line(s, p) != []
  {
    forall q | 0 <= q < LEVELS ensures PutBack(s)[q] == Line(s, q) && (q > p ==> PutBack(s)[q] == []) {
      PutBackIsLine(s, q);
      LineIsRunning(s, q);
      if Line(s, q) != [] {
        assert Line(s, q)[0] in Line(s, q);
      }
    }
    LineIsRunning(s, p);
    var t: Id :| s.IsRunningAt(t, p);
    assert t in Line(s, p);
  }

  lemma {:induction false} DispatchKeeps(s: State, p: nat)
    requires Inv(s) && Highest(PutBack(s), LEVELS) == Some(p)
    ensures Inv(Dispatched(s))
  {
    var s' := Dispatched(s);
    forall q | 0 <= q < LEVELS
      ensures Distinct(s'.queues[q])
      ensures forall t: Id :: t in s'.queues[q] <==> s.IsRunningAt(t, q) && s'.current != Some(t)
    {
      PutBackIsLine(s, q);
      LineIsRunning(s, q);
      var line := Line(s, q);
      if q == p {
        assert line == [line[0]] + line[1..];
      } else {
        PutBackIsLine(s, p);
        LineIsRunning(s, p);
        assert s.IsRunningAt(s'.current.value, p);
      }
    }
  }

  /** A dispatch elects no thread exactly when none is running; the program then panics when it restores registers. */
  lemma {:induction false} DispatchIdle(s: State)
    requires Inv(s)
    ensures Inv(Dispatched(s))
    ensures Dispatched(s).current.None? <==> forall t: Id :: !s.IsRunning(t)
  {
    forall q | 0 <= q < LEVELS ensures PutBack(s)[q] == Line(s, q) {
      PutBackIsLine(s, q);
    }
    match Highest(PutBack(s), LEVELS)
    case None =>
      var s' := Dispatched(s);
      forall t: Id | t in s.threads ensures !s.IsRunning(t) {
        LineIsRunning(s, s.threads[t].Level());
        assert t !in Line(s, s.threads[t].Level());
      }
      forall q | 0 <= q < LEVELS ensures QueueOk(s', q) {
        assert forall t: Id :: s'.IsRunningAt(t, q) ==> s.IsRunning(t);
      }
    case Some(p) =>
      LineIsRunning(s, p);
      assert Line(s, p)[0] in Line(s, p);
      DispatchKeeps(s, p);
  }

  // ── Priorities ────────────────────────────────────────────────────────────

  /** The priority as far as it counts: 15 is the highest. */
  function Capped(priority: nat): nat {
    if priority < 15 then priority else 15
  }

  /** No running thread has a higher priority than `t`. */
  ghost predicate Foremost(s: State, t: Id) {
    && s.IsRunning(t)
    && forall u: Id :: s.IsRunning(u) ==> Capped(s.threads[u].priority) <= Capped(s.threads[t].priority)
  }

  lemma {:induction false} TopIsForemost(s: State, p: nat, t: Id)
    requires s.Shaped() && Top(s, p)
    ensures s.IsRunningAt(t, p) <==> Foremost(s, t)
  {
    if Foremost(s, t) {
      var u: Id :| s.IsRunningAt(u, p);
      assert s.IsRunningAt(t, s.threads[t].Level());
    } else if s.IsRunningAt(t, p) {
      var u: Id :| s.IsRunning(u) && Capped(s.threads[u].priority) > Capped(s.threads[t].priority);
      assert s.IsRunningAt(u, s.threads[u].Level());
    }
  }

  /** The running threads of the highest priority among the running ones are in the line, and no others. */
  ghost predicate InFront(s: State, line: seq<Id>) {
    forall t: Id :: t in line <==> Foremost(s, t)
  }

  lemma {:induction false} LineForemost(s: State, p: nat)
    requires Inv(s) && Top(s, p)
    ensures InFront(s, Line(s, p))
  {
    LineIsRunning(s, p);
    forall t: Id ensures t in Line(s, p) <==> Foremost(s, t) {
      TopIsForemost(s, p, t);
    }
  }

  /** A dispatch elects a running thread of the highest priority there is among the running ones. */
  lemma {:induction false} DispatchElectsForemost(s: State)
    requires Inv(s)
    ensures Dispatched(s).current.Some? ==> Foremost(s, Dispatched(s).current.value)
  {
    if Dispatched(s).current.Some? {
      var p := Highest(PutBack(s), LEVELS).value;
      forall q | 0 <= q < LEVELS ensures PutBack(s)[q] == Line(s, q) {
        PutBackIsLine(s, q);
      }
      LineIsRunning(s, p);
      assert Line(s, p)[0] in Line(s, p);
      forall u: Id | s.IsRunning(u) ensures s.threads[u].Level() <= p {
        LineIsRunning(s, s.threads[u].Level());
        assert u in PutBack(s)[s.threads[u].Level()];
      }
    }
  }

  // ── Round robin ───────────────────────────────────────────────────────────

  function After(s: State, k: nat): (r: State)
    requires s.Shaped()
    ensures r.Shaped()
    decreases k
  {
    if k == 0 then s else After(Dispatched(s), k - 1)
  }

  /** The threads that `k` dispatches elect, in order. */
  function Elections(s: State, k: nat): (r: seq<Option<Id>>)
    requires s.Shaped()
    ensures |r| == k
    decreases k
  {
    if k == 0 then [] else [Dispatched(s).current] + Elections(Dispatched(s), k - 1)
  }

  lemma {:induction false} Rounds(s: State, p: nat, k: nat)
    requires Inv(s) && Top(s, p) && k <= |Line(s, p)|
    ensures Inv(After(s, k)) && Top(After(s, k), p)
    ensures forall i :: 0 <= i < k ==> Elections(s, k)[i] == Some(Line(s, p)[i])
    ensures Line(After(s, k), p) == Line(s, p)[k..] + Line(s, p)[..k]
    decreases k
  {
    if k > 0 {
      var line, s' := Line(s, p), Dispatched(s);
      DispatchTakesHead(s, p);
      Rounds(s', p, k - 1);
      var line' := Line(s', p);
      Rotation(line, line', k);
      var rest := Elections(s', k - 1);
      assert Elections(s, k) == [Some(line[0])] + rest;
      forall i | 0 <= i < k ensures ([Some(line[0])] + rest)[i] == Some(line[i]) {
        assert i > 0 ==> rest[i - 1] == Some(line'[i - 1]);
      }
    }
  }

  /** As many dispatches as there are threads of the highest priority, or fewer, elect them in line from the head. */
  lemma {:induction false} RoundRobin(s: State, p: nat, k: nat)
    requires Inv(s) && Top(s, p) && k <= |Line(s, p)|
    ensures Inv(After(s, k)) && Top(After(s, k), p)
    ensures InFront(s, Line(s, p))
    ensures forall i :: 0 <= i < k ==> Elections(s, k)[i] == Some(Line(s, p)[i])
    ensures Line(After(s, k), p) == Line(s, p)[k..] + Line(s, p)[..k]
  {
    LineForemost(s, p);
    Rounds(s, p, k);
  }

  lemma {:induction false} Rotation(line: seq<Id>, line': seq<Id>, k: nat)
    requires 0 < k <= |line| && line' == line[1..] + [line[0]]
    ensures line'[k - 1..] + line'[..k - 1] == line[k..] + line[..k]
    ensures forall i :: 0 <= i < k - 1 ==> line'[i] == line[i + 1]
  {
  }

  /**
   * In any window of as many dispatches as there are running threads at the
   * top level, each of them is elected exactly once, in line order, and no
   * other thread is; afterwards the line is as it was.
   */
  lemma {:induction false} EachRunsOnce(s: State, p: nat, m: nat)
    requires Inv(s) && Top(s, p) && m == |Line(s, p)|
    ensures forall i, j :: 0 <= i < j < m ==> Elections(s, m)[i] != Elections(s, m)[j]
    ensures forall t: Id :: Some(t) in Elections(s, m) <==> Foremost(s, t)
    ensures None !in Elections(s, m)
    ensures Line(After(s, m), p) == Line(s, p)
  {
    var line := Line(s, p);
    RoundRobin(s, p, m);
    LineIsRunning(s, p);
    assert line[m..] + line[..m] == line;
    forall t: Id ensures Some(t) in Elections(s, m) <==> Foremost(s, t) {
      TopIsForemost(s, p, t);
      if t in line {
        var i :| 0 <= i < m && line[i] == t;
        assert Elections(s, m)[i] == Some(t);
      }
    }
  }

  /** A thread that is woken takes its turn behind those that wait at its level: if that is the top level, they are
      elected first, in their order, and then it is. */
  lemma {:induction false} WokenTakesTurn(s: State, t: Id, p: nat)
    requires Inv(s) && t in s.threads && s.threads[t].status != Running && s.current != Some(t)
    requires p == Capped(s.threads[t].priority)
    ensures var s', waiting := StatusSet(s, t, Running), s.queues[p];
            && Inv(s') && s'.queues == s.queues[p := waiting + [t]]
            && (Foremost(s', t) ==> Elections(s', |waiting| + 1) == Somes(waiting + [t]))
  {
    var s', waiting := StatusSet(s, t, Running), s.queues[p];
    StatusSetKeeps(s, t, Running);
    assert !s.IsRunningAt(t, p) && t !in waiting by {
      assert QueueOk(s, p);
    }
    if Foremost(s', t) {
      ForemostIsTop(s', t, p);
      FirstElected(s', p, waiting + [t]);
    }
  }

  /** The threads at the beginning of the top line are elected first. */
  lemma {:induction false} FirstElected(s: State, p: nat, ts: seq<Id>)
    requires Inv(s) && Top(s, p) && s.queues[p] == ts
    ensures Elections(s, |ts|) == Somes(ts)
  {
    RoundRobin(s, p, |ts|);
    assert Line(s, p)[..|ts|] == ts;
    forall i | 0 <= i < |ts| ensures Elections(s, |ts|)[i] == Some(ts[i]) {
      assert Line(s, p)[i] == ts[i];
    }
  }

  function Somes(ts: seq<Id>): seq<Option<Id>> {
    seq(|ts|, i requires 0 <= i < |ts| => Some(ts[i]))
  }

  lemma {:induction false} ForemostIsTop(s: State, t: Id, p: nat)
    requires s.Shaped() && Foremost(s, t) && p == Capped(s.threads[t].priority)
    ensures Top(s, p)
  {
    assert s.IsRunningAt(t, p);
    forall q: nat, u: Id | p < q ensures !s.IsRunningAt(u, q) {
    }
  }

  // ── Runs ──────────────────────────────────────────────────────────────────

  datatype Op = Spawn(t: Id, priority: nat) | SetStatus(t: Id, status: Status) | Dispatch

  /** New threads have new identities, and only known threads change status. */
  predicate Enabled(s: State, op: Op) {
    match op
    case Spawn(t, _) => t !in s.threads
    case SetStatus(t, _) => t in s.threads
    case Dispatch => true
  }

  function Step(s: State, op: Op): (r: State)
    requires s.Shaped() && Enabled(s, op)
    ensures r.Shaped()
  {
    match op
    case Spawn(t, priority) => Spawned(s, t, priority)
    case SetStatus(t, status) => StatusSet(s, t, status)
    case Dispatch => Dispatched(s)
  }

  ghost predicate Possible(s: State, ops: seq<Op>)
    requires s.Shaped()
    decreases |ops|
  {
    ops == [] || (Enabled(s, ops[0]) && Possible(Step(s, ops[0]), ops[1..]))
  }

  /** The invariant holds in every state of the run. */
  ghost predicate Always(s: State, ops: seq<Op>)
    requires s.Shaped() && Possible(s, ops)
    decreases |ops|
  {
    Inv(s) && (ops != [] ==> Always(Step(s, ops[0]), ops[1..]))
  }

  /** No step of the run wakes the thread that is current then. */
  ghost predicate NeverWakesCurrent(s: State, ops: seq<Op>)
    requires s.Shaped() && Possible(s, ops)
    decreases |ops|
  {
    ops == [] || (!(ops[0].SetStatus? && WakesCurrent(s, ops[0].t, ops[0].status))
                  && NeverWakesCurrent(Step(s, ops[0]), ops[1..]))
  }

  lemma {:induction false} StepKeeps(s: State, op: Op)
    requires Inv(s) && Enabled(s, op)
    ensures Inv(Step(s, op)) <==> !(op.SetStatus? && WakesCurrent(s, op.t, op.status))
  {
    match op
    case Spawn(t, priority) => SpawnedKeeps(s, t, priority);
    case SetStatus(t, status) => StatusSetKeeps(s, t, status);
    case Dispatch => DispatchIdle(s);
  }

  /** Over every run, the invariant holds throughout exactly when no step wakes the current thread. */
  lemma {:induction false} RunKeeps(s: State, ops: seq<Op>)
    requires Inv(s) && Possible(s, ops)
    ensures Always(s, ops) <==> NeverWakesCurrent(s, ops)
    decreases |ops|
  {
    if ops != [] {
      StepKeeps(s, ops[0]);
      if Inv(Step(s, ops[0])) {
        RunKeeps(Step(s, ops[0]), ops[1..]);
      }
    }
  }

  /** Every dispatch of the run elects a running thread of the highest priority, if any is running. */
  ghost predicate ElectsForemost(s: State, ops: seq<Op>)
    requires s.Shaped() && Possible(s, ops)
    decreases |ops|
  {
    ops != [] ==>
      && (ops[0].Dispatch? ==>
            var t := Step(s, ops[0]).current;
            if t.Some? then Foremost(s, t.value) else forall u: Id :: !s.IsRunning(u))
      && ElectsForemost(Step(s, ops[0]), ops[1..])
  }

  lemma {:induction false} RunElectsForemost(s: State, ops: seq<Op>)
    requires Inv(s) && Possible(s, ops) && NeverWakesCurrent(s, ops)
    ensures ElectsForemost(s, ops)
    decreases |ops|
  {
    if ops != [] {
      StepKeeps(s, ops[0]);
      if ops[0].Dispatch? {
        DispatchIdle(s);
        DispatchElectsForemost(s);
      }
      RunElectsForemost(Step(s, ops[0]), ops[1..]);
    }
  }

  function Boot(): State {
    State(map[], seq(LEVELS, _ => []), None)
  }

  lemma {:induction false} BootInv()
    ensures Inv(Boot())
  {
  }

  /** A thread woken while current is queued by the wake, and once more by the next dispatch. */
  lemma {:induction false} WokenCurrentDoubles(s: State, t: Id)
    requires Inv(s) && WakesCurrent(s, t, Running)
    ensures PutBack(StatusSet(s, t, Running))[s.threads[t].Level()] == s.queues[s.threads[t].Level()] + [t] + [t]
  {
    assert QueueOk(s, s.threads[t].Level());
  }

  /** The only thread, of priority 8, has begun to wait and has not yielded yet. */
  function Parked(): State {
    State(map[0 := Thread(Waiting, false, 8)], Boot().queues, Some(0))
  }

  lemma {:induction false} ParkedIsReached()
    ensures StatusSet(Dispatched(Spawned(Boot(), 0, 8)), 0, Waiting) == Parked() && Inv(Parked())
  {
    var q := Boot().queues;
    var s := Spawned(Boot(), 0, 8);
    assert q[8] + [0] == [0] && s.queues == q[8 := [0]];
    TopIs(s.queues, 8, LEVELS);
    assert [0 as Id][1..] == [] && q[8 := [0]][8 := []] == q;
    assert Dispatched(s).queues == q;
    assert Without(q[8], 0) == [] && q[8 := []] == q;
    BootInv();
    SpawnedKeeps(Boot(), 0, 8);
    DispatchIdle(s);
    StatusSetKeeps(Dispatched(s), 0, Waiting);
  }

  /** Woken before it yields, the thread ends up both current and queued. */
  lemma {:induction false} WokenCurrentCounterexample()
    ensures var s := Dispatched(StatusSet(Parked(), 0, Running));
            s.current == Some(0) && s.queues[8] == [0] && !Inv(s)
  {
    ParkedIsReached();
    var q := Boot().queues;
    var s := StatusSet(Parked(), 0, Running);
    WokenCurrentDoubles(Parked(), 0);
    TopIs(PutBack(s), 8, LEVELS);
    assert PutBack(s)[8] == [0, 0] && [0 as Id, 0][1..] == [0];
    assert !QueueOk(Dispatched(s), 8);
  }

  lemma {:induction false} TopIs(queues: seq<seq<Id>>, p: nat, n: nat)
    requires p < n <= |queues| && queues[p] != [] && forall q :: p < q < n ==> queues[q] == []
    ensures Highest(queues, n) == Some(p)
    decreases n
  {
    if p < n - 1 {
      TopIs(queues, p, n - 1);
    }
  }
}
