/** The scheduler's operations on its run queues and current thread (kernel/src/subsystem/scheduler.rs). */
module Scheduler {
  import opened Prelude
  import opened SchedulerModel

  /** Where `t` first occurs in a queue. */
  method Position(q: seq<Id>, t: Id) returns (index: Option<nat>)
    ensures index.None? <==> t !in q
    ensures index.Some? ==> index.value < |q| && Without(q, t) == q[..index.value] + q[index.value + 1..]
    ensures index.None? ==> Without(q, t) == q
  {
    var i := 0;
    while i < |q|
      invariant 0 <= i <= |q| && t !in q[..i]
    {
      if q[i] == t {
        WithoutFirst(q, t, i);
        return Some(i);
      }
      i := i + 1;
    }
    WithoutFirst(q, t, i);
    return None;
  }

  class Scheduler {
    var threads: map<Id, Thread>
    const queues: array<seq<Id>>
    var current: Option<Id>

    ghost function View(): State
      reads this, queues
    {
      State(threads, queues[..], current)
    }

    ghost predicate Valid()
      reads this, queues
    {
      View().Shaped()
    }

    constructor ()
      ensures Valid() && fresh(queues) && View() == Boot() && Inv(View())
    {
      threads, current := map[], None;
      queues := new seq<Id>[LEVELS](_ => []);
      new;
      assert View() == Boot();
      BootInv();
    }

    method Schedule(t: Id)
      requires Valid() && t in threads
      modifies this, queues
      ensures Valid() && View() == Scheduled(old(View()), t)
      ensures threads[t].status == Running ==> t in queues[Capped(threads[t].priority)] && threads[t].reschedule
    {
      if threads[t].status != Running {
        return;
      }
      threads := threads[t := threads[t].(reschedule := true)];
      var p := threads[t].Level();
      var index := Position(queues[p], t);
      if index.None? {
        queues[p] := queues[p] + [t];
      }
      assert queues[..] == Scheduled(old(View()), t).queues;
    }

    method Unschedule(t: Id)
      requires Valid() && t in threads
      modifies this, queues
      ensures Valid() && View() == Unscheduled(old(View()), t)
    {
      threads := threads[t := threads[t].(reschedule := false)];
      var p := threads[t].Level();
      var index := Position(queues[p], t);
      if index.Some? {
        queues[p] := queues[p][..index.value] + queues[p][index.value + 1..];
      }
      assert queues[..] == Unscheduled(old(View()), t).queues;
    }

    /** Keeps the invariant exactly when the thread is not woken while current. */
    method SetStatus(t: Id, status: Status)
      requires Valid() && t in threads
      modifies this, queues
      ensures Valid() && View() == StatusSet(old(View()), t, status)
      ensures old(Inv(View())) ==> (Inv(View()) <==> !WakesCurrent(old(View()), t, status))
    {
      if Inv(View()) {
        StatusSetKeeps(View(), t, status);
      }
      var before := threads[t].status;
      threads := threads[t := threads[t].(status := status)];
      if before == Running {
        if status != Running {
          Unschedule(t);
        }
      } else if status == Running {
        Schedule(t);
      }
    }

    method Spawn(t: Id, priority: nat)
      requires Valid() && t !in threads
      modifies this, queues
      ensures Valid() && View() == Spawned(old(View()), t, priority)
      ensures t in threads && threads[t] == Thread(Running, true, priority)
      ensures old(Inv(View())) ==> Inv(View())
    {
      if Inv(View()) {
        SpawnedKeeps(View(), t, priority);
      }
      threads := threads[t := Thread(Running, true, priority)];
      Schedule(t);
    }

    method PutBackCurrent()
      requires Valid()
      modifies queues
      ensures queues[..] == PutBack(old(View()))
    {
      if current.Some? && threads[current.value].reschedule {
        var p := threads[current.value].Level();
        queues[p] := queues[p] + [current.value];
      }
    }

    /** Takes the head of the highest non-empty queue. */
    method PopHighest() returns (next: Option<Id>)
      requires queues.Length == LEVELS
      modifies queues
      ensures Elected(old(View()), old(queues[..])) == View().(current := next)
    {
      var p := LEVELS;
      while p > 0
        invariant 0 <= p <= LEVELS && queues[..] == old(queues[..])
        invariant Highest(queues[..], LEVELS) == Highest(queues[..], p)
      {
        p := p - 1;
        if queues[p] != [] {
          next := Some(queues[p][0]);
          queues[p] := queues[p][1..];
          return;
        }
      }
      next := None;
    }

    /** Keeps the invariant; no thread is elected exactly when none is running. */
    method ScheduleNextThread()
      requires Valid()
      modifies this, queues
      ensures Valid() && View() == Dispatched(old(View()))
      ensures old(Inv(View())) ==> Inv(View()) && (current.None? <==> forall t: Id :: !old(View()).IsRunning(t))
      ensures old(Inv(View())) && current.Some? ==> Foremost(old(View()), current.value)
    {
      if Inv(View()) {
        DispatchIdle(View());
        DispatchElectsForemost(View());
      }
      PutBackCurrent();
      current := PopHighest();
    }

    /**
     * The handler of the yield and reschedule interrupts. It saves the registers of the current thread and restores
     * those of the elected one, so it panics, here as `false`, if there is no current thread or none is elected.
     */
    method Run() returns (ok: bool)
      requires Valid()
      modifies this, queues
      ensures Valid() && View() == (if old(current).None? then old(View()) else Dispatched(old(View())))
      ensures ok <==> old(current).Some? && current.Some?
      ensures old(Inv(View())) ==> (ok <==> old(current).Some? && exists t: Id :: old(View()).IsRunning(t))
    {
      if current.None? {
        return false;
      }
      ScheduleNextThread();
      ok := current.Some?;
    }
  }
}
