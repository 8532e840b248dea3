/**
 * One thread that waits at a `OneshotGate` while another opens it
 * (kernel/src/subsystem/scheduler.rs), step by step in every order. The gate
 * is documented to let the waiter through whichever comes first.
 */
module Gate {
  /** What the waiter does next: test the flag, set its status, enter itself in the event's list, yield. */
  datatype Waiter = Check | Park | Enlist | Yield | Through

  /** What the opener does next: set the flag, wake the listed threads. */
  datatype Opener = Store | Notify | Finished

  datatype State = State(open: bool, listed: bool, parked: bool, waiter: Waiter, opener: Opener)

  const START := State(false, false, false, Check, Store)

  /** A thread that has yielded goes on only once it is no longer parked. */
  function WaiterStep(s: State): State {
    match s.waiter
    case Check => s.(waiter := if s.open then Through else Park)
    case Park => s.(parked := true, waiter := Enlist)
    case Enlist => s.(listed := true, waiter := Yield)
    case Yield => if s.parked then s else s.(waiter := Check)
    case Through => s
  }

  function OpenerStep(s: State): State {
    match s.opener
    case Store => s.(open := true, opener := Notify)
    case Notify => s.(parked := s.parked && !s.listed, listed := false, opener := Finished)
    case Finished => s
  }

  datatype Turn = WaiterTurn | OpenerTurn

  function Step(s: State, turn: Turn): State {
    if turn == WaiterTurn then WaiterStep(s) else OpenerStep(s)
  }

  function Run(s: State, turns: seq<Turn>): State
    decreases |turns|
  {
    if turns == [] then s else Run(Step(s, turns[0]), turns[1..])
  }

  /** The opener wakes the listed threads while the waiter has found the gate closed and is not in the list yet. */
  predicate Misses(s: State, turn: Turn) {
    turn == OpenerTurn && s.opener == Notify && (s.waiter == Park || s.waiter == Enlist)
  }

  predicate Missed(s: State, turns: seq<Turn>)
    decreases |turns|
  {
    turns != [] && (Misses(s, turns[0]) || Missed(Step(s, turns[0]), turns[1..]))
  }

  /** The waiter is past the test of a gate that nobody will open again. */
  predicate Doomed(s: State) {
    s.opener == Finished && (s.waiter == Park || ((s.waiter == Enlist || s.waiter == Yield) && s.parked))
  }

  predicate Inv(s: State) {
    && (s.open <==> s.opener != Store)
    && (s.waiter == Through ==> s.open) && (s.waiter == Enlist ==> s.parked)
    && (s.opener != Finished ==>
          && (s.parked <==> s.waiter == Enlist || s.waiter == Yield)
          && (s.listed <==> s.waiter == Yield))
  }

  lemma {:induction false} DoomedForever(s: State, turns: seq<Turn>)
    requires Doomed(s)
    ensures Doomed(Run(s, turns))
    decreases |turns|
  {
    if turns != [] {
      DoomedForever(Step(s, turns[0]), turns[1..]);
    }
  }

  lemma {:induction false} MissedIsDoomed(s: State, turns: seq<Turn>)
    requires Inv(s) && !Doomed(s)
    ensures Inv(Run(s, turns))
    ensures Missed(s, turns) <==> Doomed(Run(s, turns))
    decreases |turns|
  {
    if turns != [] {
      var s' := Step(s, turns[0]);
      if Misses(s, turns[0]) {
        DoomedForever(s', turns[1..]);
        InvKept(s', turns[1..]);
      } else {
        MissedIsDoomed(s', turns[1..]);
      }
    }
  }

  lemma {:induction false} InvKept(s: State, turns: seq<Turn>)
    requires Inv(s)
    ensures Inv(Run(s, turns))
    decreases |turns|
  {
    if turns != [] {
      InvKept(Step(s, turns[0]), turns[1..]);
    }
  }

  /**
   * In every order of steps in which the gate has been opened: unless the
   * wake-up was missed the waiter gets through within two more steps of its
   * own, and if it was missed no further step lets it through.
   */
  lemma {:induction false} OpenedGate(turns: seq<Turn>, more: seq<Turn>)
    requires Run(START, turns).opener == Finished
    ensures var s := Run(START, turns);
            if Missed(START, turns) then Run(s, more).waiter != Through
            else WaiterStep(WaiterStep(s)).waiter == Through
  {
    MissedIsDoomed(START, turns);
    if Missed(START, turns) {
      DoomedForever(Run(START, turns), more);
    }
  }

  /** The order that loses the wake-up. */
  lemma {:induction false} LostWakeUp(turns: seq<Turn>)
    requires turns == [WaiterTurn, OpenerTurn, OpenerTurn]
    ensures Run(START, turns).opener == Finished && Missed(START, turns)
  {
    assert turns[1..] == [OpenerTurn, OpenerTurn] && turns[1..][1..] == [OpenerTurn] && turns[1..][1..][1..] == [];
    var s1 := Step(START, turns[0]);
    var s2 := Step(s1, turns[1]);
    assert Run(s2, [OpenerTurn]) == Step(s2, OpenerTurn);
    assert Run(s1, turns[1..]) == Run(s2, [OpenerTurn]);
    assert Misses(s2, OpenerTurn) && Missed(s2, [OpenerTurn]) && Missed(s1, turns[1..]);
  }
}
