/** `thread_once` on Windows: any number of threads, each going through the same atomic steps on one control word. */
module ThreadOnce {

  /** Where a thread is: before an exchange that should take the lock, asleep after one that did not, before the test
      of `state`, before `state` is set, before the routine is called, in the routine, before the exchange that gives
      the lock back, and back from the call. */
  datatype Place = Spinning | Sleeping | Testing | Claiming | Calling | InRoutine | Leaving | Returned

  /** The control word, the threads, and how often the routine was begun and completed. */
  datatype State = State(lock: int, state: bool, places: seq<Place>, begun: nat, completed: nat)

  /** One thread gets to run. How long the routine takes is not known: it may end now or not. */
  datatype Tick = Tick(thread: nat, ends: bool)

  /** One atomic step of a thread. One that has returned may call again. */
  function Step(st: State, tick: Tick): State {
    var t := tick.thread;
    if t >= |st.places| then st
    else
      match st.places[t]
      case Spinning =>
        if st.lock != 0 then st.(lock := 1, places := st.places[t := Sleeping])
        else st.(lock := 1, places := st.places[t := Testing])
      case Sleeping => st.(places := st.places[t := Spinning])
      case Testing => st.(places := st.places[t := if !st.state then Claiming else Leaving])
      case Claiming => st.(state := true, places := st.places[t := Calling])
      case Calling => st.(begun := st.begun + 1, places := st.places[t := InRoutine])
      case InRoutine => if tick.ends then st.(completed := st.completed + 1, places := st.places[t := Leaving]) else st
      case Leaving => st.(lock := 0, places := st.places[t := Returned])
      case Returned => st.(places := st.places[t := Spinning])
  }

  function Run(st: State, schedule: seq<Tick>): State
    decreases |schedule|
  {
    if schedule == [] then st else Run(Step(st, schedule[0]), schedule[1..])
  }

  /** `THREAD_ONCE_INIT`, and n threads about to call */
  function Start(n: nat): State {
    State(0, false, seq(n, _ => Spinning), 0, 0)
  }

  /** Between the two exchanges. */
  predicate Inside(p: Place) {
    p.Testing? || p.Claiming? || p.Calling? || p.InRoutine? || p.Leaving?
  }

  predicate Exclusive(places: seq<Place>) {
    forall i, j | 0 <= i < j < |places| :: !(Inside(places[i]) && Inside(places[j]))
  }

  /** Nobody is inside when the lock is free. */
  predicate LockTells(st: State) {
    && (st.lock == 0 || st.lock == 1)
    && (st.lock == 0 ==> forall i | 0 <= i < |st.places| :: !Inside(st.places[i]))
    && (st.lock == 1 ==> exists i :: 0 <= i < |st.places| && Inside(st.places[i]))
  }

  /** What a thread's place says about the routine. */
  predicate PlaceTells(p: Place, state: bool, begun: nat, completed: nat) {
    match p
    case Claiming => !state
    case Calling => state && begun == 0
    case InRoutine => state && begun == 1 && completed == 0
    case Leaving => state && completed == 1
    case Returned => completed == 1
    case _ => true
  }

  /** The routine, once claimed, is being seen to by somebody or completed. */
  predicate RoutineTells(st: State) {
    && (!st.state ==> st.begun == 0 && st.completed == 0)
    && st.completed <= st.begun <= 1
    && (st.state && st.completed == 0 ==>
      exists i :: 0 <= i < |st.places| && (st.places[i].Calling? || st.places[i].InRoutine?))
  }

  predicate Invariant(st: State) {
    && Exclusive(st.places) && LockTells(st) && RoutineTells(st)
    && forall i | 0 <= i < |st.places| :: PlaceTells(st.places[i], st.state, st.begun, st.completed)
  }

  /** Every step of every thread keeps the invariant. */
  lemma StepKeeps(st: State, tick: Tick)
    requires Invariant(st)
    ensures Invariant(Step(st, tick))
  {
    if tick.thread < |st.places| {
      hide Exclusive, LockTells, RoutineTells, PlaceTells, Step, Invariant;
      ExclusionKept(st, tick);
      LockKept(st, tick);
      RoutineKept(st, tick);
      PlacesKept(st, tick);
      Together(Step(st, tick));
    }
  }

  lemma Together(st: State)
    requires Exclusive(st.places) && LockTells(st) && RoutineTells(st)
    requires forall i | 0 <= i < |st.places| :: PlaceTells(st.places[i], st.state, st.begun, st.completed)
    ensures Invariant(st)
  {
  }

  lemma ExclusionKept(st: State, tick: Tick)
    requires Invariant(st) && tick.thread < |st.places|
    ensures Exclusive(Step(st, tick).places)
  {
    hide RoutineTells, PlaceTells;
    var t, next := tick.thread, Step(st, tick);
    assert forall i | 0 <= i < |st.places| && i != t :: next.places[i] == st.places[i];
    if Inside(next.places[t]) {
      assert forall i | 0 <= i < |st.places| && i != t :: !Inside(st.places[i]);
    }
  }

  lemma LockKept(st: State, tick: Tick)
    requires Invariant(st) && tick.thread < |st.places|
    ensures LockTells(Step(st, tick))
  {
    hide RoutineTells, PlaceTells;
    var t, next := tick.thread, Step(st, tick);
    if Inside(st.places[t]) {
      assert forall i | 0 <= i < |st.places| && i != t :: !Inside(st.places[i]);
    }
    if next.lock == 1 && !Inside(next.places[t]) {
      var i :| 0 <= i < |st.places| && Inside(st.places[i]);
      assert i != t && Inside(next.places[i]);
    }
  }

  lemma RoutineKept(st: State, tick: Tick)
    requires Invariant(st) && tick.thread < |st.places|
    ensures RoutineTells(Step(st, tick))
  {
    hide Exclusive, LockTells;
    var t, next := tick.thread, Step(st, tick);
    assert PlaceTells(st.places[t], st.state, st.begun, st.completed);
    if next.state && next.completed == 0 && !next.places[t].Calling? && !next.places[t].InRoutine? {
      var i :| 0 <= i < |st.places| && (st.places[i].Calling? || st.places[i].InRoutine?);
      assert i != t && next.places[i] == st.places[i];
    }
  }

  lemma PlacesKept(st: State, tick: Tick)
    requires Invariant(st) && tick.thread < |st.places|
    ensures var next := Step(st, tick);
      forall i | 0 <= i < |next.places| :: PlaceTells(next.places[i], next.state, next.begun, next.completed)
  {
    hide LockTells;
    var t, next := tick.thread, Step(st, tick);
    assert PlaceTells(st.places[t], st.state, st.begun, st.completed);
    forall i | 0 <= i < |next.places|
      ensures PlaceTells(next.places[i], next.state, next.begun, next.completed)
    {
      assert PlaceTells(st.places[i], st.state, st.begun, st.completed);
      if Inside(st.places[t]) && i != t {
        assert !Inside(st.places[i]);
      }
    }
  }

  lemma {:induction false} RunKeeps(st: State, schedule: seq<Tick>)
    requires Invariant(st)
    ensures Invariant(Run(st, schedule))
    decreases |schedule|
  {
    if schedule != [] {
      StepKeeps(st, schedule[0]);
      RunKeeps(Step(st, schedule[0]), schedule[1..]);
    }
  }

  lemma {:induction false} ThreadsStay(st: State, schedule: seq<Tick>)
    ensures |Run(st, schedule).places| == |st.places|
    decreases |schedule|
  {
    if schedule != [] {
      ThreadsStay(Step(st, schedule[0]), schedule[1..]);
    }
  }

  /** For any number of threads and any schedule: no two threads are between the exchanges, the routine is begun at
      most once, and where a thread has returned it is completed. */
  lemma OnceOnly(n: nat, schedule: seq<Tick>)
    ensures var end := Run(Start(n), schedule);
      && Exclusive(end.places)
      && end.completed <= end.begun <= 1
      && forall i | 0 <= i < |end.places| && end.places[i].Returned? :: end.completed == 1
  {
    RunKeeps(Start(n), schedule);
    var end := Run(Start(n), schedule);
    assert forall i | 0 <= i < |end.places| :: PlaceTells(end.places[i], end.state, end.begun, end.completed);
  }

  // ----- nobody gets stuck

  lemma {:induction false} RunJoin(st: State, a: seq<Tick>, b: seq<Tick>)
    ensures Run(st, a + b) == Run(Run(st, a), b)
    decreases |a|
  {
    if a == [] {
      assert a + b == b;
    } else {
      assert (a + b)[1..] == a[1..] + b;
      RunJoin(Step(st, a[0]), a[1..], b);
    }
  }

  lemma RunOne(st: State, tick: Tick)
    ensures Run(st, [tick]) == Step(st, tick) && Run(st, []) == st
  {
    assert [tick][1..] == [];
  }

  /** How many steps a thread inside has before it. */
  function ToGo(p: Place): nat {
    match p
    case Testing => 5
    case Claiming => 4
    case Calling => 3
    case InRoutine => 2
    case Leaving => 1
    case _ => 0
  }

  /** A thread that is inside gets out by its own steps. */
  lemma {:induction false} GetsOut(st: State, t: nat) returns (schedule: seq<Tick>)
    requires Invariant(st) && t < |st.places| && Inside(st.places[t])
    ensures var end := Run(st, schedule);
      && Invariant(end) && end.lock == 0 && end.places == st.places[t := Returned]
    decreases ToGo(st.places[t])
  {
    var tick := Tick(t, true);
    var next := Step(st, tick);
    StepKeeps(st, tick);
    if st.places[t].Leaving? {
      schedule := [tick];
      RunOne(st, tick);
    } else {
      var rest := GetsOut(next, t);
      schedule := [tick] + rest;
      assert schedule[1..] == rest;
      assert next.places[t := Returned] == st.places[t := Returned];
    }
  }

  /** Whatever has happened so far, each thread that is in the call can still return. */
  lemma CanReturn(st: State, t: nat) returns (schedule: seq<Tick>)
    requires Invariant(st) && t < |st.places|
    ensures |Run(st, schedule).places| == |st.places| && Run(st, schedule).places[t].Returned?
  {
    if st.places[t].Returned? {
      schedule := [];
    } else if Inside(st.places[t]) {
      schedule := GetsOut(st, t);
    } else {
      var first := [];
      if st.lock == 1 {
        var i :| 0 <= i < |st.places| && Inside(st.places[i]);
        first := GetsOut(st, i);
      }
      var free := Run(st, first);
      RunKeeps(st, first);
      var wake := if free.places[t].Sleeping? then [Tick(t, true)] else [];
      RunOne(free, Tick(t, true));
      RunKeeps(free, wake);
      var awake := Run(free, wake);
      var enter := Tick(t, true);
      RunOne(awake, enter);
      StepKeeps(awake, enter);
      var last := GetsOut(Step(awake, enter), t);
      schedule := first + wake + [enter] + last;
      RunJoin(st, first, wake);
      RunJoin(st, first + wake, [enter]);
      RunJoin(st, first + wake + [enter], last);
    }
  }
}
