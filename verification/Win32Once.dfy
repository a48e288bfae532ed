/**
 * glthread_once for Win32, as a system of any number of threads that may each call it any number of times.  Every
 * step is one access to shared memory, one system call, or the call of the initialisation function.
 */
module Win32Once {
  import opened Counting

  type Thread = nat

  /** Where a thread is: the step it does next. */
  datatype Place =
    | Outside
    | Increments | Initialises | Marks | Calls | Finishes | Leaves
    | Undoes | Spins | Tests | Enters | Exits | Confirms
    | Returned

  /** inited and started as in the code; calls counts the calls of the function, holder has the critical section. */
  datatype State = State(
    inited: int, started: int, calls: nat, ready: bool, holder: set<Thread>, places: map<Thread, Place>)

  predicate Is(s: State, t: Thread, x: Place) {
    t in s.places && s.places[t] == x
  }

  function To(s: State, t: Thread, x: Place): State {
    s.(places := s.places[t := x])
  }

  /** One step of thread t; Confirms calls abort if the test fails, and goes on otherwise. */
  predicate Step(s: State, s': State, t: Thread) {
    && t in s.places
    && match s.places[t]
       case Outside => s' == To(s, t, if s.inited <= 0 then Increments else Returned)
       case Increments =>
         s' == To(s, t, if s.started + 1 == 0 then Initialises else Undoes).(started := s.started + 1)
       case Initialises => s.holder == {} && s' == To(s, t, Marks).(ready := true, holder := {t})
       case Marks => s' == To(s, t, Calls).(inited := 0)
       case Calls => s' == To(s, t, Finishes).(calls := s.calls + 1)
       case Finishes => s' == To(s, t, Leaves).(inited := 1)
       case Leaves => s' == To(s, t, Returned).(holder := {})
       case Undoes => s' == To(s, t, Spins).(started := s.started - 1)
       case Spins => s' == if s.inited < 0 then s else To(s, t, Tests)
       case Tests => s' == To(s, t, if s.inited <= 0 then Enters else Returned)
       case Enters => s.holder == {} && s' == To(s, t, Exits).(holder := {t})
       case Exits => s' == To(s, t, Confirms).(holder := {})
       case Confirms => !Aborts(s) && s' == To(s, t, Returned)
       case Returned => s' == To(s, t, Outside)
  }

  /** The last test. */
  predicate Aborts(s: State) {
    !(s.inited > 0)
  }

  /** The static initialiser, with all threads outside. */
  predicate Initial(s: State) {
    && s.inited == s.started == -1 && s.calls == 0 && !s.ready && s.holder == {}
    && forall t :: t in s.places ==> s.places[t] == Outside
  }

  /** The thread that came first is between its increment and its return. */
  predicate First(x: Place) {
    x in {Initialises, Marks, Calls, Finishes, Leaves}
  }

  predicate Holds(x: Place) {
    x in {Marks, Calls, Finishes, Leaves, Exits}
  }

  /** What every reachable state satisfies. */
  ghost predicate Invariant(s: State) {
    Started(s) && Section(s) && Initialised(s) && forall t :: t in s.places ==> Fits(s, s.places[t])
  }

  /** The increment of the thread that came first stays; started counts the increments to be undone besides. */
  predicate Started(s: State) {
    && (s.started < 0 ==> s.started == -1 && Having(s.places, Undoes) == {} && !s.ready && s.inited == -1)
    && (s.started >= 0 ==> s.started == |Having(s.places, Undoes)|)
  }

  /** The critical section is held by the one thread whose place says so. */
  predicate Section(s: State) {
    && (forall t :: t in s.holder ==> t in s.places && Holds(s.places[t]))
    && (forall t :: t in s.places && Holds(s.places[t]) ==> s.holder == {t})
  }

  /** How far the initialisation is, and that one thread is about it as long as it is not finished. */
  ghost predicate Initialised(s: State) {
    && s.inited in {-1, 0, 1} && (s.inited >= 0 ==> s.ready)
    && s.calls <= 1 && (s.inited < 0 ==> s.calls == 0) && (s.inited > 0 ==> s.calls == 1)
    && (forall t, u :: t in s.places && u in s.places && First(s.places[t]) && First(s.places[u]) ==> t == u)
    && (s.started >= 0 && s.inited <= 0 ==> exists t :: t in s.places && First(s.places[t]))
  }

  /** What a thread's place says about the others' progress. */
  predicate Fits(s: State, x: Place) {
    match x
    case Outside => true
    case Increments => true
    case Initialises => s.inited == -1 && !s.ready && s.holder == {} && s.started >= 0
    case Marks => s.inited == -1 && s.ready && s.started >= 0
    case Calls => s.inited == 0 && s.calls == 0
    case Finishes => s.inited == 0 && s.calls == 1
    case Leaves => s.inited == 1
    case Undoes => s.started >= 1
    case Spins => s.started >= 0
    case Tests => s.inited >= 0
    case Enters => s.inited >= 0
    case Exits => s.inited == 1
    case Confirms => s.inited == 1
    case Returned => s.inited == 1
  }

  lemma UndoingMoves(m: map<Thread, Place>, t: Thread, x: Place)
    requires t in m
    ensures m[t] == Undoes && x != Undoes ==> |Having(m[t := x], Undoes)| == |Having(m, Undoes)| - 1
    ensures m[t] != Undoes && x == Undoes ==> |Having(m[t := x], Undoes)| == |Having(m, Undoes)| + 1
    ensures m[t] != Undoes && x != Undoes ==> Having(m[t := x], Undoes) == Having(m, Undoes)
  {
    if m[t] != x {
      CountMoves(m, t, x);
    } else {
      assert m[t := x] == m;
    }
  }

  /** While the function is called, the critical section is taken; before anybody came it is free. */
  lemma CalledInside(s: State)
    requires Invariant(s)
    ensures s.inited == 0 ==> s.holder != {}
    ensures s.started < 0 ==> s.holder == {} && forall u :: u in s.places ==> !First(s.places[u])
  {
    if s.inited == 0 {
      var u :| u in s.places && First(s.places[u]);
      assert Fits(s, s.places[u]);
    }
    if s.started < 0 {
      forall u | u in s.places
        ensures !Holds(s.places[u]) && !First(s.places[u])
      {
        assert Fits(s, s.places[u]);
      }
    }
  }

  /** What a step does to places and to the holder of the critical section. */
  lemma StepMoves(s: State, s': State, t: Thread)
    requires Step(s, s', t)
    ensures t in s'.places && s'.places == s.places[t := s'.places[t]]
    ensures First(s'.places[t]) ==> First(s.places[t]) || (s.places[t] == Increments && s.started == -1)
    ensures Passes(s, t, s'.places[t], s'.holder)
  {
  }

  /** The critical section stays with its holder, or thread t, going to place x, takes or leaves it. */
  predicate Passes(s: State, t: Thread, x: Place, holder: set<Thread>)
    requires t in s.places
  {
    || (Holds(x) == Holds(s.places[t]) && holder == s.holder)
    || (Holds(x) && !Holds(s.places[t]) && s.holder == {} && holder == {t})
    || (!Holds(x) && Holds(s.places[t]) && holder == {})
  }

  lemma StartedKeeps(s: State, s': State, t: Thread)
    requires Invariant(s) && Step(s, s', t)
    ensures Started(s')
  {
    StepMoves(s, s', t);
    UndoingMoves(s.places, t, s'.places[t]);
    assert Fits(s, s.places[t]);
  }

  lemma SectionKeeps(s: State, s': State, t: Thread, x: Place)
    requires Section(s) && t in s.places && s'.places == s.places[t := x] && Passes(s, t, x, s'.holder)
    ensures Section(s')
  {
  }

  /** Some thread is about the initialisation as long as it is not finished. */
  lemma SomeoneFirst(s: State, s': State, t: Thread)
    requires Invariant(s) && Step(s, s', t) && s'.started >= 0 && s'.inited <= 0
    ensures exists u :: u in s'.places && First(s'.places[u])
  {
    if s.started < 0 || First(s.places[t]) {
      assert Fits(s, s.places[t]);
      assert First(s'.places[t]);
    } else {
      var u :| u in s.places && First(s.places[u]);
      assert First(s'.places[u]);
    }
  }

  lemma OneFirst(s: State, t: Thread, x: Place, u: Thread, v: Thread)
    requires Invariant(s) && t in s.places && (First(x) ==> First(s.places[t]) || s.started < 0)
    requires u in s.places && v in s.places && First(s.places[t := x][u]) && First(s.places[t := x][v])
    ensures u == v
  {
    CalledInside(s);
  }

  lemma InitialisedKeeps(s: State, s': State, t: Thread)
    requires Invariant(s) && Step(s, s', t)
    ensures Initialised(s')
  {
    assert Fits(s, s.places[t]);
    StepMoves(s, s', t);
    forall u, v | u in s'.places && v in s'.places && First(s'.places[u]) && First(s'.places[v])
      ensures u == v
    {
      OneFirst(s, t, s'.places[t], u, v);
    }
    if s'.started >= 0 && s'.inited <= 0 {
      SomeoneFirst(s, s', t);
    }
  }

  /** The thread that steps fits where it goes. */
  lemma FitsThere(s: State, s': State, t: Thread)
    requires Invariant(s) && Step(s, s', t)
    ensures t in s'.places && Fits(s', s'.places[t])
  {
    assert Fits(s, s.places[t]);
    CalledInside(s);
    UndoingMoves(s.places, t, s'.places[t]);
  }

  /** The other threads fit where they are. */
  lemma FitsStill(s: State, s': State, t: Thread, u: Thread)
    requires Invariant(s) && Step(s, s', t) && u in s.places && u != t
    ensures Fits(s', s.places[u])
  {
    assert Fits(s, s.places[t]) && Fits(s, s.places[u]);
    CalledInside(s);
    if s.places[u] == Undoes {
      assert u in Having(s'.places, Undoes);
      StartedKeeps(s, s', t);
    }
  }

  lemma StepKeeps(s: State, s': State, t: Thread)
    requires Invariant(s) && Step(s, s', t)
    ensures Invariant(s')
  {
    StartedKeeps(s, s', t);
    StepMoves(s, s', t);
    SectionKeeps(s, s', t, s'.places[t]);
    InitialisedKeeps(s, s', t);
    forall u | u in s'.places
      ensures Fits(s', s'.places[u])
    {
      FitsThere(s, s', t);
      if u != t {
        FitsStill(s, s', t, u);
      }
    }
  }

  ghost predicate Next(s: State, s': State) {
    exists t :: Step(s, s', t)
  }

  /** A run: any number of steps by any threads, in any order. */
  ghost predicate Run(run: seq<State>) {
    run != [] && Initial(run[0]) && forall i :: 0 < i < |run| ==> Next(run[i - 1], run[i])
  }

  lemma InitialHolds(s: State)
    requires Initial(s)
    ensures Invariant(s)
  {
    assert Having(s.places, Undoes) == {};
  }

  lemma {:induction false} EveryRunKeepsInvariant(run: seq<State>, i: nat)
    requires Run(run) && i < |run|
    ensures Invariant(run[i])
  {
    if i == 0 {
      InitialHolds(run[0]);
    } else {
      EveryRunKeepsInvariant(run, i - 1);
      var t :| Step(run[i - 1], run[i], t);
      StepKeeps(run[i - 1], run[i], t);
    }
  }

  /**
   * Over every run, the function is called once at most, it has been called and has returned when glthread_once
   * returns to any thread, nobody calls abort, and the critical section is initialised before others enter it.
   */
  lemma CalledOnce(run: seq<State>, i: nat, t: Thread)
    requires Run(run) && i < |run|
    ensures run[i].calls <= 1
    ensures Is(run[i], t, Returned) ==> run[i].calls == 1 && forall u :: !Is(run[i], u, Calls)
    ensures Is(run[i], t, Confirms) ==> !Aborts(run[i])
    ensures Is(run[i], t, Enters) ==> run[i].ready
  {
    EveryRunKeepsInvariant(run, i);
    if t in run[i].places {
      assert Fits(run[i], run[i].places[t]);
    }
  }

  /** A thread that cannot go on: it spins without effect, or the critical section is taken. */
  predicate Blocked(s: State, t: Thread) {
    || (Is(s, t, Spins) && s.inited < 0)
    || ((Is(s, t, Initialises) || Is(s, t, Enters)) && s.holder != {})
    || (Is(s, t, Confirms) && Aborts(s))
  }

  /** Over every run, a blocked thread waits for another one that is not blocked. */
  lemma NoDeadlock(run: seq<State>, i: nat, t: Thread) returns (u: Thread)
    requires Run(run) && i < |run| && Blocked(run[i], t)
    ensures u in run[i].places && !Blocked(run[i], u) && (First(run[i].places[u]) || run[i].places[u] == Exits)
  {
    var s := run[i];
    EveryRunKeepsInvariant(run, i);
    assert Fits(s, s.places[t]);
    if Is(s, t, Spins) {
      u :| u in s.places && First(s.places[u]);
    } else {
      u :| u in s.holder;
    }
    assert Fits(s, s.places[u]);
  }

  /** The last test fails exactly as long as the function has not been called and returned. */
  lemma AbortTest(run: seq<State>, i: nat)
    requires Run(run) && i < |run|
    ensures Aborts(run[i]) <==> run[i].calls == 0 || exists u :: Is(run[i], u, Finishes)
  {
    var s := run[i];
    EveryRunKeepsInvariant(run, i);
    if u :| Is(s, u, Finishes) {
      assert Fits(s, s.places[u]);
    }
    if s.inited == 0 {
      var u :| u in s.places && First(s.places[u]);
      assert Fits(s, s.places[u]);
      assert s.calls == 0 || Is(s, u, Finishes);
    }
  }

  lemma {:induction false} StaysInitialised(run: seq<State>, k: nat, i: nat)
    requires Run(run) && k <= i < |run| && run[k].inited == 1
    ensures run[i].inited == 1
    decreases i
  {
    if k < i {
      StaysInitialised(run, k, i - 1);
      EveryRunKeepsInvariant(run, i - 1);
      var t :| Step(run[i - 1], run[i], t);
      assert Fits(run[i - 1], run[i - 1].places[t]);
    }
  }

  /** Over every run, once glthread_once has returned to some thread, a thread that calls it later returns at once. */
  lemma ReturnsAtOnce(run: seq<State>, k: nat, i: nat, t: Thread, u: Thread)
    requires Run(run) && k < i < |run| && Is(run[k], t, Returned)
    requires Is(run[i - 1], u, Outside) && !Is(run[i], u, Outside)
    ensures Is(run[i], u, Returned)
  {
    EveryRunKeepsInvariant(run, k);
    assert Fits(run[k], run[k].places[t]);
    StaysInitialised(run, k, i - 1);
    var v :| Step(run[i - 1], run[i], v);
    StepMoves(run[i - 1], run[i], v);
  }
}
