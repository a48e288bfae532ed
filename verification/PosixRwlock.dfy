/**
 * The read/write lock built from a mutex and two condition variables, as a system of any number of threads.
 * Every step is one stretch of code that runs under the mutex; a wait releases the mutex, and a thread that has
 * been notified, or wakes up spuriously, takes it again before it goes on.
 */
module PosixRwlock {
  import opened Counting

  const INT_MAX := 0x7fff_ffff

  type Thread = nat

  /** Blocked threads wait for a notification; notified ones are on their way to test their condition again. */
  datatype Status =
    | Idle | Reading | Writing
    | BlockedReader | NotifiedReader | BlockedWriter | NotifiedWriter

  datatype State = State(runcount: int, waitingWriters: int, threads: map<Thread, Status>)

  /** The guard of rdlock; runcount + 1 wraps around to a negative number at the largest int. */
  predicate MayRead(s: State) {
    s.runcount + 1 > 0 && s.runcount != INT_MAX && s.waitingWriters == 0
  }

  predicate MayWrite(s: State) {
    s.runcount == 0
  }

  predicate Is(s: State, t: Thread, x: Status) {
    t in s.threads && s.threads[t] == x
  }

  function To(s: State, t: Thread, x: Status): State {
    s.(threads := s.threads[t := x])
  }

  /** rdlock from its start, or from a wait that has ended, to the lock or to the next wait. */
  function TryRead(s: State, t: Thread): State {
    if MayRead(s) then To(s, t, Reading).(runcount := s.runcount + 1) else To(s, t, BlockedReader)
  }

  /** wrlock from its start to the lock or to the first wait. */
  function TryWrite(s: State, t: Thread): State {
    if MayWrite(s) then To(s, t, Writing).(runcount := s.runcount - 1)
    else To(s, t, BlockedWriter).(waitingWriters := s.waitingWriters + 1)
  }

  /** wrlock from the end of a wait on. */
  function RetryWrite(s: State, t: Thread): State {
    TryWrite(s.(waitingWriters := s.waitingWriters - 1), t)
  }

  /** pthread_cond_broadcast on the readers' condition. */
  function NotifyReaders(s: State): State {
    s.(threads := map t | t in s.threads :: if s.threads[t] == BlockedReader then NotifiedReader else s.threads[t])
  }

  /** pthread_cond_signal on the writers' condition wakes the given thread, if it waits there. */
  function NotifyWriter(s: State, w: Thread): State {
    if Is(s, w, BlockedWriter) then To(s, w, NotifiedWriter) else s
  }

  /** What unlock does to the count: the number of readers goes down, or the writer leaves. */
  function Release(s: State, t: Thread): State {
    To(s, t, Idle).(runcount := if s.runcount < 0 then 0 else s.runcount - 1)
  }

  /** unlock by thread t; w is the writer a signal wakes. */
  function AfterUnlock(s: State, t: Thread, w: Thread): State {
    var r := Release(s, t);
    if r.runcount != 0 then r
    else if r.waitingWriters > 0 then NotifyWriter(r, w)
    else NotifyReaders(r)
  }

  /** The two tests in unlock that call abort when they fail. */
  predicate UnlockAborts(s: State) {
    if s.runcount < 0 then s.runcount != -1 else !(s.runcount > 0)
  }

  /** A signal reaches a waiting writer if there is one. */
  predicate Reaches(s: State, w: Thread) {
    (exists t :: t in s.threads && Is(s, t, BlockedWriter)) ==> Is(s, w, BlockedWriter)
  }

  /** One step of the system by thread t. */
  predicate Step(s: State, s': State, t: Thread, w: Thread) {
    || (Is(s, t, Idle) && (s' == TryRead(s, t) || s' == TryWrite(s, t)))
    || (Is(s, t, NotifiedReader) && s' == TryRead(s, t))
    || (Is(s, t, NotifiedWriter) && s' == RetryWrite(s, t))
    || (Is(s, t, BlockedReader) && s' == To(s, t, NotifiedReader))
    || (Is(s, t, BlockedWriter) && s' == To(s, t, NotifiedWriter))
    || ((Is(s, t, Reading) || Is(s, t, Writing)) && Reaches(Release(s, t), w) && s' == AfterUnlock(s, t, w))
  }

  predicate Initial(s: State) {
    s.runcount == 0 && s.waitingWriters == 0 && forall t :: t in s.threads ==> s.threads[t] == Idle
  }

  function Count(s: State, x: Status): nat {
    |Having(s.threads, x)|
  }

  /** What every reachable state satisfies. */
  predicate Invariant(s: State) {
    // the lock
    && (if s.runcount < 0 then s.runcount == -1 && Count(s, Writing) == 1 && Count(s, Reading) == 0
        else s.runcount == Count(s, Reading) <= INT_MAX && Count(s, Writing) == 0)
    // the count of waiting writers
    && s.waitingWriters == Count(s, BlockedWriter) + Count(s, NotifiedWriter)
    // no lost wakeup
    && (s.runcount == 0 && Count(s, BlockedWriter) > 0 ==> Count(s, NotifiedWriter) > 0)
    && (s.runcount == 0 && s.waitingWriters == 0 ==> Count(s, BlockedReader) == 0)
  }

  lemma TryReadKeeps(s: State, t: Thread)
    requires Invariant(s) && (Is(s, t, Idle) || Is(s, t, NotifiedReader))
    ensures Invariant(TryRead(s, t))
  {
    CountMoves(s.threads, t, if MayRead(s) then Reading else BlockedReader);
  }

  lemma TryWriteKeeps(s: State, t: Thread)
    requires Invariant(s) && Is(s, t, Idle)
    ensures Invariant(TryWrite(s, t))
  {
    CountMoves(s.threads, t, if MayWrite(s) then Writing else BlockedWriter);
  }

  lemma RetryWriteKeeps(s: State, t: Thread)
    requires Invariant(s) && Is(s, t, NotifiedWriter)
    ensures Invariant(RetryWrite(s, t))
  {
    CountMoves(s.threads, t, if MayWrite(s) then Writing else BlockedWriter);
  }

  lemma WakeKeeps(s: State, t: Thread)
    requires Invariant(s)
    ensures Is(s, t, BlockedReader) ==> Invariant(To(s, t, NotifiedReader))
    ensures Is(s, t, BlockedWriter) ==> Invariant(To(s, t, NotifiedWriter))
  {
    if Is(s, t, BlockedReader) {
      CountMoves(s.threads, t, NotifiedReader);
    }
    if Is(s, t, BlockedWriter) {
      CountMoves(s.threads, t, NotifiedWriter);
    }
  }

  /** While a thread holds the lock, unlock does not abort; what it leaves is the invariant but for the wakeups. */
  lemma ReleaseCounts(s: State, t: Thread)
    requires Invariant(s) && (Is(s, t, Reading) || Is(s, t, Writing))
    ensures !UnlockAborts(s)
    ensures
      var r := Release(s, t);
      && r.runcount == Count(r, Reading) <= INT_MAX && Count(r, Writing) == 0
      && r.waitingWriters == Count(r, BlockedWriter) + Count(r, NotifiedWriter)
  {
    Counted(s.threads, t);
    CountMoves(s.threads, t, Idle);
  }

  lemma NotifyWriterKeeps(r: State, w: Thread)
    requires r.runcount == Count(r, Reading) == 0 && Count(r, Writing) == 0
    requires r.waitingWriters == Count(r, BlockedWriter) + Count(r, NotifiedWriter) > 0 && Reaches(r, w)
    ensures Invariant(NotifyWriter(r, w))
  {
    if Is(r, w, BlockedWriter) {
      CountMoves(r.threads, w, NotifiedWriter);
    } else {
      assert Having(r.threads, BlockedWriter) == {};
    }
  }

  lemma NotifyReadersKeeps(r: State)
    requires r.runcount == Count(r, Reading) == 0 && Count(r, Writing) == 0
    requires r.waitingWriters == Count(r, BlockedWriter) + Count(r, NotifiedWriter) == 0
    ensures Invariant(NotifyReaders(r))
  {
    var n := NotifyReaders(r);
    assert Having(n.threads, BlockedReader) == {};
    assert Having(n.threads, Reading) == Having(r.threads, Reading);
    assert Having(n.threads, Writing) == Having(r.threads, Writing);
    assert Having(n.threads, BlockedWriter) == Having(r.threads, BlockedWriter);
    assert Having(n.threads, NotifiedWriter) == Having(r.threads, NotifiedWriter);
  }

  lemma UnlockKeeps(s: State, t: Thread, w: Thread)
    requires Invariant(s) && (Is(s, t, Reading) || Is(s, t, Writing)) && Reaches(Release(s, t), w)
    ensures Invariant(AfterUnlock(s, t, w))
  {
    ReleaseCounts(s, t);
    var r := Release(s, t);
    if r.runcount == 0 {
      if r.waitingWriters > 0 {
        NotifyWriterKeeps(r, w);
      } else {
        NotifyReadersKeeps(r);
      }
    }
  }

  lemma StepKeeps(s: State, s': State, t: Thread, w: Thread)
    requires Invariant(s) && Step(s, s', t, w)
    ensures Invariant(s')
  {
    if Is(s, t, Idle) {
      TryReadKeeps(s, t);
      TryWriteKeeps(s, t);
    } else if Is(s, t, NotifiedReader) {
      TryReadKeeps(s, t);
    } else if Is(s, t, NotifiedWriter) {
      RetryWriteKeeps(s, t);
    } else if Is(s, t, Reading) || Is(s, t, Writing) {
      UnlockKeeps(s, t, w);
    } else {
      WakeKeeps(s, t);
    }
  }

  ghost predicate Next(s: State, s': State) {
    exists t, w :: Step(s, s', t, w)
  }

  lemma NextKeeps(s: State, s': State)
    requires Invariant(s) && Next(s, s')
    ensures Invariant(s')
  {
    var t, w :| Step(s, s', t, w);
    StepKeeps(s, s', t, w);
  }

  lemma InitialHolds(s: State)
    requires Initial(s)
    ensures Invariant(s)
  {
    forall x | x != Idle
      ensures Having(s.threads, x) == {}
    {
    }
  }

  /** A run: any number of steps by any threads, in any order. */
  ghost predicate Run(run: seq<State>) {
    && run != [] && Initial(run[0])
    && forall i :: 0 < i < |run| ==> Next(run[i - 1], run[i])
  }

  lemma {:induction false} EveryRunKeepsInvariant(run: seq<State>, i: nat)
    requires Run(run) && i < |run|
    ensures Invariant(run[i])
  {
    if i == 0 {
      InitialHolds(run[0]);
    } else {
      EveryRunKeepsInvariant(run, i - 1);
      NextKeeps(run[i - 1], run[i]);
    }
  }

  lemma AtMostOne(m: map<Thread, Status>, x: Status, t: Thread, u: Thread)
    requires |Having(m, x)| <= 1 && t in m && m[t] == x && u in m && m[u] == x
    ensures t == u
  {
    if t != u {
      assert {t, u} <= Having(m, x);
      SubsetSize({t, u}, Having(m, x));
    }
  }

  /** Safety, over every run: a writer is alone with the lock. */
  lemma WriterExcludesOthers(run: seq<State>, i: nat, t: Thread, u: Thread)
    requires Run(run) && i < |run| && Is(run[i], t, Writing) && (Is(run[i], u, Reading) || Is(run[i], u, Writing))
    ensures t == u
  {
    EveryRunKeepsInvariant(run, i);
    Counted(run[i].threads, t);
    Counted(run[i].threads, u);
    AtMostOne(run[i].threads, Writing, t, u);
  }

  /** What a thread that has been notified gets when it runs next. */
  predicate Takes(s: State, t: Thread) {
    || (Is(s, t, NotifiedReader) && Is(TryRead(s, t), t, Reading))
    || (Is(s, t, NotifiedWriter) && Is(RetryWrite(s, t), t, Writing))
  }

  /**
   * No lost wakeup, over every run: when threads wait and nobody holds the lock, one of them has been notified
   * and gets the lock when it runs next.
   */
  lemma WaitersAreServed(run: seq<State>, i: nat, t: Thread) returns (u: Thread)
    requires Run(run) && i < |run| && t in run[i].threads
    requires run[i].threads[t] in {BlockedReader, NotifiedReader, BlockedWriter, NotifiedWriter}
    requires forall v :: v in run[i].threads ==> run[i].threads[v] != Reading && run[i].threads[v] != Writing
    ensures Takes(run[i], u)
  {
    var s := run[i];
    EveryRunKeepsInvariant(run, i);
    assert Having(s.threads, Reading) == {} && Having(s.threads, Writing) == {};
    Counted(s.threads, t);
    if s.waitingWriters > 0 {
      u :| u in Having(s.threads, NotifiedWriter);
    } else {
      u := t;
    }
  }

  /** A thread that waits for the write lock, notified or not. */
  predicate WantsWrite(s: State, t: Thread) {
    Is(s, t, BlockedWriter) || Is(s, t, NotifiedWriter)
  }

  lemma NobodyHas(s: State, x: Status)
    ensures Count(s, x) == 0 <==> forall t :: !Is(s, t, x)
  {
    Nobody(s.threads, x);
    assert forall t :: t in s.threads ==> (s.threads[t] == x <==> Is(s, t, x));
  }

  predicate Holds(s: State, t: Thread) {
    Is(s, t, Reading) || Is(s, t, Writing)
  }

  /** Nobody with either of two statuses. */
  lemma NobodyHasEither(s: State)
    ensures Count(s, BlockedWriter) + Count(s, NotifiedWriter) == 0 <==> forall t :: !WantsWrite(s, t)
    ensures Count(s, Reading) + Count(s, Writing) == 0 <==> forall t :: !Holds(s, t)
  {
    NobodyHas(s, BlockedWriter);
    NobodyHas(s, NotifiedWriter);
    NobodyHas(s, Reading);
    NobodyHas(s, Writing);
    if t :| Is(s, t, BlockedWriter) || Is(s, t, NotifiedWriter) {
      assert WantsWrite(s, t);
    }
    if t :| Is(s, t, Reading) || Is(s, t, Writing) {
      assert Holds(s, t);
    }
  }

  /** What a reader gets: the lock, unless someone writes, or wants to, or as many read as an int can count. */
  lemma ReaderTakes(s: State, t: Thread)
    requires Invariant(s) && (Is(s, t, Idle) || Is(s, t, NotifiedReader))
    ensures
      var free := (forall u :: !Is(s, u, Writing) && !WantsWrite(s, u)) && Count(s, Reading) < INT_MAX;
      Is(TryRead(s, t), t, if free then Reading else BlockedReader)
  {
    NobodyHas(s, Writing);
    NobodyHasEither(s);
  }

  /** What a writer gets: the lock, unless someone reads or writes. */
  lemma WriterTakes(s: State, t: Thread)
    requires Invariant(s)
    ensures
      var free := forall u :: !Holds(s, u);
      var x := if free then Writing else BlockedWriter;
      && (Is(s, t, Idle) ==> Is(TryWrite(s, t), t, x))
      && (Is(s, t, NotifiedWriter) ==> Is(RetryWrite(s, t), t, x))
  {
    NobodyHasEither(s);
  }

  /** unlock calls abort exactly if nobody holds the lock. */
  lemma AbortsIfFree(s: State)
    requires Invariant(s)
    ensures UnlockAborts(s) <==> forall u :: !Holds(s, u)
  {
    NobodyHasEither(s);
  }

  /** Writers take priority, over every run: while one waits, no thread gets the lock for reading. */
  lemma WritersGoFirst(run: seq<State>, i: nat, t: Thread, w: Thread)
    requires Run(run) && 0 < i < |run| && WantsWrite(run[i - 1], w)
    ensures Is(run[i], t, Reading) ==> Is(run[i - 1], t, Reading)
  {
    var s := run[i - 1];
    EveryRunKeepsInvariant(run, i - 1);
    var u, v :| Step(s, run[i], u, v);
    if Is(run[i], t, Reading) && !Is(s, t, Reading) {
      ReadersComeBy(s, run[i], u, v, t);
      ReaderTakes(s, t);
    }
  }

  /** Only rdlock makes a thread a reader. */
  lemma ReadersComeBy(s: State, s': State, u: Thread, v: Thread, t: Thread)
    requires Step(s, s', u, v) && Is(s', t, Reading) && !Is(s, t, Reading)
    ensures t == u && s' == TryRead(s, t) && (Is(s, t, Idle) || Is(s, t, NotifiedReader))
  {
  }

  /** Readers share, over every run: where others read and no writer waits, rdlock gets the lock at once. */
  lemma ReadersShare(run: seq<State>, i: nat, t: Thread, u: Thread)
    requires Run(run) && i < |run| && Is(run[i], t, Idle) && Is(run[i], u, Reading)
    requires (forall w :: !WantsWrite(run[i], w)) && Count(run[i], Reading) < INT_MAX
    ensures Is(TryRead(run[i], t), t, Reading) && Is(TryRead(run[i], t), u, Reading)
  {
    EveryRunKeepsInvariant(run, i);
    forall w
      ensures !Is(run[i], w, Writing)
    {
      if Is(run[i], w, Writing) {
        WriterExcludesOthers(run, i, w, u);
      }
    }
    ReaderTakes(run[i], t);
  }

  /**
   * Whom unlock wakes, over every run: nobody while others still read; else one writer, if one is blocked, and no
   * reader as long as a writer waits; else all readers that are blocked.
   */
  lemma UnlockWakes(run: seq<State>, i: nat, t: Thread, w: Thread, u: Thread)
    requires Run(run) && i < |run| && (Is(run[i], t, Reading) || Is(run[i], t, Writing))
    requires Reaches(Release(run[i], t), w) && u in run[i].threads && u != t
    ensures
      var s, s' := run[i], AfterUnlock(run[i], t, w);
      var last := forall v :: v != t ==> !Is(s, v, Reading);
      && Is(s', t, Idle)
      && (if last && Is(s, u, BlockedWriter) && u == w then Is(s', u, NotifiedWriter)
          else if last && Is(s, u, BlockedReader) && (forall v :: !WantsWrite(s, v)) then Is(s', u, NotifiedReader)
          else Is(s', u, s.threads[u]))
  {
    var s := run[i];
    var r := Release(s, t);
    EveryRunKeepsInvariant(run, i);
    ReleaseCounts(s, t);
    NobodyHas(r, Reading);
    NobodyHas(r, BlockedWriter);
    NobodyHasEither(r);
    assert forall v, x :: v != t ==> (Is(s, v, x) <==> Is(r, v, x));
    assert r.runcount == 0 <==> forall v :: v != t ==> !Is(s, v, Reading);
    assert forall v :: WantsWrite(s, v) <==> WantsWrite(r, v);
  }

  /** The lock's own fields; each method is what the code does between two releases of the mutex. */
  class Lock {
    var runcount: int
    var waitingWriters: int
    ghost var threads: map<Thread, Status>

    ghost function Value(): State
      reads this
    {
      State(runcount, waitingWriters, threads)
    }

    constructor (ghost all: set<Thread>)
      ensures Initial(Value()) && Invariant(Value()) && threads.Keys == all
    {
      runcount, waitingWriters := 0, 0;
      threads := map t | t in all :: Idle;
      new;
      InitialHolds(Value());
    }

    /** One test of the loop in rdlock; if it fails the thread waits. */
    method RdLock(t: Thread) returns (waits: bool)
      requires Invariant(Value()) && (Is(Value(), t, Idle) || Is(Value(), t, NotifiedReader))
      modifies this
      ensures Value() == TryRead(old(Value()), t) && Invariant(Value()) && Next(old(Value()), Value())
      ensures waits <==> Is(Value(), t, BlockedReader)
      ensures !waits <==>
        && Count(old(Value()), Reading) < INT_MAX
        && forall u :: !Is(old(Value()), u, Writing) && !WantsWrite(old(Value()), u)
    {
      assert Step(Value(), TryRead(Value(), t), t, t);
      ReaderTakes(Value(), t);
      TryReadKeeps(Value(), t);
      waits := !(runcount != INT_MAX && runcount + 1 > 0 && waitingWriters == 0);
      if waits {
        threads := threads[t := BlockedReader];
      } else {
        runcount := runcount + 1;
        threads := threads[t := Reading];
      }
    }

    /** One test of the loop in wrlock, at its start or at the end of a wait; if it fails the thread waits. */
    method WrLock(t: Thread, waited: bool) returns (waits: bool)
      requires Invariant(Value()) && Is(Value(), t, if waited then NotifiedWriter else Idle)
      modifies this
      ensures Value() == (if waited then RetryWrite(old(Value()), t) else TryWrite(old(Value()), t))
      ensures Invariant(Value()) && (waits <==> Is(Value(), t, BlockedWriter)) && Next(old(Value()), Value())
      ensures !waits <==> forall u :: !Holds(old(Value()), u)
    {
      assert Step(Value(), if waited then RetryWrite(Value(), t) else TryWrite(Value(), t), t, t);
      WriterTakes(Value(), t);
      if waited {
        RetryWriteKeeps(Value(), t);
        waitingWriters := waitingWriters - 1;
      } else {
        TryWriteKeeps(Value(), t);
      }
      waits := !(runcount == 0);
      if waits {
        waitingWriters := waitingWriters + 1;
        threads := threads[t := BlockedWriter];
      } else {
        runcount := runcount - 1;
        threads := threads[t := Writing];
      }
    }

    /** unlock; the asserted conditions are those it calls abort without. */
    method Unlock(t: Thread, ghost w: Thread)
      requires Invariant(Value()) && (Is(Value(), t, Reading) || Is(Value(), t, Writing))
      requires Reaches(Release(Value(), t), w)
      modifies this
      ensures Value() == AfterUnlock(old(Value()), t, w) && Invariant(Value()) && Next(old(Value()), Value())
    {
      assert Step(Value(), AfterUnlock(Value(), t, w), t, w);
      UnlockKeeps(Value(), t, w);
      ReleaseCounts(Value(), t);
      if runcount < 0 {
        assert runcount == -1;
        runcount := 0;
      } else {
        assert runcount > 0;
        runcount := runcount - 1;
      }
      threads := threads[t := Idle];
      if runcount == 0 {
        if waitingWriters > 0 {
          threads := NotifyWriter(Value(), w).threads;
        } else {
          threads := NotifyReaders(Value()).threads;
        }
      }
    }
  }
}
