/**
 * The read/write lock for Win32, as a system of any number of threads.  A thread that has to wait puts itself in a
 * queue; whoever releases the lock hands it over: it counts the waiting thread as a holder before that thread runs
 * again.  A thread that cannot be queued polls instead.
 */
module Win32Rwlock {
  import opened Counting
  import opened WaitQueue

  const INT_MAX := 0x7fff_ffff

  type Thread = Event

  datatype Status =
    | Idle | Reading | Writing
    | QueuedReader | QueuedWriter | HandedReader | HandedWriter | PollingReader | PollingWriter

  datatype State = State(runcount: int, readers: seq<Thread>, writers: seq<Thread>, threads: map<Thread, Status>)

  /** The test of rdlock; runcount + 1 wraps around to a negative number at the largest int. */
  predicate MayRead(s: State) {
    s.runcount + 1 > 0 && s.runcount != INT_MAX
  }

  predicate Is(s: State, t: Thread, x: Status) {
    t in s.threads && s.threads[t] == x
  }

  function To(s: State, t: Thread, x: Status): State {
    s.(threads := s.threads[t := x])
  }

  /** rdlock up to the lock, the queue, or, if it could not be queued, the first poll. */
  function StartRead(s: State, t: Thread, queued: bool): State {
    if MayRead(s) then To(s, t, Reading).(runcount := s.runcount + 1)
    else if queued then To(s, t, QueuedReader).(readers := s.readers + [t])
    else To(s, t, PollingReader)
  }

  /** One poll of rdlock. */
  function PollRead(s: State, t: Thread): State {
    if MayRead(s) then To(s, t, Reading).(runcount := s.runcount + 1) else s
  }

  function StartWrite(s: State, t: Thread, queued: bool): State {
    if s.runcount == 0 then To(s, t, Writing).(runcount := s.runcount - 1)
    else if queued then To(s, t, QueuedWriter).(writers := s.writers + [t])
    else To(s, t, PollingWriter)
  }

  function PollWrite(s: State, t: Thread): State {
    if s.runcount == 0 then To(s, t, Writing).(runcount := s.runcount - 1) else s
  }

  /** The tests a thread makes when it runs again after it was handed the lock; it calls abort if they fail. */
  predicate ResumeAborts(s: State, t: Thread)
    requires t in s.threads
  {
    if s.threads[t] == HandedReader then !(s.runcount > 0) else !(s.runcount == -1)
  }

  function Resume(s: State, t: Thread): State
    requires t in s.threads
  {
    To(s, t, if s.threads[t] == HandedReader then Reading else Writing)
  }

  function Release(s: State, t: Thread): State {
    To(s, t, Idle).(runcount := if s.runcount < 0 then 0 else s.runcount - 1)
  }

  predicate UnlockAborts(s: State) {
    if s.runcount < 0 then s.runcount != -1 else !(s.runcount > 0)
  }

  /** Hands the lock to the first waiting writer, or to all waiting readers. */
  function HandOver(s: State): State {
    if |s.writers| > 0 then
      To(s, s.writers[0], HandedWriter).(runcount := s.runcount - 1, writers := s.writers[1..])
    else
      State(s.runcount + |s.readers|, [], s.writers,
        map t | t in s.threads :: if t in s.readers then HandedReader else s.threads[t])
  }

  function AfterUnlock(s: State, t: Thread): State {
    var r := Release(s, t);
    if r.runcount == 0 then HandOver(r) else r
  }

  predicate Step(s: State, s': State, t: Thread, queued: bool) {
    || (Is(s, t, Idle) && (s' == StartRead(s, t, queued) || s' == StartWrite(s, t, queued)))
    || (Is(s, t, PollingReader) && s' == PollRead(s, t))
    || (Is(s, t, PollingWriter) && s' == PollWrite(s, t))
    || ((Is(s, t, HandedReader) || Is(s, t, HandedWriter)) && s' == Resume(s, t))
    || ((Is(s, t, Reading) || Is(s, t, Writing)) && s' == AfterUnlock(s, t))
  }

  /** There are no more threads than an int can count. */
  predicate Initial(s: State) {
    && s.runcount == 0 && s.readers == s.writers == [] && |s.threads| <= INT_MAX
    && forall t :: t in s.threads ==> s.threads[t] == Idle
  }

  function Count(s: State, x: Status): nat {
    |Having(s.threads, x)|
  }

  /** A queue holds exactly the threads with the status, each once. */
  predicate Queues(q: seq<Thread>, s: State, x: Status) {
    && (forall i, j :: 0 <= i < j < |q| ==> q[i] != q[j])
    && (forall i :: 0 <= i < |q| ==> Is(s, q[i], x))
    && (forall t :: t in s.threads && s.threads[t] == x ==> t in q)
  }

  function ReadHolders(s: State): nat {
    Count(s, Reading) + Count(s, HandedReader)
  }

  function WriteHolders(s: State): nat {
    Count(s, Writing) + Count(s, HandedWriter)
  }

  /** runcount counts the holders, those included that have been handed the lock but have not run again. */
  predicate Counts(s: State) {
    if s.runcount < 0 then s.runcount == -1 && WriteHolders(s) == 1 && ReadHolders(s) == 0
    else s.runcount == ReadHolders(s) && WriteHolders(s) == 0
  }

  predicate Invariant(s: State) {
    && Counts(s) && |s.threads| <= INT_MAX
    && Queues(s.readers, s, QueuedReader) && Queues(s.writers, s, QueuedWriter)
    && (s.runcount == 0 ==> s.readers == s.writers == [])
  }

  /** A queue does not notice a thread that neither is nor becomes one of its own. */
  lemma QueuesStay(q: seq<Thread>, s: State, t: Thread, x: Status, y: Status)
    requires Queues(q, s, x) && t in s.threads && s.threads[t] != x && y != x
    ensures Queues(q, To(s, t, y), x)
  {
  }

  lemma QueuesGrow(q: seq<Thread>, s: State, t: Thread, x: Status)
    requires Queues(q, s, x) && t in s.threads && s.threads[t] != x
    ensures Queues(q + [t], To(s, t, x), x)
  {
    var r := q + [t];
    forall u | u in s.threads[t := x] && s.threads[t := x][u] == x
      ensures u in r
    {
      if u == t {
        assert r[|q|] == t;
      }
    }
  }

  lemma QueuesShrink(q: seq<Thread>, s: State, x: Status, y: Status)
    requires Queues(q, s, x) && q != [] && y != x
    ensures Queues(q[1..], To(s, q[0], y), x)
  {
    forall u | u in s.threads[q[0] := y] && s.threads[q[0] := y][u] == x
      ensures u in q[1..]
    {
      var i :| 0 <= i < |q| && q[i] == u;
      assert q[1..][i - 1] == u;
    }
  }

  /** A thread that gets the lock by its own step. */
  lemma TakeKeeps(s: State, t: Thread, x: Status)
    requires Invariant(s) && (Is(s, t, Idle) || Is(s, t, PollingReader) || Is(s, t, PollingWriter))
    requires (x == Reading && MayRead(s)) || (x == Writing && s.runcount == 0)
    ensures Invariant(To(s, t, x).(runcount := if x == Reading then s.runcount + 1 else s.runcount - 1))
  {
    CountMoves(s.threads, t, x);
    QueuesStay(s.readers, s, t, QueuedReader, x);
    QueuesStay(s.writers, s, t, QueuedWriter, x);
  }

  /** A thread that does not get the lock, and polls. */
  lemma PollingKeeps(s: State, t: Thread, x: Status)
    requires Invariant(s) && Is(s, t, Idle) && (x == PollingReader || x == PollingWriter)
    ensures Invariant(To(s, t, x))
  {
    CountMoves(s.threads, t, x);
    QueuesStay(s.readers, s, t, QueuedReader, x);
    QueuesStay(s.writers, s, t, QueuedWriter, x);
  }

  lemma QueueReaderKeeps(s: State, t: Thread)
    requires Invariant(s) && Is(s, t, Idle) && s.runcount != 0
    ensures Invariant(To(s, t, QueuedReader).(readers := s.readers + [t]))
  {
    CountMoves(s.threads, t, QueuedReader);
    QueuesGrow(s.readers, s, t, QueuedReader);
    QueuesStay(s.writers, s, t, QueuedWriter, QueuedReader);
  }

  lemma QueueWriterKeeps(s: State, t: Thread)
    requires Invariant(s) && Is(s, t, Idle) && s.runcount != 0
    ensures Invariant(To(s, t, QueuedWriter).(writers := s.writers + [t]))
  {
    CountMoves(s.threads, t, QueuedWriter);
    QueuesGrow(s.writers, s, t, QueuedWriter);
    QueuesStay(s.readers, s, t, QueuedReader, QueuedWriter);
  }

  lemma StartReadKeeps(s: State, t: Thread, queued: bool)
    requires Invariant(s) && Is(s, t, Idle)
    ensures Invariant(StartRead(s, t, queued))
  {
    if MayRead(s) {
      TakeKeeps(s, t, Reading);
    } else if queued {
      QueueReaderKeeps(s, t);
    } else {
      PollingKeeps(s, t, PollingReader);
    }
  }

  lemma StartWriteKeeps(s: State, t: Thread, queued: bool)
    requires Invariant(s) && Is(s, t, Idle)
    ensures Invariant(StartWrite(s, t, queued))
  {
    if s.runcount == 0 {
      TakeKeeps(s, t, Writing);
    } else if queued {
      QueueWriterKeeps(s, t);
    } else {
      PollingKeeps(s, t, PollingWriter);
    }
  }

  lemma PollKeeps(s: State, t: Thread)
    requires Invariant(s)
    ensures Is(s, t, PollingReader) ==> Invariant(PollRead(s, t))
    ensures Is(s, t, PollingWriter) ==> Invariant(PollWrite(s, t))
  {
    if Is(s, t, PollingReader) && MayRead(s) {
      TakeKeeps(s, t, Reading);
    }
    if Is(s, t, PollingWriter) && s.runcount == 0 {
      TakeKeeps(s, t, Writing);
    }
  }

  /** A thread that was handed the lock finds runcount as its tests want it. */
  lemma ResumeKeeps(s: State, t: Thread)
    requires Invariant(s) && (Is(s, t, HandedReader) || Is(s, t, HandedWriter))
    ensures !ResumeAborts(s, t) && Invariant(Resume(s, t))
  {
    var x := if s.threads[t] == HandedReader then Reading else Writing;
    Counted(s.threads, t);
    CountMoves(s.threads, t, x);
    QueuesStay(s.readers, s, t, QueuedReader, x);
    QueuesStay(s.writers, s, t, QueuedWriter, x);
  }

  /** While a thread holds the lock, unlock does not abort; what it leaves counts the remaining holders. */
  lemma ReleaseKeeps(s: State, t: Thread)
    requires Invariant(s) && (Is(s, t, Reading) || Is(s, t, Writing))
    ensures !UnlockAborts(s)
    ensures
      var r := Release(s, t);
      && r.runcount == ReadHolders(r) && WriteHolders(r) == 0 && |r.threads| <= INT_MAX
      && Queues(r.readers, r, QueuedReader) && Queues(r.writers, r, QueuedWriter)
  {
    Counted(s.threads, t);
    CountMoves(s.threads, t, Idle);
    QueuesStay(s.readers, s, t, QueuedReader, Idle);
    QueuesStay(s.writers, s, t, QueuedWriter, Idle);
  }

  /** A sequence without repetition has as many elements as the set of them. */
  lemma {:induction false} DistinctCount(q: seq<Thread>, all: set<Thread>)
    requires forall i, j :: 0 <= i < j < |q| ==> q[i] != q[j]
    requires forall t :: t in all <==> t in q
    ensures |all| == |q|
  {
    if q == [] {
      assert all == {};
    } else {
      var last := q[|q| - 1];
      var rest := q[..|q| - 1];
      forall t
        ensures t in all - {last} <==> t in rest
      {
        if t in all && t != last {
          var i :| 0 <= i < |q| && q[i] == t;
          assert rest[i] == t;
        }
      }
      DistinctCount(rest, all - {last});
    }
  }

  lemma HandToWriterKeeps(r: State)
    requires r.runcount == 0 && ReadHolders(r) == 0 && WriteHolders(r) == 0 && |r.threads| <= INT_MAX
    requires Queues(r.readers, r, QueuedReader) && Queues(r.writers, r, QueuedWriter) && |r.writers| > 0
    ensures Invariant(HandOver(r))
  {
    var w := r.writers[0];
    CountMoves(r.threads, w, HandedWriter);
    QueuesStay(r.readers, r, w, QueuedReader, HandedWriter);
    QueuesShrink(r.writers, r, QueuedWriter, HandedWriter);
  }

  lemma HandToReadersCounts(r: State)
    requires Queues(r.readers, r, QueuedReader) && r.writers == [] && Count(r, HandedReader) == 0
    ensures
      var h := HandOver(r);
      && h.threads.Keys == r.threads.Keys
      && Count(h, HandedReader) == |r.readers| && Count(h, QueuedReader) == 0
      && forall x :: x != HandedReader && x != QueuedReader ==> Having(h.threads, x) == Having(r.threads, x)
  {
    var h := HandOver(r);
    assert Having(r.threads, HandedReader) == {};
    forall t
      ensures t in Having(h.threads, HandedReader) <==> t in r.readers
    {
      assert t !in Having(r.threads, HandedReader);
    }
    DistinctCount(r.readers, Having(h.threads, HandedReader));
    assert Having(h.threads, QueuedReader) == {};
    forall x | x != HandedReader && x != QueuedReader
      ensures Having(h.threads, x) == Having(r.threads, x)
    {
      forall t
        ensures t in Having(h.threads, x) <==> t in Having(r.threads, x)
      {
      }
    }
  }

  lemma HandToReadersKeeps(r: State)
    requires r.runcount == 0 && ReadHolders(r) == 0 && WriteHolders(r) == 0 && |r.threads| <= INT_MAX
    requires Queues(r.readers, r, QueuedReader) && Queues(r.writers, r, QueuedWriter) && r.writers == []
    ensures Invariant(HandOver(r)) && HandOver(r).runcount <= INT_MAX
  {
    HandToReadersCounts(r);
    var h := HandOver(r);
    assert Having(h.threads, QueuedWriter) == Having(r.threads, QueuedWriter);
    forall t | t in h.threads
      ensures h.threads[t] != QueuedReader && h.threads[t] != QueuedWriter
    {
      assert t !in Having(h.threads, QueuedReader);
      assert h.threads[t] == QueuedWriter ==> t in Having(r.threads, QueuedWriter);
    }
    SubsetSize(Having(h.threads, HandedReader), h.threads.Keys);
  }

  lemma UnlockKeeps(s: State, t: Thread)
    requires Invariant(s) && (Is(s, t, Reading) || Is(s, t, Writing))
    ensures Invariant(AfterUnlock(s, t))
  {
    ReleaseKeeps(s, t);
    var r := Release(s, t);
    if r.runcount == 0 {
      if |r.writers| > 0 {
        HandToWriterKeeps(r);
      } else {
        HandToReadersKeeps(r);
      }
    }
  }

  lemma StepKeeps(s: State, s': State, t: Thread, queued: bool)
    requires Invariant(s) && Step(s, s', t, queued)
    ensures Invariant(s')
  {
    if Is(s, t, Idle) {
      if s' == StartRead(s, t, queued) {
        StartReadKeeps(s, t, queued);
      } else {
        StartWriteKeeps(s, t, queued);
      }
    } else if Is(s, t, HandedReader) || Is(s, t, HandedWriter) {
      ResumeKeeps(s, t);
    } else if Is(s, t, Reading) || Is(s, t, Writing) {
      UnlockKeeps(s, t);
    } else {
      PollKeeps(s, t);
    }
  }

  ghost predicate Next(s: State, s': State) {
    exists t, queued :: Step(s, s', t, queued)
  }

  lemma NextKeeps(s: State, s': State)
    requires Invariant(s) && Next(s, s')
    ensures Invariant(s')
  {
    var t, queued :| Step(s, s', t, queued);
    StepKeeps(s, s', t, queued);
  }

  lemma InitialHolds(s: State)
    requires Initial(s)
    ensures Invariant(s)
  {
    forall x | x != Idle
      ensures Having(s.threads, x) == {}
    {
    }
  }

  /** A run: any number of steps by any threads, in any order, with or without failures to queue. */
  ghost predicate Run(run: seq<State>) {
    run != [] && Initial(run[0]) && forall i :: 0 < i < |run| ==> Next(run[i - 1], run[i])
  }

  lemma {:induction false} EveryRunKeepsInvariant(run: seq<State>, i: nat)
    requires Run(run) && i < |run|
    ensures Invariant(run[i])
  {
    if i == 0 {
      InitialHolds(run[0]);
    } else {
      EveryRunKeepsInvariant(run, i - 1);
      NextKeeps(run[i - 1], run[i]);
    }
  }

  /** Over every run, no thread that was handed the lock, and no thread that releases it, calls abort. */
  lemma NobodyAborts(run: seq<State>, i: nat, t: Thread)
    requires Run(run) && i < |run|
    ensures Is(run[i], t, HandedReader) || Is(run[i], t, HandedWriter) ==> !ResumeAborts(run[i], t)
    ensures Is(run[i], t, Reading) || Is(run[i], t, Writing) ==> !UnlockAborts(run[i])
  {
    EveryRunKeepsInvariant(run, i);
    if Is(run[i], t, HandedReader) || Is(run[i], t, HandedWriter) {
      ResumeKeeps(run[i], t);
    }
    if Is(run[i], t, Reading) || Is(run[i], t, Writing) {
      ReleaseKeeps(run[i], t);
    }
  }

  predicate HasLock(s: State, t: Thread) {
    Is(s, t, Reading) || Is(s, t, Writing) || Is(s, t, HandedReader) || Is(s, t, HandedWriter)
  }

  lemma OneOf(a: set<Thread>, b: set<Thread>, t: Thread, u: Thread)
    requires |a| + |b| <= 1 && t in a + b && u in a + b
    ensures t == u
  {
    UnionSize(a, b);
    if t != u {
      SubsetSize({t, u}, a + b);
    }
  }

  lemma UnionSize(a: set<Thread>, b: set<Thread>)
    ensures |a + b| <= |a| + |b|
  {
    SubsetSize(b - a, b);
    assert a + b == a + (b - a);
  }

  /** Over every run, a writer has the lock alone, counting those that have been handed it. */
  lemma WriterExcludesOthers(run: seq<State>, i: nat, t: Thread, u: Thread)
    requires Run(run) && i < |run| && (Is(run[i], t, Writing) || Is(run[i], t, HandedWriter)) && HasLock(run[i], u)
    ensures t == u
  {
    var s := run[i];
    EveryRunKeepsInvariant(run, i);
    Counted(s.threads, t);
    Counted(s.threads, u);
    OneOf(Having(s.threads, Writing), Having(s.threads, HandedWriter), t, u);
  }

  /** Over every run, a free lock has nobody queued. */
  lemma FreeLockHasNoQueue(run: seq<State>, i: nat, t: Thread)
    requires Run(run) && i < |run| && (forall u :: u in run[i].threads ==> !HasLock(run[i], u))
    ensures run[i].runcount == 0 && !Is(run[i], t, QueuedReader) && !Is(run[i], t, QueuedWriter)
  {
    var s := run[i];
    EveryRunKeepsInvariant(run, i);
    forall x | x in {Reading, Writing, HandedReader, HandedWriter}
      ensures Having(s.threads, x) == {}
    {
      assert forall u :: u in s.threads ==> s.threads[u] != x;
    }
    assert Having(s.threads, Reading) == {} && Having(s.threads, HandedReader) == {};
    assert Having(s.threads, Writing) == {} && Having(s.threads, HandedWriter) == {};
  }

  predicate Reads(s: State, t: Thread) {
    Is(s, t, Reading) || Is(s, t, HandedReader)
  }

  predicate Writes(s: State, t: Thread) {
    Is(s, t, Writing) || Is(s, t, HandedWriter)
  }

  /** A count is 0 if and only if no thread has the status. */
  lemma NobodyHas(s: State, x: Status)
    ensures Count(s, x) == 0 <==> forall t :: !Is(s, t, x)
  {
    Nobody(s.threads, x);
    assert forall t :: t in s.threads ==> (s.threads[t] == x <==> Is(s, t, x));
  }

  lemma NobodyHolds(s: State)
    ensures ReadHolders(s) == 0 <==> forall t :: !Reads(s, t)
    ensures WriteHolders(s) == 0 <==> forall t :: !Writes(s, t)
    ensures ReadHolders(s) == WriteHolders(s) == 0 <==> forall t :: !HasLock(s, t)
  {
    NobodyHas(s, Reading);
    NobodyHas(s, HandedReader);
    NobodyHas(s, Writing);
    NobodyHas(s, HandedWriter);
    if t :| Is(s, t, Reading) || Is(s, t, HandedReader) {
      assert Reads(s, t);
    }
    if t :| Is(s, t, Writing) || Is(s, t, HandedWriter) {
      assert Writes(s, t);
    }
    if t :| HasLock(s, t) {
      assert Reads(s, t) || Writes(s, t);
    }
    assert forall t :: Reads(s, t) || Writes(s, t) ==> HasLock(s, t);
  }

  /** unlock calls abort exactly if nobody holds the lock or was handed it. */
  lemma AbortsIfFree(s: State)
    requires Invariant(s)
    ensures UnlockAborts(s) <==> forall u :: !HasLock(s, u)
  {
    NobodyHolds(s);
  }

  lemma ReadersFit(s: State)
    ensures ReadHolders(s) <= |s.threads|
  {
    var a, b := Having(s.threads, Reading), Having(s.threads, HandedReader);
    assert a !! b;
    SubsetSize(a + b, s.threads.Keys);
  }

  /** Readers share the lock: rdlock and its polls get it unless someone writes or an int can count no more readers. */
  lemma ReaderTakes(s: State, t: Thread, queued: bool)
    requires Invariant(s)
    ensures
      var free := (forall u :: !Writes(s, u)) && ReadHolders(s) < INT_MAX;
      && (Is(s, t, Idle) ==>
            Is(StartRead(s, t, queued), t, if free then Reading else if queued then QueuedReader else PollingReader))
      && (Is(s, t, PollingReader) ==> Is(PollRead(s, t), t, if free then Reading else PollingReader))
  {
    NobodyHolds(s);
    ReadersFit(s);
  }

  /** wrlock and its polls get the lock unless someone reads or writes. */
  lemma WriterTakes(s: State, t: Thread, queued: bool)
    requires Invariant(s)
    ensures
      var free := forall u :: !HasLock(s, u);
      && (Is(s, t, Idle) ==>
            Is(StartWrite(s, t, queued), t, if free then Writing else if queued then QueuedWriter else PollingWriter))
      && (Is(s, t, PollingWriter) ==> Is(PollWrite(s, t), t, if free then Writing else PollingWriter))
  {
    NobodyHolds(s);
    assert s.runcount == 0 <==> forall u :: !HasLock(s, u);
  }

  /**
   * To whom unlock hands the lock: to nobody while others hold it; else to the first of the queued writers; else, when
   * there is none, to all queued readers.
   */
  ghost predicate Hands(s: State, s': State, t: Thread, u: Thread)
    requires u in s.threads
  {
    var last := forall v :: v != t ==> !HasLock(s, v);
    if last && Is(s, u, QueuedWriter) && [u] <= s.writers then Is(s', u, HandedWriter)
    else if last && Is(s, u, QueuedReader) && (forall v :: !Is(s, v, QueuedWriter)) then Is(s', u, HandedReader)
    else Is(s', u, s.threads[u])
  }

  /** The count is 0 when the last holder leaves. */
  lemma LastLeaves(s: State, t: Thread)
    requires Invariant(s) && (Is(s, t, Reading) || Is(s, t, Writing))
    ensures Release(s, t).runcount == 0 <==> forall v :: v != t ==> !HasLock(s, v)
  {
    var r := Release(s, t);
    ReleaseKeeps(s, t);
    NobodyHolds(r);
    assert forall v :: v != t ==> (HasLock(s, v) <==> HasLock(r, v));
    assert !HasLock(r, t);
  }

  lemma NobodyIsQueued(s: State)
    requires Invariant(s)
    ensures s.writers == [] <==> forall v :: !Is(s, v, QueuedWriter)
  {
    if s.writers != [] {
      assert Is(s, s.writers[0], QueuedWriter);
    }
  }

  lemma UnlockHands(s: State, t: Thread, u: Thread)
    requires Invariant(s) && (Is(s, t, Reading) || Is(s, t, Writing)) && u in s.threads && u != t
    ensures Is(AfterUnlock(s, t), t, Idle) && Hands(s, AfterUnlock(s, t), t, u)
  {
    LastLeaves(s, t);
    NobodyIsQueued(s);
  }

  /** A reader is handed the lock only when no writer is in the queue. */
  lemma ReadersAreHanded(s: State, s': State, t: Thread)
    requires Next(s, s') && Is(s', t, HandedReader) && !Is(s, t, HandedReader)
    ensures s.writers == []
  {
    var u, queued :| Step(s, s', u, queued);
  }

  /** Writers take priority, over every run: while one is queued the lock is not handed to readers. */
  lemma WritersGoFirst(run: seq<State>, i: nat, t: Thread, w: Thread)
    requires Run(run) && 0 < i < |run| && Is(run[i - 1], w, QueuedWriter)
    ensures Is(run[i], t, HandedReader) ==> Is(run[i - 1], t, HandedReader)
  {
    EveryRunKeepsInvariant(run, i - 1);
    NobodyIsQueued(run[i - 1]);
    if Is(run[i], t, HandedReader) && !Is(run[i - 1], t, HandedReader) {
      ReadersAreHanded(run[i - 1], run[i], t);
    }
  }

  /** v comes before w in a queue. */
  ghost predicate Before(q: seq<Thread>, v: Thread, w: Thread) {
    exists a, b :: 0 <= a < b < |q| && q[a] == v && q[b] == w
  }

  /** The queue of writers is first in, first out: who is handed the lock leaves at the front, others come behind. */
  ghost predicate QueueMoves(s: State, s': State, t: Thread) {
    || (s'.writers == s.writers && NoneHanded(s, s'))
    || (s'.writers == s.writers + [t] && Is(s, t, Idle) && NoneHanded(s, s'))
    || (s.writers != [] && s'.writers == s.writers[1..]
        && forall w :: Is(s', w, HandedWriter) && !Is(s, w, HandedWriter) ==> w == s.writers[0])
  }

  ghost predicate NoneHanded(s: State, s': State) {
    forall w :: Is(s', w, HandedWriter) ==> Is(s, w, HandedWriter)
  }

  lemma UnlockMoves(s: State, t: Thread)
    requires Is(s, t, Reading) || Is(s, t, Writing)
    ensures QueueMoves(s, AfterUnlock(s, t), t)
  {
    var r := Release(s, t);
    if r.runcount == 0 && |r.writers| == 0 {
      assert NoneHanded(s, HandOver(r));
    } else if r.runcount != 0 {
      assert NoneHanded(s, r);
    }
  }

  lemma WritersQueue(s: State, s': State, t: Thread, queued: bool)
    requires Step(s, s', t, queued)
    ensures QueueMoves(s, s', t)
  {
    if Is(s, t, Reading) || Is(s, t, Writing) {
      UnlockMoves(s, t);
    } else {
      assert NoneHanded(s, s');
    }
  }

  lemma StillBefore(q: seq<Thread>, q': seq<Thread>, v: Thread, w: Thread)
    requires (forall i, j :: 0 <= i < j < |q| ==> q[i] != q[j]) && v in q && v in q' && w in q' && v != w
    requires q' == q || (exists t :: q' == q + [t]) || (q != [] && q' == q[1..])
    requires w in q ==> Before(q, v, w)
    ensures Before(q', v, w)
  {
    var i :| 0 <= i < |q| && q[i] == v;
    if w in q {
      var a, b :| 0 <= a < b < |q| && q[a] == v && q[b] == w;
      if q != [] && q' == q[1..] {
        var c :| 0 <= c < |q'| && q'[c] == v;
        assert q[c + 1] == v;
        assert q'[a - 1] == v && q'[b - 1] == w;
      } else {
        assert q'[a] == v && q'[b] == w;
      }
    } else {
      var b :| 0 <= b < |q'| && q'[b] == w;
      assert b == |q|;
      assert q'[i] == v;
    }
  }

  lemma OrderStays(s: State, s': State, v: Thread, w: Thread)
    requires Invariant(s) && Next(s, s') && Invariant(s') && v != w && Is(s, v, QueuedWriter)
    requires Is(s', v, QueuedWriter) && Is(s', w, QueuedWriter)
    requires Is(s, w, QueuedWriter) ==> Before(s.writers, v, w)
    ensures Before(s'.writers, v, w)
  {
    var t, queued :| Step(s, s', t, queued);
    WritersQueue(s, s', t, queued);
    StillBefore(s.writers, s'.writers, v, w);
  }

  lemma FirstIsHanded(s: State, s': State, w: Thread)
    requires Invariant(s) && Next(s, s') && !Is(s, w, HandedWriter) && Is(s', w, HandedWriter)
    ensures s.writers != [] && w == s.writers[0]
  {
    var t, queued :| Step(s, s', t, queued);
    WritersQueue(s, s', t, queued);
  }

  lemma {:induction false} WaitsBefore(run: seq<State>, k: nat, i: nat, v: Thread, w: Thread)
    requires Run(run) && k <= i < |run| && (forall m :: k <= m <= i ==> Is(run[m], v, QueuedWriter))
    requires !Is(run[k], w, QueuedWriter) && Is(run[i], w, QueuedWriter)
    ensures Before(run[i].writers, v, w)
    decreases i
  {
    EveryRunKeepsInvariant(run, i - 1);
    EveryRunKeepsInvariant(run, i);
    if Is(run[i - 1], w, QueuedWriter) {
      WaitsBefore(run, k, i - 1, v, w);
    }
    OrderStays(run[i - 1], run[i], v, w);
  }

  /** Over every run, no writer is handed the lock before one that was queued when it was not queued yet. */
  lemma NoOvertaking(run: seq<State>, k: nat, i: nat, v: Thread, w: Thread)
    requires Run(run) && k < i < |run| && (forall m :: k <= m < i ==> Is(run[m], v, QueuedWriter))
    requires !Is(run[k], w, QueuedWriter) && Is(run[i - 1], w, QueuedWriter)
    ensures !Is(run[i], w, HandedWriter)
  {
    EveryRunKeepsInvariant(run, i - 1);
    WaitsBefore(run, k, i - 1, v, w);
    if Is(run[i], w, HandedWriter) {
      FirstIsHanded(run[i - 1], run[i], w);
    }
  }

  /** The lock's own fields; each method is what the code does inside the critical section. */
  class Lock {
    var runcount: int
    const waitingReaders: Queue
    const waitingWriters: Queue
    ghost var threads: map<Thread, Status>

    /** The two queues are well-formed and have nothing in common. */
    ghost predicate Shape()
      reads this, waitingReaders, waitingWriters, waitingReaders.array_, waitingWriters.array_
    {
      && waitingReaders != waitingWriters && waitingReaders.array_ != waitingWriters.array_
      && waitingReaders.Valid() && waitingWriters.Valid()
    }

    ghost predicate Valid()
      reads this, waitingReaders, waitingWriters, waitingReaders.array_, waitingWriters.array_
    {
      Shape() && Invariant(Value())
    }

    ghost function Value(): State
      requires waitingReaders.Valid() && waitingWriters.Valid()
      reads this, waitingReaders, waitingWriters, waitingReaders.array_, waitingWriters.array_
    {
      State(runcount, waitingReaders.Contents(), waitingWriters.Contents(), threads)
    }

    constructor (ghost all: set<Thread>)
      requires |all| <= INT_MAX
      ensures Valid() && Initial(Value()) && threads.Keys == all
    {
      runcount := 0;
      waitingReaders := new Queue();
      waitingWriters := new Queue();
      threads := map t | t in all :: Idle;
      new;
      assert threads.Keys == all;
      InitialHolds(Value());
    }

    /** rdlock up to the wait, if there has to be one; memory and created say whether the thread can be queued. */
    method RdLock(t: Thread, memory: bool, created: bool) returns (queued: bool)
      requires Valid() && Is(Value(), t, Idle)
      modifies this, waitingReaders, waitingReaders.array_
      ensures Valid() && Value() == StartRead(old(Value()), t, queued) && (memory && created ==> queued)
      ensures Next(old(Value()), Value())
      ensures Is(Value(), t, Reading) <==>
        (forall u :: !Writes(old(Value()), u)) && ReadHolders(old(Value())) < INT_MAX
    {
      ghost var s := Value();
      ReaderTakes(s, t, true);
      ReaderTakes(s, t, false);
      queued := TryRead(t, memory, created);
      StartReadKeeps(s, t, queued);
      assert Step(s, Value(), t, queued);
    }

    method TryRead(t: Thread, memory: bool, created: bool) returns (queued: bool)
      requires Shape() && Is(Value(), t, Idle)
      modifies this, waitingReaders, waitingReaders.array_
      ensures Shape() && Value() == StartRead(old(Value()), t, queued) && (memory && created ==> queued)
    {
      queued := memory && created;
      if !(runcount != INT_MAX && runcount + 1 > 0) {
        queued := waitingReaders.Add(t, memory, created);
        threads := threads[t := if queued then QueuedReader else PollingReader];
      } else {
        runcount := runcount + 1;
        threads := threads[t := Reading];
      }
    }

    method WrLock(t: Thread, memory: bool, created: bool) returns (queued: bool)
      requires Valid() && Is(Value(), t, Idle)
      modifies this, waitingWriters, waitingWriters.array_
      ensures Valid() && Value() == StartWrite(old(Value()), t, queued) && (memory && created ==> queued)
      ensures Next(old(Value()), Value())
      ensures Is(Value(), t, Writing) <==> forall u :: !HasLock(old(Value()), u)
    {
      ghost var s := Value();
      WriterTakes(s, t, true);
      WriterTakes(s, t, false);
      queued := TryWrite(t, memory, created);
      StartWriteKeeps(s, t, queued);
      assert Step(s, Value(), t, queued);
    }

    method TryWrite(t: Thread, memory: bool, created: bool) returns (queued: bool)
      requires Shape() && Is(Value(), t, Idle)
      modifies this, waitingWriters, waitingWriters.array_
      ensures Shape() && Value() == StartWrite(old(Value()), t, queued) && (memory && created ==> queued)
    {
      queued := memory && created;
      if !(runcount == 0) {
        queued := waitingWriters.Add(t, memory, created);
        threads := threads[t := if queued then QueuedWriter else PollingWriter];
      } else {
        runcount := runcount - 1;
        threads := threads[t := Writing];
      }
    }

    /** unlock. */
    method Unlock(t: Thread)
      requires Valid() && (Is(Value(), t, Reading) || Is(Value(), t, Writing))
      modifies this, waitingReaders, waitingWriters
      ensures Valid() && Value() == AfterUnlock(old(Value()), t) && Next(old(Value()), Value())
      ensures forall u :: u in old(threads) && u != t ==> Hands(old(Value()), Value(), t, u)
    {
      ghost var s := Value();
      forall u | u in threads && u != t
        ensures Hands(s, AfterUnlock(s, t), t, u)
      {
        UnlockHands(s, t, u);
      }
      UnlockKeeps(s, t);
      ReleaseKeeps(s, t);
      assert Step(s, AfterUnlock(s, t), t, true);
      Drop(t);
    }

    /** What unlock does to the fields; the asserted conditions are those it calls abort without. */
    method Drop(t: Thread)
      requires Shape() && t in threads && !UnlockAborts(Value())
      modifies this, waitingReaders, waitingWriters
      ensures Shape() && Value() == AfterUnlock(old(Value()), t)
    {
      if runcount < 0 {
        assert runcount == -1;
        runcount := 0;
      } else {
        assert runcount > 0;
        runcount := runcount - 1;
      }
      threads := threads[t := Idle];
      if runcount == 0 {
        HandOn();
      }
    }

    method HandOn()
      requires Shape() && runcount == 0
      modifies this, waitingReaders, waitingWriters
      ensures Shape() && Value() == HandOver(old(Value()))
    {
      if waitingWriters.count > 0 {
        runcount := runcount - 1;
        var first := waitingWriters.NotifyFirst();
        threads := threads[first := HandedWriter];
      } else {
        runcount := runcount + waitingReaders.count;
        var all := waitingReaders.NotifyAll();
        threads := map t | t in threads :: if t in all then HandedReader else threads[t];
      }
    }
  }
}
