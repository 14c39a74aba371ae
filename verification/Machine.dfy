/** worker_thread as a step machine: any number of threads, any interleaving, one semaphore. The machine does not depend
    on what the memory cell holds. */
module Machine {
  import opened Values

  /** What a thread is created with: its id, and the size and delay drawn for it. */
  datatype Job = Job(tid: nat, size: int, delay: int)

  /** Where a thread stands between two steps; `snapshot` is the memory it has read, `index` the partition it
      remembers. */
  datatype Phase<+M> =
    | Waiting
    | Entered
    | Decided(snapshot: M, index: int)
    | Recorded(index: int)
    | Resident(index: int)
    | Reentered(index: int)
    | Ready(snapshot: M, index: int)
    | Returned
    | Done

  datatype Thread<+M> = Thread(job: Job, phase: Phase<M>)

  datatype State<+M> = State(sem: nat, memory: M, threads: seq<Thread<M>>)

  /** How the memory cell is searched, debited and credited. */
  datatype Store<!M> = Store(
    search: (M, int) -> int,
    allocate: (M, int, Job) -> M,
    release: (M, int, Job) -> M)

  datatype Action = Spawn(job: Job) | Run(i: nat)

  predicate Live<M>(t: Thread<M>) {
    !t.phase.Done?
  }

  /** The system gives no two live threads the same id. */
  predicate FreshId<M>(threads: seq<Thread<M>>, tid: nat) {
    forall i :: 0 <= i < |threads| && Live(threads[i]) ==> threads[i].job.tid != tid
  }

  predicate Int32(n: int) {
    -0x8000_0000 <= n < 0x8000_0000
  }

  predicate ValidJob(job: Job) {
    1 <= job.size && Int32(job.size) && Int32(job.delay)
  }

  function Enter<M>(s: State<M>, i: nat, phase: Phase<M>): Option<State<M>>
    requires i < |s.threads|
  {
    if s.sem == 0 then None
    else Some(s.(sem := s.sem - 1, threads := s.threads[i := s.threads[i].(phase := phase)]))
  }

  function Move<M>(s: State<M>, i: nat, phase: Phase<M>): Option<State<M>>
    requires i < |s.threads|
  {
    Some(s.(threads := s.threads[i := s.threads[i].(phase := phase)]))
  }

  function Write<M>(s: State<M>, i: nat, memory: M, phase: Phase<M>): Option<State<M>>
    requires i < |s.threads|
  {
    Some(s.(memory := memory, threads := s.threads[i := s.threads[i].(phase := phase)]))
  }

  function Post<M>(s: State<M>, i: nat, phase: Phase<M>): Option<State<M>>
    requires i < |s.threads|
  {
    Some(s.(sem := s.sem + 1, threads := s.threads[i := s.threads[i].(phase := phase)]))
  }

  /** The next step of one thread, if it is not blocked on the semaphore or finished. */
  function Advance<M>(store: Store<M>, s: State<M>, i: nat): Option<State<M>>
    requires i < |s.threads|
  {
    var job := s.threads[i].job;
    match s.threads[i].phase
    case Waiting => Enter(s, i, Entered)
    case Entered => Move(s, i, Decided(s.memory, store.search(s.memory, job.size)))
    case Decided(snapshot, index) =>
      if index == -1 then Post(s, i, Done)
      else Write(s, i, store.allocate(snapshot, index, job), Recorded(index))
    case Recorded(index) => Post(s, i, Resident(index))
    case Resident(index) => Enter(s, i, Reentered(index))
    case Reentered(index) => Move(s, i, Ready(s.memory, index))
    case Ready(snapshot, index) => Write(s, i, store.release(snapshot, index, job), Returned)
    case Returned => Post(s, i, Done)
    case Done => None
  }

  function Step<M>(store: Store<M>, s: State<M>, a: Action): Option<State<M>> {
    match a
    case Spawn(job) =>
      if ValidJob(job) && FreshId(s.threads, job.tid) then Some(s.(threads := s.threads + [Thread(job, Waiting)]))
      else None
    case Run(i) => if i < |s.threads| then Advance(store, s, i) else None
  }

  function Initial<M>(memory: M): State<M> {
    State(1, memory, [])
  }

  /** The state after a whole run, if every action of it is possible. */
  function Exec<M>(store: Store<M>, s: State<M>, run: seq<Action>): Option<State<M>>
    decreases |run|
  {
    if run == [] then Some(s)
    else
      match Step(store, s, run[0])
      case None => None
      case Some(next) => Exec(store, next, run[1..])
  }

  /** A step of one thread moves that thread only. */
  lemma AdvanceMovesOne<M>(store: Store<M>, s: State<M>, i: nat)
    requires i < |s.threads| && Advance(store, s, i).Some?
    ensures var next := Advance(store, s, i).value;
      && Live(s.threads[i]) && |next.threads| == |s.threads| && next.threads[i].job == s.threads[i].job
      && forall j :: 0 <= j < |s.threads| && j != i ==> next.threads[j] == s.threads[j]
  {
  }

  // ---- Sums over threads ----

  function Sum<T>(ts: seq<T>, f: T -> int): int {
    if ts == [] then 0 else Sum(ts[..|ts| - 1], f) + f(ts[|ts| - 1])
  }

  lemma SumAppend<T>(ts: seq<T>, t: T, f: T -> int)
    ensures Sum(ts + [t], f) == Sum(ts, f) + f(t)
  {
  }

  lemma {:induction false} SumUpdate<T>(ts: seq<T>, i: nat, t: T, f: T -> int)
    requires i < |ts|
    ensures Sum(ts[i := t], f) == Sum(ts, f) - f(ts[i]) + f(t)
  {
    var last := |ts| - 1;
    if i == last {
      assert ts[i := t][..last] == ts[..last];
    } else {
      assert ts[i := t][..last] == ts[..last][i := t];
      SumUpdate(ts[..last], i, t, f);
    }
  }

  lemma {:induction false} SumAtLeast<T>(ts: seq<T>, f: T -> int)
    requires forall i :: 0 <= i < |ts| ==> f(ts[i]) >= 0
    ensures Sum(ts, f) >= 0
    ensures forall i :: 0 <= i < |ts| ==> f(ts[i]) <= Sum(ts, f)
  {
    if ts == [] {
    } else {
      SumAtLeast(ts[..|ts| - 1], f);
      assert forall i :: 0 <= i < |ts| - 1 ==> ts[i] == ts[..|ts| - 1][i];
    }
  }

  lemma {:induction false} SumOfTwo<T>(ts: seq<T>, f: T -> int, i: nat, j: nat)
    requires forall k :: 0 <= k < |ts| ==> f(ts[k]) >= 0
    requires i < j < |ts|
    ensures f(ts[i]) + f(ts[j]) <= Sum(ts, f)
  {
    var rest := ts[..|ts| - 1];
    if j == |ts| - 1 {
      SumAtLeast(rest, f);
      assert ts[i] == rest[i];
    } else {
      SumOfTwo(rest, f, i, j);
      assert ts[i] == rest[i] && ts[j] == rest[j];
    }
  }

  lemma {:induction false} SomePositive<T>(ts: seq<T>, f: T -> int) returns (i: nat)
    requires Sum(ts, f) > 0
    ensures i < |ts| && f(ts[i]) > 0
  {
    if f(ts[|ts| - 1]) > 0 {
      i := |ts| - 1;
    } else {
      i := SomePositive(ts[..|ts| - 1], f);
    }
  }

  // ---- Mutual exclusion ----

  /** A thread between sem_wait and sem_post. */
  function Holding<M>(t: Thread<M>): int {
    match t.phase
    case Waiting => 0
    case Resident(_) => 0
    case Done => 0
    case _ => 1
  }

  /** The semaphore and its holders always make one. */
  ghost predicate Mutex<M>(s: State<M>) {
    s.sem + Sum(s.threads, Holding) == 1
  }

  lemma StepKeepsMutex<M>(store: Store<M>, s: State<M>, a: Action)
    requires Mutex(s) && Step(store, s, a).Some?
    ensures Mutex(Step(store, s, a).value)
  {
    match a
    case Spawn(job) => SumAppend(s.threads, Thread(job, Waiting), Holding);
    case Run(i) => SumUpdate(s.threads, i, Step(store, s, a).value.threads[i], Holding);
  }

  /** No two threads are between sem_wait and sem_post at once. */
  lemma OneHolder<M>(s: State<M>, i: nat, j: nat)
    requires Mutex(s) && i < |s.threads| && j < |s.threads|
    requires Holding(s.threads[i]) == 1 && Holding(s.threads[j]) == 1
    ensures i == j && s.sem == 0
  {
    SumAtLeast(s.threads, Holding);
    if i < j {
      SumOfTwo(s.threads, Holding, i, j);
    } else if j < i {
      SumOfTwo(s.threads, Holding, j, i);
    }
  }

  /** What a thread has read is what the memory holds until it leaves the critical section. */
  ghost predicate Current<M>(s: State<M>) {
    forall i :: 0 <= i < |s.threads| ==>
      (s.threads[i].phase.Decided? ==> s.threads[i].phase.snapshot == s.memory)
      && (s.threads[i].phase.Ready? ==> s.threads[i].phase.snapshot == s.memory)
  }

  lemma StepKeepsCurrent<M>(store: Store<M>, s: State<M>, a: Action)
    requires Mutex(s) && Current(s) && Step(store, s, a).Some?
    ensures Current(Step(store, s, a).value)
  {
    if a.Run? {
      var next := Step(store, s, a).value;
      forall j | 0 <= j < |s.threads| && j != a.i && Holding(s.threads[j]) == 1
        ensures next.memory == s.memory
      {
        if Holding(s.threads[a.i]) == 1 {
          OneHolder(s, a.i, j);
        }
      }
    }
  }

  /** Live threads have different ids. */
  ghost predicate DistinctIds<M>(s: State<M>) {
    forall i, j :: 0 <= i < j < |s.threads| && Live(s.threads[i]) && Live(s.threads[j]) ==>
      s.threads[i].job.tid != s.threads[j].job.tid
  }

  lemma StepKeepsIds<M>(store: Store<M>, s: State<M>, a: Action)
    requires DistinctIds(s) && Step(store, s, a).Some?
    ensures DistinctIds(Step(store, s, a).value)
  {
    hide Advance, Live;
    if a.Run? {
      AdvanceMovesOne(store, s, a.i);
    }
  }

  // ---- Progress ----

  /** Steps a thread still has to make. */
  function Left<M>(t: Thread<M>): int {
    match t.phase
    case Waiting => 8
    case Entered => 7
    case Decided(_, _) => 6
    case Recorded(_) => 5
    case Resident(_) => 4
    case Reentered(_) => 3
    case Ready(_, _) => 2
    case Returned => 1
    case Done => 0
  }

  /** While some thread is unfinished, some thread can step. */
  lemma NoDeadlock<M>(store: Store<M>, s: State<M>, i: nat) returns (j: nat)
    requires Mutex(s) && i < |s.threads| && Live(s.threads[i])
    ensures j < |s.threads| && Advance(store, s, j).Some?
  {
    if s.sem > 0 {
      j := i;
    } else {
      j := SomePositive(s.threads, Holding);
    }
  }

  /** So a run that cannot be continued, except by creating threads, has finished every thread. */
  lemma StuckIsFinished<M>(store: Store<M>, s: State<M>)
    requires Mutex(s)
    requires forall j :: 0 <= j < |s.threads| ==> Advance(store, s, j).None?
    ensures forall i :: 0 <= i < |s.threads| ==> s.threads[i].phase.Done?
  {
    if i :| 0 <= i < |s.threads| && Live(s.threads[i]) {
      var j := NoDeadlock(store, s, i);
    }
  }

  lemma RunDecreases<M>(store: Store<M>, s: State<M>, i: nat)
    requires i < |s.threads| && Advance(store, s, i).Some?
    ensures Sum(Advance(store, s, i).value.threads, Left) < Sum(s.threads, Left)
  {
    SumUpdate(s.threads, i, Advance(store, s, i).value.threads[i], Left);
  }

  function Spawns(run: seq<Action>): nat {
    if run == [] then 0 else (if run[0].Spawn? then 1 else 0) + Spawns(run[1..])
  }

  /** A run in which `n` threads are created has at most `8 * n` other steps. */
  lemma {:induction false} RunsEnd<M>(store: Store<M>, s: State<M>, run: seq<Action>)
    requires Exec(store, s, run).Some?
    ensures |run| - Spawns(run) <= Sum(s.threads, Left) + 8 * Spawns(run)
    decreases |run|
  {
    SumAtLeast(s.threads, Left);
    if run == [] {
    } else {
      var next := Step(store, s, run[0]).value;
      RunsEnd(store, next, run[1..]);
      match run[0]
      case Spawn(job) => SumAppend(s.threads, Thread(job, Waiting), Left);
      case Run(i) => RunDecreases(store, s, i);
    }
  }
}
