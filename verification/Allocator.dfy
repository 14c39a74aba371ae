/** The memory as a list of partitions, and what every run of the allocator keeps. */
module Allocator {
  import opened CText
  import opened Numbers
  import opened Values
  import opened Tables
  import opened FitPolicies
  import opened Machine

  /** One element of the memory array: its size, its free space, and its resident processes by thread id. */
  datatype Partition = Partition(size: int, free: int, processes: seq<Member<Job>>)

  type Memory = seq<Partition>

  function Free(m: Memory): (free: seq<int>)
    ensures |free| == |m| && forall p :: 0 <= p < |m| ==> free[p] == m[p].free
  {
    seq(|m|, p requires 0 <= p < |m| => m[p].free)
  }

  /** json_object_set_value on an object that the parser has just trimmed; a failing call changes nothing. */
  function Enlist(ms: seq<Member<Job>>, job: Job): seq<Member<Job>> {
    match Put(Table(ms, |ms|), Digits(job.tid), job)
    case None => ms
    case Some(t) => t.members
  }

  /** json_object_dotremove of "processes.<id>" */
  function Delist(ms: seq<Member<Job>>, tid: nat): seq<Member<Job>> {
    match Remove(Table(ms, |ms|), Digits(tid))
    case None => ms
    case Some(t) => t.members
  }

  function Allocate(m: Memory, index: int, job: Job): Memory {
    if 0 <= index < |m| then
      m[index := m[index].(free := m[index].free - job.size, processes := Enlist(m[index].processes, job))]
    else m
  }

  function Release(m: Memory, index: int, job: Job): Memory {
    if 0 <= index < |m| then
      m[index := m[index].(free := m[index].free + job.size, processes := Delist(m[index].processes, job.tid))]
    else m
  }

  function Partitions(policy: Policy): Store<Memory> {
    Store((m: Memory, size: int) => Search(Free(m), size, policy), Allocate, Release)
  }

  // ---- Conservation ----

  /** The partition that a thread has debited and not yet credited. */
  function Home<M>(t: Thread<M>): Option<int> {
    match t.phase
    case Recorded(index) => Some(index)
    case Resident(index) => Some(index)
    case Reentered(index) => Some(index)
    case Ready(_, index) => Some(index)
    case _ => None
  }

  predicate Occupies(t: Thread<Memory>, p: int) {
    Home(t) == Some(p)
  }

  function Load(p: int): Thread<Memory> -> int {
    (t: Thread<Memory>) => if Occupies(t, p) then t.job.size else 0
  }

  /** Remembered indices are partitions, and a chosen partition still has the space. */
  ghost predicate Placed(s: State<Memory>) {
    forall i :: 0 <= i < |s.threads| ==> PlacedThread(s.memory, s.threads[i])
  }

  predicate PlacedThread(m: Memory, t: Thread<Memory>) {
    && ValidJob(t.job)
    && (Home(t).Some? ==> 0 <= Home(t).value < |m|)
    && (t.phase.Decided? && t.phase.index != -1 ==>
          0 <= t.phase.index < |m| && t.job.size <= m[t.phase.index].free)
  }

  ghost predicate SameShape(m: Memory, n: Memory) {
    |m| == |n| && forall p :: 0 <= p < |m| ==> m[p].size == n[p].size
  }

  /** In each partition, free space and the sizes of its residents make its size. */
  ghost predicate Balanced(s: State<Memory>) {
    forall p :: 0 <= p < |s.memory| ==> BalancedAt(s.memory[p], s.threads, p)
  }

  ghost predicate BalancedAt(part: Partition, threads: seq<Thread<Memory>>, p: int) {
    0 <= part.free <= part.size && part.free + Sum(threads, Load(p)) == part.size
  }

  lemma SearchPlaces(policy: Policy, m: Memory, size: int)
    ensures var index := Partitions(policy).search(m, size);
      index == -1 || (0 <= index < |m| && size <= m[index].free)
  {
  }

  lemma StepKeepsPlaced(policy: Policy, s: State<Memory>, a: Action)
    requires Mutex(s) && Current(s) && Placed(s) && Step(Partitions(policy), s, a).Some?
    ensures Placed(Step(Partitions(policy), s, a).value)
    ensures SameShape(s.memory, Step(Partitions(policy), s, a).value.memory)
  {
    hide Enlist, Delist, Search, Mutex;
    var next := Step(Partitions(policy), s, a).value;
    if a.Run? {
      SearchPlaces(policy, s.memory, s.threads[a.i].job.size);
      AdvanceMovesOne(Partitions(policy), s, a.i);
      forall j | 0 <= j < |s.threads| && j != a.i
        ensures PlacedThread(next.memory, s.threads[j])
      {
        if s.threads[j].phase.Decided? && Holding(s.threads[a.i]) == 1 {
          OneHolder(s, a.i, j);
        }
      }
    }
  }

  lemma LoadsNonNegative(s: State<Memory>, p: int)
    requires Placed(s)
    ensures Sum(s.threads, Load(p)) >= 0
    ensures forall i :: 0 <= i < |s.threads| ==> Load(p)(s.threads[i]) <= Sum(s.threads, Load(p))
  {
    SumAtLeast(s.threads, Load(p));
  }

  lemma AdvanceKeepsBalanced(policy: Policy, s: State<Memory>, i: nat, p: int)
    requires Current(s) && Placed(s) && i < |s.threads| && Advance(Partitions(policy), s, i).Some?
    requires 0 <= p < |s.memory| && BalancedAt(s.memory[p], s.threads, p)
    ensures var next := Advance(Partitions(policy), s, i).value;
      p < |next.memory| && BalancedAt(next.memory[p], next.threads, p)
  {
    hide Enlist, Delist, Search, Chosen;
    LoadsNonNegative(s, p);
    assert PlacedThread(s.memory, s.threads[i]);
    SumUpdate(s.threads, i, Advance(Partitions(policy), s, i).value.threads[i], Load(p));
  }

  lemma StepKeepsBalanced(policy: Policy, s: State<Memory>, a: Action)
    requires Current(s) && Placed(s) && Balanced(s) && Step(Partitions(policy), s, a).Some?
    requires SameShape(s.memory, Step(Partitions(policy), s, a).value.memory)
    ensures Balanced(Step(Partitions(policy), s, a).value)
  {
    var next := Step(Partitions(policy), s, a).value;
    hide Advance;
    forall p | 0 <= p < |next.memory|
      ensures BalancedAt(next.memory[p], next.threads, p)
    {
      match a
      case Spawn(job) => SumAppend(s.threads, Thread(job, Waiting), Load(p));
      case Run(i) => AdvanceKeepsBalanced(policy, s, i, p);
    }
  }

  // ---- Entries and residents ----

  function EntryOf(job: Job): Member<Job> {
    Member(Digits(job.tid), job)
  }

  function EntrySize(m: Member<Job>): int {
    m.value.size
  }

  ghost predicate HasResident(threads: seq<Thread<Memory>>, p: int, job: Job) {
    exists i :: 0 <= i < |threads| && Occupies(threads[i], p) && threads[i].job == job
  }

  /** Up to this size a partition cannot have more residents than json_object_set_value can list. */
  const LISTABLE_SIZE: int := 481

  /** No entry of partition `p` is without a thread that occupies it. */
  ghost predicate BackedAt(ms: seq<Member<Job>>, threads: seq<Thread<Memory>>, p: int) {
    && UniqueNames(ms) && |ms| <= LISTABLE_SIZE
    && forall k :: 0 <= k < |ms| ==> ms[k] == EntryOf(ms[k].value) && HasResident(threads, p, ms[k].value)
  }

  ghost predicate Backed(s: State<Memory>) {
    forall p :: 0 <= p < |s.memory| ==> BackedAt(s.memory[p].processes, s.threads, p)
  }

  /** The entries of partition `p` are, one to one, the jobs of the threads that occupy it. */
  ghost predicate ListedAt(ms: seq<Member<Job>>, threads: seq<Thread<Memory>>, p: int) {
    && BackedAt(ms, threads, p)
    && (forall i :: 0 <= i < |threads| && Occupies(threads[i], p) ==> EntryOf(threads[i].job) in ms)
    && Sum(ms, EntrySize) == Sum(threads, Load(p))
  }

  ghost predicate Listed(s: State<Memory>) {
    forall p :: 0 <= p < |s.memory| ==> ListedAt(s.memory[p].processes, s.threads, p)
  }

  // Steps that do not move a thread into or out of the partition.

  lemma BackedElsewhere(ms: seq<Member<Job>>, threads: seq<Thread<Memory>>, p: int, i: nat, t: Thread<Memory>)
    requires BackedAt(ms, threads, p) && i < |threads|
    requires t.job == threads[i].job && (Occupies(t, p) <==> Occupies(threads[i], p))
    ensures BackedAt(ms, threads[i := t], p)
  {
    var after := threads[i := t];
    forall k | 0 <= k < |ms|
      ensures HasResident(after, p, ms[k].value)
    {
      assert HasResident(threads, p, ms[k].value);
      var j :| 0 <= j < |threads| && Occupies(threads[j], p) && threads[j].job == ms[k].value;
      assert Occupies(after[j], p) && after[j].job == ms[k].value;
    }
  }

  lemma ListedElsewhere(ms: seq<Member<Job>>, threads: seq<Thread<Memory>>, p: int, i: nat, t: Thread<Memory>)
    requires ListedAt(ms, threads, p) && i < |threads|
    requires t.job == threads[i].job && (Occupies(t, p) <==> Occupies(threads[i], p))
    ensures ListedAt(ms, threads[i := t], p)
  {
    hide BackedAt;
    BackedElsewhere(ms, threads, p, i, t);
    SumUpdate(threads, i, t, Load(p));
  }

  lemma BackedSpawn(ms: seq<Member<Job>>, threads: seq<Thread<Memory>>, p: int, job: Job)
    requires BackedAt(ms, threads, p)
    ensures BackedAt(ms, threads + [Thread(job, Waiting)], p)
  {
    var after := threads + [Thread(job, Waiting)];
    forall k | 0 <= k < |ms|
      ensures HasResident(after, p, ms[k].value)
    {
      assert HasResident(threads, p, ms[k].value);
      var j :| 0 <= j < |threads| && Occupies(threads[j], p) && threads[j].job == ms[k].value;
      assert Occupies(after[j], p) && after[j].job == ms[k].value;
    }
  }

  lemma ListedSpawn(ms: seq<Member<Job>>, threads: seq<Thread<Memory>>, p: int, job: Job)
    requires ListedAt(ms, threads, p)
    ensures ListedAt(ms, threads + [Thread(job, Waiting)], p)
  {
    hide BackedAt;
    BackedSpawn(ms, threads, p, job);
    SumAppend(threads, Thread(job, Waiting), Load(p));
  }

  lemma DigitsInjective(m: nat, n: nat)
    requires Digits(m) == Digits(n)
    ensures m == n
  {
    DecimalInjective(m, n);
  }

  /** The id of a thread that does not occupy the partition is not among its entries. */
  lemma IdIsNew(s: State<Memory>, p: int, i: nat)
    requires DistinctIds(s) && 0 <= p < |s.memory| && BackedAt(s.memory[p].processes, s.threads, p)
    requires i < |s.threads| && Live(s.threads[i]) && !Occupies(s.threads[i], p)
    ensures Digits(s.threads[i].job.tid) !in Names(s.memory[p].processes)
  {
    var ms := s.memory[p].processes;
    forall k | 0 <= k < |ms|
      ensures ms[k].name != Digits(s.threads[i].job.tid)
    {
      assert HasResident(s.threads, p, ms[k].value);
      var j :| 0 <= j < |s.threads| && Occupies(s.threads[j], p) && s.threads[j].job == ms[k].value;
      if ms[k].name == Digits(s.threads[i].job.tid) {
        DigitsInjective(ms[k].value.tid, s.threads[i].job.tid);
        assert i != j && Live(s.threads[j]);
      }
    }
  }

  /** A full object takes no new entry: the thread moves in all the same, unlisted. */
  lemma EnlistNew(ms: seq<Member<Job>>, job: Job)
    requires UniqueNames(ms) && Digits(job.tid) !in Names(ms)
    ensures Enlist(ms, job) == if |ms| < LISTABLE_SIZE then ms + [EntryOf(job)] else ms
    ensures UniqueNames(Enlist(ms, job))
  {
  }

  /** Allocation enters the thread, or nothing, in the partition it moves into. */
  lemma BackedEntry(ms: seq<Member<Job>>, threads: seq<Thread<Memory>>, p: int, i: nat, t: Thread<Memory>)
    requires BackedAt(ms, threads, p) && i < |threads|
    requires t.job == threads[i].job && Occupies(t, p) && !Occupies(threads[i], p)
    requires Digits(t.job.tid) !in Names(ms)
    ensures BackedAt(Enlist(ms, t.job), threads[i := t], p)
  {
    var more, after := Enlist(ms, t.job), threads[i := t];
    EnlistNew(ms, t.job);
    hide Enlist;
    forall k | 0 <= k < |more|
      ensures more[k] == EntryOf(more[k].value) && HasResident(after, p, more[k].value)
    {
      if k < |ms| {
        assert HasResident(threads, p, ms[k].value);
        var j :| 0 <= j < |threads| && Occupies(threads[j], p) && threads[j].job == ms[k].value;
        assert Occupies(after[j], p) && after[j].job == more[k].value;
      } else {
        assert Occupies(after[i], p) && after[i].job == more[k].value;
      }
    }
  }

  /** With a free place it lists the thread, and no other. */
  lemma ListedEntry(ms: seq<Member<Job>>, threads: seq<Thread<Memory>>, p: int, i: nat, t: Thread<Memory>)
    requires ListedAt(ms, threads, p) && i < |threads|
    requires t.job == threads[i].job && Occupies(t, p) && !Occupies(threads[i], p)
    requires Digits(t.job.tid) !in Names(ms) && |ms| < LISTABLE_SIZE
    ensures ListedAt(Enlist(ms, t.job), threads[i := t], p)
  {
    var more, after := Enlist(ms, t.job), threads[i := t];
    BackedEntry(ms, threads, p, i, t);
    EnlistNew(ms, t.job);
    hide Enlist, HasResident;
    SumUpdate(threads, i, t, Load(p));
    SumAppend(ms, EntryOf(t.job), EntrySize);
    forall j | 0 <= j < |after| && Occupies(after[j], p)
      ensures EntryOf(after[j].job) in more
    {
      if j == i {
        assert more[|ms|] == EntryOf(after[j].job);
      } else {
        assert EntryOf(threads[j].job) in ms;
      }
    }
  }

  /** Only the entry with the id goes, if there is one. */
  lemma DelistMoves(ms: seq<Member<Job>>, tid: nat)
    requires UniqueNames(ms) && |ms| <= OBJECT_MAX_CAPACITY
    ensures UniqueNames(Delist(ms, tid)) && |Delist(ms, tid)| <= |ms|
    ensures forall m :: m in Delist(ms, tid) <==> m in ms && m.name != Digits(tid)
  {
    var t := Table(ms, |ms|);
    if Remove(t, Digits(tid)).Some? {
      RemoveMoves(t, Digits(tid));
    }
  }

  lemma IndexOfEntry(ms: seq<Member<Job>>, job: Job)
    requires UniqueNames(ms) && EntryOf(job) in ms
    ensures IndexOf(ms, Digits(job.tid)) < |ms| && ms[IndexOf(ms, Digits(job.tid))] == EntryOf(job)
  {
    var k :| 0 <= k < |ms| && ms[k] == EntryOf(job);
  }

  lemma DelistSum(ms: seq<Member<Job>>, tid: nat)
    requires IndexOf(ms, Digits(tid)) < |ms|
    ensures Sum(Delist(ms, tid), EntrySize) == Sum(ms, EntrySize) - ms[IndexOf(ms, Digits(tid))].value.size
  {
    hide Digits, IndexOf, Names;
    var i, last := IndexOf(ms, Digits(tid)), |ms| - 1;
    assert ms == ms[..last] + [ms[last]];
    SumAppend(ms[..last], ms[last], EntrySize);
    if i < last {
      SumUpdate(ms[..last], i, ms[last], EntrySize);
    }
  }

  /** The return step leaves no entry of the thread behind, listed or not. */
  lemma BackedExit(ms: seq<Member<Job>>, threads: seq<Thread<Memory>>, p: int, i: nat, t: Thread<Memory>)
    requires BackedAt(ms, threads, p) && i < |threads| && t.job == threads[i].job
    ensures BackedAt(Delist(ms, t.job.tid), threads[i := t], p)
  {
    var less, after := Delist(ms, t.job.tid), threads[i := t];
    DelistMoves(ms, t.job.tid);
    hide Delist;
    forall k | 0 <= k < |less|
      ensures less[k] == EntryOf(less[k].value) && HasResident(after, p, less[k].value)
    {
      assert less[k] in ms;
      assert HasResident(threads, p, less[k].value);
      var j :| 0 <= j < |threads| && Occupies(threads[j], p) && threads[j].job == less[k].value;
      assert Occupies(after[j], p) && after[j].job == less[k].value;
    }
  }

  /** It removes the entry of a listed thread, and no other. */
  lemma ListedExit(ms: seq<Member<Job>>, threads: seq<Thread<Memory>>, p: int, i: nat, t: Thread<Memory>)
    requires ListedAt(ms, threads, p) && i < |threads|
    requires t.job == threads[i].job && !Occupies(t, p) && Occupies(threads[i], p)
    requires forall j :: 0 <= j < |threads| && j != i && Occupies(threads[j], p) ==> threads[j].job.tid != t.job.tid
    ensures ListedAt(Delist(ms, t.job.tid), threads[i := t], p)
  {
    var less, after := Delist(ms, t.job.tid), threads[i := t];
    BackedExit(ms, threads, p, i, t);
    DelistMoves(ms, t.job.tid);
    IndexOfEntry(ms, t.job);
    DelistSum(ms, t.job.tid);
    SumUpdate(threads, i, t, Load(p));
    hide Delist, IndexOf, HasResident;
    forall j | 0 <= j < |after| && Occupies(after[j], p)
      ensures EntryOf(after[j].job) in less
    {
      assert EntryOf(threads[j].job) in ms;
      if Digits(threads[j].job.tid) == Digits(t.job.tid) {
        DigitsInjective(threads[j].job.tid, t.job.tid);
      }
    }
  }

  // ---- Decisions ----

  /** The index on which a thread has decided is the one that the policy promises for its size, in the memory as it is:
      no other thread has touched the memory since. */
  ghost predicate Fitting(policy: Policy, s: State<Memory>) {
    forall i :: 0 <= i < |s.threads| && s.threads[i].phase.Decided? ==>
      Chosen(Free(s.memory), s.threads[i].job.size, policy, s.threads[i].phase.index)
  }

  lemma StepKeepsFitting(policy: Policy, s: State<Memory>, a: Action)
    requires Mutex(s) && Fitting(policy, s) && Step(Partitions(policy), s, a).Some?
    ensures Fitting(policy, Step(Partitions(policy), s, a).value)
  {
    hide Enlist, Delist, Search, Chosen, Mutex, Free;
    var next := Step(Partitions(policy), s, a).value;
    if a.Run? {
      SearchChooses(policy, s.memory, s.threads[a.i].job.size);
      AdvanceMovesOne(Partitions(policy), s, a.i);
      forall j | 0 <= j < |s.threads| && j != a.i && s.threads[j].phase.Decided?
        ensures next.memory == s.memory
      {
        if Holding(s.threads[a.i]) == 1 {
          OneHolder(s, a.i, j);
        }
      }
    }
  }

  lemma SearchChooses(policy: Policy, m: Memory, size: int)
    ensures Chosen(Free(m), size, policy, Partitions(policy).search(m, size))
  {
  }

  /** A thread that has decided leaves without a partition exactly when every partition has less free space than its
      size; otherwise it is entered where the policy promises. */
  lemma AdmittedExactly(policy: Policy, s: State<Memory>, i: nat)
    requires Safe(policy, s) && i < |s.threads| && s.threads[i].phase.Decided?
    ensures Advance(Partitions(policy), s, i).Some?
    ensures var next, size := Advance(Partitions(policy), s, i).value, s.threads[i].job.size;
      && (next.threads[i].phase.Done? <==> forall p :: 0 <= p < |s.memory| ==> s.memory[p].free < size)
      && (next.threads[i].phase.Done? ==> next.memory == s.memory)
      && (!next.threads[i].phase.Done? ==>
            && next.threads[i].phase.Recorded?
            && var p := next.threads[i].phase.index;
               Chosen(Free(s.memory), size, policy, p) && next.memory[p].free == s.memory[p].free - size)
  {
    hide Enlist, Search, Mutex, Balanced, Backed, DistinctIds;
    var free, index := Free(s.memory), s.threads[i].phase.index;
    assert PlacedThread(s.memory, s.threads[i]);
    assert Chosen(free, s.threads[i].job.size, policy, index);
    if index == -1 {
      forall p | 0 <= p < |s.memory|
        ensures s.memory[p].free < s.threads[i].job.size
      {
        assert free[p] < s.threads[i].job.size;
      }
    }
  }

  // ---- Every step ----

  /** What holds between any two steps. */
  ghost predicate Safe(policy: Policy, s: State<Memory>) {
    Mutex(s) && Current(s) && DistinctIds(s) && Placed(s) && Balanced(s) && Backed(s) && Fitting(policy, s)
  }

  lemma AdvanceKeepsBacked(policy: Policy, s: State<Memory>, i: nat, p: int)
    requires Safe(policy, s) && i < |s.threads| && Advance(Partitions(policy), s, i).Some? && 0 <= p < |s.memory|
    ensures var next := Advance(Partitions(policy), s, i).value;
      p < |next.memory| && BackedAt(next.memory[p].processes, next.threads, p)
  {
    hide Enlist, Delist, BackedAt, Search, Mutex, Balanced;
    var next, t := Advance(Partitions(policy), s, i).value, s.threads[i];
    var ms := s.memory[p].processes;
    assert PlacedThread(s.memory, t);
    if t.phase.Decided? && t.phase.index == p {
      IdIsNew(s, p, i);
      BackedEntry(ms, s.threads, p, i, next.threads[i]);
    } else if t.phase.Ready? && t.phase.index == p {
      BackedExit(ms, s.threads, p, i, next.threads[i]);
    } else {
      BackedElsewhere(ms, s.threads, p, i, next.threads[i]);
    }
  }

  lemma StepKeepsBacked(policy: Policy, s: State<Memory>, a: Action)
    requires Safe(policy, s) && Step(Partitions(policy), s, a).Some?
    requires SameShape(s.memory, Step(Partitions(policy), s, a).value.memory)
    ensures Backed(Step(Partitions(policy), s, a).value)
  {
    hide Advance, BackedAt, Mutex, Current, Placed, Balanced;
    var next := Step(Partitions(policy), s, a).value;
    forall p | 0 <= p < |next.memory|
      ensures BackedAt(next.memory[p].processes, next.threads, p)
    {
      match a
      case Spawn(job) => BackedSpawn(s.memory[p].processes, s.threads, p, job);
      case Run(i) => AdvanceKeepsBacked(policy, s, i, p);
    }
  }

  lemma StepIsSafe(policy: Policy, s: State<Memory>, a: Action)
    requires Safe(policy, s) && Step(Partitions(policy), s, a).Some?
    ensures var next := Step(Partitions(policy), s, a).value; Safe(policy, next) && SameShape(s.memory, next.memory)
  {
    hide Step, Mutex, Current, DistinctIds, Placed, Balanced, Backed, Fitting, SameShape;
    StepKeepsMutex(Partitions(policy), s, a);
    StepKeepsCurrent(Partitions(policy), s, a);
    StepKeepsIds(Partitions(policy), s, a);
    StepKeepsPlaced(policy, s, a);
    StepKeepsBalanced(policy, s, a);
    StepKeepsBacked(policy, s, a);
    StepKeepsFitting(policy, s, a);
  }

  lemma {:induction false} EntriesAtMostSizes(ms: seq<Member<Job>>)
    requires forall k :: 0 <= k < |ms| ==> ms[k].value.size >= 1
    ensures |ms| <= Sum(ms, EntrySize)
  {
    if ms == [] {
    } else {
      EntriesAtMostSizes(ms[..|ms| - 1]);
    }
  }

  /** Residents have size at least one, so, where all are listed, they are no more than the space they take. */
  lemma EntriesBounded(s: State<Memory>, p: int)
    requires Placed(s) && Balanced(s) && 0 <= p < |s.memory| && ListedAt(s.memory[p].processes, s.threads, p)
    ensures |s.memory[p].processes| <= s.memory[p].size - s.memory[p].free
  {
    var ms := s.memory[p].processes;
    assert BalancedAt(s.memory[p], s.threads, p);
    forall k | 0 <= k < |ms|
      ensures ms[k].value.size >= 1
    {
      assert HasResident(s.threads, p, ms[k].value);
      var j :| 0 <= j < |s.threads| && Occupies(s.threads[j], p) && s.threads[j].job == ms[k].value;
      assert PlacedThread(s.memory, s.threads[j]);
    }
    EntriesAtMostSizes(ms);
  }

  lemma AdvanceKeepsListed(policy: Policy, s: State<Memory>, i: nat, p: int)
    requires Safe(policy, s) && i < |s.threads| && Advance(Partitions(policy), s, i).Some?
    requires 0 <= p < |s.memory| && s.memory[p].size <= LISTABLE_SIZE && ListedAt(s.memory[p].processes, s.threads, p)
    ensures var next := Advance(Partitions(policy), s, i).value;
      p < |next.memory| && ListedAt(next.memory[p].processes, next.threads, p)
  {
    hide Enlist, Delist, ListedAt, BackedAt, Search, Mutex;
    var next, t := Advance(Partitions(policy), s, i).value, s.threads[i];
    var ms := s.memory[p].processes;
    assert PlacedThread(s.memory, t);
    assert BalancedAt(s.memory[p], s.threads, p);
    EntriesBounded(s, p);
    if t.phase.Decided? && t.phase.index == p {
      IdIsNew(s, p, i);
      ListedEntry(ms, s.threads, p, i, next.threads[i]);
    } else if t.phase.Ready? && t.phase.index == p {
      ListedExit(ms, s.threads, p, i, next.threads[i]);
    } else {
      ListedElsewhere(ms, s.threads, p, i, next.threads[i]);
    }
  }

  ghost predicate Listable(m: Memory) {
    forall p :: 0 <= p < |m| ==> m[p].size <= LISTABLE_SIZE
  }

  lemma StepKeepsListed(policy: Policy, s: State<Memory>, a: Action)
    requires Safe(policy, s) && Listed(s) && Listable(s.memory) && Step(Partitions(policy), s, a).Some?
    ensures Listed(Step(Partitions(policy), s, a).value)
  {
    hide Advance, ListedAt, Safe;
    StepIsSafe(policy, s, a);
    var next := Step(Partitions(policy), s, a).value;
    forall p | 0 <= p < |next.memory|
      ensures ListedAt(next.memory[p].processes, next.threads, p)
    {
      match a
      case Spawn(job) => ListedSpawn(s.memory[p].processes, s.threads, p, job);
      case Run(i) => AdvanceKeepsListed(policy, s, i, p);
    }
  }

  // ---- Whole runs ----

  /** The memory as the initializer leaves it: every partition free and without processes. */
  ghost predicate Untouched(m: Memory) {
    forall p :: 0 <= p < |m| ==> 0 <= m[p].size && m[p].free == m[p].size && m[p].processes == []
  }

  lemma InitialIsSafe(policy: Policy, m: Memory)
    requires Untouched(m)
    ensures Safe(policy, Initial(m)) && Listed(Initial(m))
  {
  }

  lemma {:induction false} ExecIsSafe(policy: Policy, s: State<Memory>, run: seq<Action>)
    requires Safe(policy, s) && Exec(Partitions(policy), s, run).Some?
    ensures var end := Exec(Partitions(policy), s, run).value;
      && Safe(policy, end) && SameShape(s.memory, end.memory)
      && (Listed(s) && Listable(s.memory) ==> Listed(end))
    decreases |run|
  {
    hide Safe, Listed, Step;
    if run == [] {
    } else {
      var next := Step(Partitions(policy), s, run[0]).value;
      StepIsSafe(policy, s, run[0]);
      if Listed(s) && Listable(s.memory) {
        StepKeepsListed(policy, s, run[0]);
      }
      ExecIsSafe(policy, next, run[1..]);
    }
  }

  /** In every run, by any number of threads and any interleaving: one holder at most, no partition overdrawn, free
      space and residents making up each size, no entry without a resident, every decision the one that the policy
      promises; and with partitions of size up to 481, no resident without an entry. */
  lemma RunsAreSafe(policy: Policy, m: Memory, run: seq<Action>)
    requires Untouched(m) && Exec(Partitions(policy), Initial(m), run).Some?
    ensures var s := Exec(Partitions(policy), Initial(m), run).value;
      && Mutex(s) && Balanced(s) && Backed(s) && Fitting(policy, s) && SameShape(m, s.memory)
      && (Listable(m) ==> Listed(s))
  {
    InitialIsSafe(policy, m);
    ExecIsSafe(policy, Initial(m), run);
  }

  lemma {:induction false} SumOfZeros<T>(ts: seq<T>, f: T -> int)
    requires forall i :: 0 <= i < |ts| ==> f(ts[i]) == 0
    ensures Sum(ts, f) == 0
  {
    if ts == [] {
    } else {
      SumOfZeros(ts[..|ts| - 1], f);
    }
  }

  lemma ResidentOf(ms: seq<Member<Job>>, threads: seq<Thread<Memory>>, p: int) returns (i: nat)
    requires BackedAt(ms, threads, p) && ms != []
    ensures i < |threads| && Occupies(threads[i], p)
  {
    assert HasResident(threads, p, ms[0].value);
    i :| 0 <= i < |threads| && Occupies(threads[i], p);
  }

  /** Whenever no thread occupies a partition, the memory is exactly the initial one. Where a full object left a
      resident unlisted, its return finds nothing to remove. */
  lemma QuiescentIsInitial(policy: Policy, m: Memory, run: seq<Action>)
    requires Untouched(m) && Exec(Partitions(policy), Initial(m), run).Some?
    requires var s := Exec(Partitions(policy), Initial(m), run).value;
      forall i :: 0 <= i < |s.threads| ==> Home(s.threads[i]).None?
    ensures Exec(Partitions(policy), Initial(m), run).value.memory == m
  {
    var s := Exec(Partitions(policy), Initial(m), run).value;
    InitialIsSafe(policy, m);
    ExecIsSafe(policy, Initial(m), run);
    hide Exec, BackedAt;
    forall p | 0 <= p < |m|
      ensures s.memory[p] == m[p]
    {
      assert BalancedAt(s.memory[p], s.threads, p) && BackedAt(s.memory[p].processes, s.threads, p);
      SumOfZeros(s.threads, Load(p));
      if s.memory[p].processes != [] {
        var i := ResidentOf(s.memory[p].processes, s.threads, p);
      }
    }
  }
}
