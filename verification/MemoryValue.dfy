/** The memory as a JSON value, and the changes that worker_thread makes to that value. */
module MemoryValue {
  import opened CText
  import opened Numbers
  import opened Values
  import opened Tables
  import opened DotPaths
  import opened FitPolicies
  import opened Machine
  import opened Allocator

  const SIZE: Bytes := [115, 105, 122, 101]
  const DELAY: Bytes := [100, 101, 108, 97, 121]
  const PROCESSES: Bytes := [112, 114, 111, 99, 101, 115, 115, 101, 115]

  // ---- Encoding ----

  function NumberOf(n: int): Value {
    Num(n as real)
  }

  function EncodeJob(job: Job): Value {
    Obj([Member(SIZE, NumberOf(job.size)), Member(DELAY, NumberOf(job.delay))], 2)
  }

  function EncodeProcesses(ms: seq<Member<Job>>): (r: seq<Member<Value>>)
    ensures |r| == |ms| && forall k :: 0 <= k < |ms| ==> r[k] == Member(ms[k].name, EncodeJob(ms[k].value))
  {
    seq(|ms|, k requires 0 <= k < |ms| => Member(ms[k].name, EncodeJob(ms[k].value)))
  }

  function PartitionMembers(size: int, free: int, processes: Value): seq<Member<Value>> {
    [Member(SIZE, NumberOf(size)), Member(FREE_SPACE, NumberOf(free)), Member(PROCESSES, processes)]
  }

  function EncodePartition(part: Partition): Value {
    Obj(PartitionMembers(part.size, part.free, Obj(EncodeProcesses(part.processes), |part.processes|)), 3)
  }

  function Encode(m: Memory): (v: Value)
    ensures v.Arr? && v.capacity == |v.items| == |m|
    ensures forall p :: 0 <= p < |m| ==> v.items[p] == EncodePartition(m[p])
  {
    Arr(seq(|m|, p requires 0 <= p < |m| => EncodePartition(m[p])), |m|)
  }

  // ---- The changes ----

  /** json_object_set_value; a failing call changes nothing. */
  function Set(t: Table<Value>, name: Bytes, v: Value): Table<Value> {
    Applied(t, PutOp(name, v))
  }

  /** The object that the allocating thread enters for itself. */
  function JobValue(job: Job): Value {
    AsObject(Set(Set(Table([], 0), SIZE, NumberOf(job.size)), DELAY, NumberOf(job.delay)))
  }

  function DebitedPartition(t: Table<Value>, job: Job): Table<Value> {
    var debited := Set(t, FREE_SPACE, NumberOf(NumberUnder(AsObject(t), FREE_SPACE) - job.size));
    match ObjectUnder(debited.members, PROCESSES)
    case None => debited
    case Some(processes) =>
      Update(debited, PROCESSES, AsObject(Set(processes, Digits(job.tid), JobValue(job))))
  }

  function CreditedPartition(t: Table<Value>, job: Job): Table<Value> {
    var credited := Set(t, FREE_SPACE, NumberOf(NumberUnder(AsObject(t), FREE_SPACE) + job.size));
    DotRemove(credited, PROCESSES + [DOT] + Digits(job.tid)).table
  }

  /** The memory value with one of its elements changed; anything but an object is left as it is. */
  function WithElement(v: Value, index: int, change: Table<Value> -> Table<Value>): Value {
    if v.Arr? && 0 <= index < |v.items| && v.items[index].Obj? then
      v.(items := v.items[index := AsObject(change(Table(v.items[index].members, v.items[index].capacity)))])
    else v
  }

  function Debited(v: Value, index: int, job: Job): Value {
    WithElement(v, index, t => DebitedPartition(t, job))
  }

  function Credited(v: Value, index: int, job: Job): Value {
    WithElement(v, index, t => CreditedPartition(t, job))
  }

  // ---- They are the changes of the partition list ----

  lemma NamesDiffer()
    ensures SIZE != FREE_SPACE && SIZE != PROCESSES && FREE_SPACE != PROCESSES && SIZE != DELAY
  {
  }

  lemma PartitionNames(size: int, free: int, processes: Value)
    ensures var ms := PartitionMembers(size, free, processes);
      && UniqueNames(ms) && IndexOf(ms, FREE_SPACE) == 1 && IndexOf(ms, PROCESSES) == 2
      && Lookup(ms, FREE_SPACE) == Some(NumberOf(free)) && Lookup(ms, PROCESSES) == Some(processes)
  {
    var ms := PartitionMembers(size, free, processes);
    NamesDiffer();
    hide IndexOf, Lookup;
    assert ms[1].name == FREE_SPACE && ms[2].name == PROCESSES;
    LookupUnique(ms, 1);
    LookupUnique(ms, 2);
    assert FREE_SPACE in Names(ms) && PROCESSES in Names(ms);
  }

  /** Reading and setting the free space. */
  lemma FreeSpaceSet(size: int, free: int, processes: Value, free': int)
    ensures var t := Table(PartitionMembers(size, free, processes), 3);
      && NumberUnder(AsObject(t), FREE_SPACE) == free
      && Set(t, FREE_SPACE, NumberOf(free')) == Table(PartitionMembers(size, free', processes), 3)
  {
    PartitionNames(size, free, processes);
    hide IndexOf, Lookup;
    assert PartitionMembers(size, free, processes)[1 := Member(FREE_SPACE, NumberOf(free'))]
        == PartitionMembers(size, free', processes);
  }

  /** Changing what "processes" holds. */
  lemma ProcessesUpdated(size: int, free: int, processes: Table<Value>, processes': Table<Value>)
    ensures var t := Table(PartitionMembers(size, free, AsObject(processes)), 3);
      && ObjectUnder(t.members, PROCESSES) == Some(processes)
      && Update(t, PROCESSES, AsObject(processes')) == Table(PartitionMembers(size, free, AsObject(processes')), 3)
  {
  }

  lemma JobValueIsJob(job: Job)
    ensures Trimmed(JobValue(job)) == EncodeJob(job)
  {
  }

  lemma IndexOfEncoded(ms: seq<Member<Job>>, name: Bytes)
    ensures IndexOf(EncodeProcesses(ms), name) == IndexOf(ms, name)
  {
  }

  lemma JobTrimmed(job: Job)
    ensures Trimmed(EncodeJob(job)) == EncodeJob(job)
  {
  }

  /** Entering a job in the value enters it in the list. */
  lemma EnlistEncodes(ms: seq<Member<Job>>, job: Job)
    ensures TrimmedMembers(Set(Table(EncodeProcesses(ms), |ms|), Digits(job.tid), JobValue(job)).members)
      == EncodeProcesses(Enlist(ms, job))
  {
    hide Digits, JobValue, Lookup, EncodeJob, Trimmed;
    var name := Digits(job.tid);
    IndexOfEncoded(ms, name);
    hide IndexOf;
    JobValueIsJob(job);
    forall k | 0 <= k < |ms|
      ensures Trimmed(EncodeJob(ms[k].value)) == EncodeJob(ms[k].value)
    {
      JobTrimmed(ms[k].value);
    }
    var after := Set(Table(EncodeProcesses(ms), |ms|), name, JobValue(job)).members;
    assert |after| == |Enlist(ms, job)|;
  }

  /** Removing a job from the value removes it from the list. */
  lemma DelistEncodes(ms: seq<Member<Job>>, tid: nat)
    ensures Applied(Table(EncodeProcesses(ms), |ms|), RemoveOp(Digits(tid)))
      == Table(EncodeProcesses(Delist(ms, tid)), |ms|)
  {
  }

  /** The path "processes.<id>" has these two components. */
  lemma ProcessPath(tid: nat)
    ensures var path := PROCESSES + [DOT] + Digits(tid);
      HasDot(path) && Head(path) == PROCESSES && Tail(path) == Digits(tid) && !HasDot(Digits(tid))
  {
    var path, id := PROCESSES + [DOT] + Digits(tid), Digits(tid);
    hide Digits;
    assert forall i :: 0 <= i < 9 ==> path[i] == PROCESSES[i] != DOT;
    assert path[9] == DOT;
    FirstDotIs(path, 9);
    FirstDotIs(id, |id|);
  }

  lemma ProcessRemoved(t: Table<Value>, tid: nat)
    requires ObjectUnder(t.members, PROCESSES).Some?
    ensures DotRemove(t, PROCESSES + [DOT] + Digits(tid)).table
      == Update(t, PROCESSES, AsObject(Applied(ObjectUnder(t.members, PROCESSES).value, RemoveOp(Digits(tid)))))
  {
    ProcessPath(tid);
    hide Digits, HasDot, Head, Tail, Update, Remove;
  }

  function EncodedTable(part: Partition): Table<Value> {
    Table(EncodePartition(part).members, 3)
  }

  function EncodedProcesses(part: Partition): Table<Value> {
    Table(EncodeProcesses(part.processes), |part.processes|)
  }

  lemma PartitionTrimmed(size: int, free: int, processes: Table<Value>, ms: seq<Member<Job>>)
    requires TrimmedMembers(processes.members) == EncodeProcesses(ms)
    ensures Trimmed(AsObject(Table(PartitionMembers(size, free, AsObject(processes)), 3)))
      == EncodePartition(Partition(size, free, ms))
  {
  }

  lemma DebitEncodes(part: Partition, job: Job)
    ensures Trimmed(AsObject(DebitedPartition(EncodedTable(part), job)))
      == EncodePartition(part.(free := part.free - job.size, processes := Enlist(part.processes, job)))
  {
    var processes := EncodedProcesses(part);
    var after := Set(processes, Digits(job.tid), JobValue(job));
    FreeSpaceSet(part.size, part.free, AsObject(processes), part.free - job.size);
    ProcessesUpdated(part.size, part.free - job.size, processes, after);
    EnlistEncodes(part.processes, job);
    hide Set, Update, ObjectUnder, NumberUnder, PartitionMembers, EncodeProcesses, Enlist, Trimmed, Digits, JobValue;
    PartitionTrimmed(part.size, part.free - job.size, after, Enlist(part.processes, job));
  }

  lemma {:induction false} EncodedTrimmed(ms: seq<Member<Job>>)
    ensures TrimmedMembers(EncodeProcesses(ms)) == EncodeProcesses(ms)
  {
    hide EncodeJob, Trimmed;
    forall k | 0 <= k < |ms|
      ensures Trimmed(EncodeJob(ms[k].value)) == EncodeJob(ms[k].value)
    {
      JobTrimmed(ms[k].value);
    }
  }

  lemma EncodedTableIs(part: Partition)
    ensures EncodedTable(part) == Table(PartitionMembers(part.size, part.free, AsObject(EncodedProcesses(part))), 3)
  {
  }

  lemma CreditEncodes(part: Partition, job: Job)
    ensures Trimmed(AsObject(CreditedPartition(EncodedTable(part), job)))
      == EncodePartition(part.(free := part.free + job.size, processes := Delist(part.processes, job.tid)))
  {
    hide *;
    var processes := EncodedProcesses(part);
    var credited := Table(PartitionMembers(part.size, part.free + job.size, AsObject(processes)), 3);
    var after := Applied(processes, RemoveOp(Digits(job.tid)));
    EncodedTableIs(part);
    FreeSpaceSet(part.size, part.free, AsObject(processes), part.free + job.size);
    CreditedIs(EncodedTable(part), job);
    ProcessesUpdated(part.size, part.free + job.size, processes, after);
    ProcessRemovedFrom(credited, processes, job.tid);
    ProcessesDelisted(part, job.tid);
    PartitionTrimmed(part.size, part.free + job.size, after, Delist(part.processes, job.tid));
  }

  lemma CreditedIs(t: Table<Value>, job: Job)
    ensures CreditedPartition(t, job)
      == DotRemove(Set(t, FREE_SPACE, NumberOf(NumberUnder(AsObject(t), FREE_SPACE) + job.size)),
                   PROCESSES + [DOT] + Digits(job.tid)).table
  {
  }

  lemma ProcessRemovedFrom(t: Table<Value>, processes: Table<Value>, tid: nat)
    requires ObjectUnder(t.members, PROCESSES) == Some(processes)
    ensures PROCESSES in Names(t.members)
    ensures DotRemove(t, PROCESSES + [DOT] + Digits(tid)).table
      == Update(t, PROCESSES, AsObject(Applied(processes, RemoveOp(Digits(tid)))))
  {
    ProcessRemoved(t, tid);
  }

  lemma ProcessesDelisted(part: Partition, tid: nat)
    ensures TrimmedMembers(Applied(EncodedProcesses(part), RemoveOp(Digits(tid))).members)
      == EncodeProcesses(Delist(part.processes, tid))
  {
    hide Applied, Delist, TrimmedMembers;
    DelistEncodes(part.processes, tid);
    EncodedTrimmed(Delist(part.processes, tid));
  }

  lemma PartitionIsTrimmed(part: Partition)
    ensures Trimmed(EncodePartition(part)) == EncodePartition(part)
  {
    EncodedTrimmed(part.processes);
    PartitionTrimmed(part.size, part.free, EncodedProcesses(part), part.processes);
  }

  lemma EncodeIsTrimmed(m: Memory)
    ensures Trimmed(Encode(m)) == Encode(m)
  {
    hide EncodePartition;
    forall p | 0 <= p < |m|
      ensures Trimmed(EncodePartition(m[p])) == EncodePartition(m[p])
    {
      PartitionIsTrimmed(m[p]);
    }
    assert TrimmedItems(Encode(m).items) == Encode(m).items;
  }

  /** The allocating thread's changes to the value are the allocation in the partition list. */
  lemma DebitedIsAllocate(m: Memory, index: int, job: Job)
    requires 0 <= index < |m|
    ensures Trimmed(Debited(Encode(m), index, job)) == Encode(Allocate(m, index, job))
  {
    hide Enlist, DebitedPartition;
    DebitEncodes(m[index], job);
    ElementEncodes(m, index, DebitedPartition(EncodedTable(m[index]), job),
                   m[index].(free := m[index].free - job.size, processes := Enlist(m[index].processes, job)));
  }

  lemma CreditedIsRelease(m: Memory, index: int, job: Job)
    requires 0 <= index < |m|
    ensures Trimmed(Credited(Encode(m), index, job)) == Encode(Release(m, index, job))
  {
    hide Delist, CreditedPartition;
    CreditEncodes(m[index], job);
    ElementEncodes(m, index, CreditedPartition(EncodedTable(m[index]), job),
                   m[index].(free := m[index].free + job.size, processes := Delist(m[index].processes, job.tid)));
  }

  lemma ElementEncodes(m: Memory, index: int, changed: Table<Value>, part: Partition)
    requires 0 <= index < |m| && Trimmed(AsObject(changed)) == EncodePartition(part)
    ensures Trimmed(Arr(Encode(m).items[index := AsObject(changed)], |m|)) == Encode(m[index := part])
  {
    hide EncodePartition;
    forall p | 0 <= p < |m|
      ensures Trimmed(EncodePartition(m[p])) == EncodePartition(m[p])
    {
      PartitionIsTrimmed(m[p]);
    }
    assert TrimmedItems(Encode(m).items[index := AsObject(changed)]) == Encode(m[index := part]).items;
  }

  /** The search reads the free space of the partition list. */
  lemma FreeSpacesEncode(m: Memory)
    ensures FreeSpaces(Encode(m).items) == Free(m)
  {
    hide EncodePartition, NumberUnder;
    forall p | 0 <= p < |m|
      ensures NumberUnder(EncodePartition(m[p]), FREE_SPACE) == m[p].free
    {
      EncodedFree(m[p]);
    }
  }

  lemma EncodedFree(part: Partition)
    ensures NumberUnder(EncodePartition(part), FREE_SPACE) == part.free
  {
    FreeSpaceSet(part.size, part.free, Obj(EncodeProcesses(part.processes), |part.processes|), 0);
  }
}
