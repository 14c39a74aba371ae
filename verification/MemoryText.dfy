/** The memory as the text that the threads share, and the machine running on that text. */
module MemoryText {
  import opened CText
  import opened Numbers
  import opened Values
  import opened Tables
  import opened Printer
  import opened Parser
  import opened Tokens
  import opened Texts
  import opened FitPolicies
  import opened Machine
  import opened Allocator
  import opened MemoryValue

  // ---- Memories that have a text ----

  /** Within C's int and the engine's limits, with entries named after their thread ids. */
  ghost predicate Encodable(m: Memory) {
    |m| <= ARRAY_MAX_CAPACITY && forall p :: 0 <= p < |m| ==> EncodablePartition(m[p])
  }

  ghost predicate EncodablePartition(part: Partition) {
    && Int32(part.size) && Int32(part.free)
    && Valid(Table(part.processes, |part.processes|))
    && forall k :: 0 <= k < |part.processes| ==>
         part.processes[k] == EntryOf(part.processes[k].value) && ValidJob(part.processes[k].value)
  }

  ghost predicate Textual(v: Value, height: nat) {
    WellFormed(v) && IntegerTree(v) && Height(v) <= height
  }

  lemma ObjectIsTextual(ms: seq<Member<Value>>, height: nat)
    requires UniqueNames(ms) && |ms| <= OBJECT_MAX_CAPACITY
    requires forall k :: 0 <= k < |ms| ==> NulFree(ms[k].name) && Textual(ms[k].value, height)
    ensures Textual(Obj(ms, |ms|), height + 1)
  {
  }

  lemma JobIsTextual(job: Job)
    requires ValidJob(job)
    ensures Textual(EncodeJob(job), 1)
  {
  }

  lemma PartitionIsTextual(part: Partition)
    requires EncodablePartition(part)
    ensures Textual(EncodePartition(part), 3)
  {
    hide Textual, EncodeJob;
    forall k | 0 <= k < |part.processes|
      ensures NulFree(part.processes[k].name) && Textual(EncodeJob(part.processes[k].value), 1)
    {
      JobIsTextual(part.processes[k].value);
    }
    ObjectIsTextual(EncodeProcesses(part.processes), 1);
    MembersAreTextual(part.size, part.free, Obj(EncodeProcesses(part.processes), |part.processes|));
  }

  lemma MembersAreTextual(size: int, free: int, processes: Value)
    requires Int32(size) && Int32(free) && Textual(processes, 2)
    ensures Textual(Obj(PartitionMembers(size, free, processes), 3), 3)
  {
  }

  lemma MemoryIsTextual(m: Memory)
    requires Encodable(m)
    ensures Textual(Encode(m), 4)
  {
    hide EncodePartition, EncodablePartition;
    forall p | 0 <= p < |m|
      ensures Textual(EncodePartition(m[p]), 3)
    {
      PartitionIsTextual(m[p]);
    }
    ArrayIsTextual(Encode(m).items, 3);
  }

  lemma ArrayIsTextual(items: seq<Value>, height: nat)
    requires |items| <= ARRAY_MAX_CAPACITY && forall k :: 0 <= k < |items| ==> Textual(items[k], height)
    ensures Textual(Arr(items, |items|), height + 1)
  {
  }

  // ---- The shared text ----

  /** What init_memory stores, and what write_memory stores after a change. */
  function Text(lib: Lib, m: Memory): Bytes {
    Print(lib, Encode(m), 0, false)
  }

  /** read_memory parses the stored text and pretty-prints the value; its caller parses that again. */
  ghost function ReadMemory(lib: Lib, text: Bytes): Option<Value>
    requires lib.Valid()
  {
    if !NulFree(text) then None
    else
      match ParseText(lib, AsBuffer(text))
      case Fail => None
      case Ok(v, _) =>
        var data := Print(lib, v, 0, true);
        if !NulFree(data) then None
        else
          match ParseText(lib, AsBuffer(data))
          case Fail => None
          case Ok(w, _) => Some(w)
  }

  function ItemsOf(v: Value): seq<Value> {
    if v.Arr? then v.items else []
  }

  ghost function SearchText(lib: Lib, policy: Policy, text: Bytes, size: int): int
    requires lib.Valid()
  {
    match ReadMemory(lib, text)
    case None => -1
    case Some(v) => Search(FreeSpaces(ItemsOf(v)), size, policy)
  }

  ghost function AllocateText(lib: Lib, text: Bytes, index: int, job: Job): Bytes
    requires lib.Valid()
  {
    match ReadMemory(lib, text)
    case None => text
    case Some(v) => Print(lib, Debited(v, index, job), 0, false)
  }

  ghost function ReleaseText(lib: Lib, text: Bytes, index: int, job: Job): Bytes
    requires lib.Valid()
  {
    match ReadMemory(lib, text)
    case None => text
    case Some(v) => Print(lib, Credited(v, index, job), 0, false)
  }

  ghost function TextStore(lib: Lib, policy: Policy): Store<Bytes>
    requires lib.Valid()
  {
    Store((text: Bytes, size: int) => SearchText(lib, policy, text, size),
          (text: Bytes, index: int, job: Job) => AllocateText(lib, text, index, job),
          (text: Bytes, index: int, job: Job) => ReleaseText(lib, text, index, job))
  }

  /** Reading gives the memory back, through two parses and a pretty print. */
  lemma ReadIsEncode(lib: Lib, m: Memory)
    requires lib.Valid() && Encodable(m)
    ensures NulFree(Text(lib, m)) && ReadMemory(lib, Text(lib, m)) == Some(Encode(m))
  {
    MemoryIsTextual(m);
    EncodeIsTrimmed(m);
    IntegerTextRoundTrip(lib, Encode(m), 0, false);
    IntegerTextRoundTrip(lib, Encode(m), 0, true);
  }

  /** Of any stored value, the reader gets what two prints and two parses make of it: fractional numbers are rounded
      twice, and a value that is too high is not read at all. */
  lemma ReadIsTwice(lib: Lib, v: Value)
    requires lib.Valid() && WellFormed(v)
    ensures ReadMemory(lib, Print(lib, v, 0, false))
      == if Height(v) <= 2048 then Some(Reread(lib, Reread(lib, v))) else None
  {
    hide ParseText, Reread, WellFormed, Lib.Valid, Print, Fits, Height, ParseValue;
    var text := Print(lib, v, 0, false);
    TextRoundTrip(lib, v, 0, false);
    if Height(v) <= 2048 {
      var w := Reread(lib, v);
      ParsedIsSound(lib, AsBuffer(text), 0, 0);
      FitsByHeight(w, 0);
      TextRoundTrip(lib, w, 0, true);
    }
  }

  /** Spare capacity is not printed. */
  lemma {:induction false} PrintTrimmed(lib: Lib, v: Value, level: nat, pretty: bool)
    ensures Print(lib, Trimmed(v), level, pretty) == Print(lib, v, level, pretty)
    decreases v, 1
  {
    match v
    case Arr(items, _) => PrintTrimmedItems(lib, items, level, pretty);
    case Obj(ms, _) => PrintTrimmedMembers(lib, ms, level, pretty);
    case _ =>
  }

  lemma {:induction false} PrintTrimmedItems(lib: Lib, items: seq<Value>, level: nat, pretty: bool)
    ensures PrintItems(lib, TrimmedItems(items), level, pretty) == PrintItems(lib, items, level, pretty)
    decreases items, 0
  {
    if items == [] {
    } else {
      PrintTrimmed(lib, items[0], level + 1, pretty);
      PrintTrimmedItems(lib, items[1..], level, pretty);
      assert TrimmedItems(items)[1..] == TrimmedItems(items[1..]);
    }
  }

  lemma {:induction false} PrintTrimmedMembers(lib: Lib, ms: seq<Member<Value>>, level: nat, pretty: bool)
    ensures PrintMembers(lib, TrimmedMembers(ms), level, pretty) == PrintMembers(lib, ms, level, pretty)
    decreases ms, 0
  {
    if ms == [] {
    } else {
      PrintTrimmed(lib, ms[0].value, level + 1, pretty);
      PrintTrimmedMembers(lib, ms[1..], level, pretty);
      assert TrimmedMembers(ms)[1..] == TrimmedMembers(ms[1..]);
    }
  }

  /** Each operation on the text is the operation on the partitions: nothing is lost on the way. */
  lemma SearchRefines(lib: Lib, policy: Policy, m: Memory, size: int)
    requires lib.Valid() && Encodable(m)
    ensures SearchText(lib, policy, Text(lib, m), size) == Search(Free(m), size, policy)
  {
    ReadIsEncode(lib, m);
    FreeSpacesEncode(m);
  }

  lemma AllocateRefines(lib: Lib, m: Memory, index: int, job: Job)
    requires lib.Valid() && Encodable(m) && 0 <= index < |m|
    ensures AllocateText(lib, Text(lib, m), index, job) == Text(lib, Allocate(m, index, job))
  {
    hide Debited, Allocate, Encode;
    ReadIsEncode(lib, m);
    DebitedIsAllocate(m, index, job);
    PrintTrimmed(lib, Debited(Encode(m), index, job), 0, false);
  }

  lemma ReleaseRefines(lib: Lib, m: Memory, index: int, job: Job)
    requires lib.Valid() && Encodable(m) && 0 <= index < |m|
    ensures ReleaseText(lib, Text(lib, m), index, job) == Text(lib, Release(m, index, job))
  {
    hide Credited, Release, Encode;
    ReadIsEncode(lib, m);
    CreditedIsRelease(m, index, job);
    PrintTrimmed(lib, Credited(Encode(m), index, job), 0, false);
  }

  // ---- Runs on the text ----

  function AsTextPhase(lib: Lib, phase: Phase<Memory>): Phase<Bytes> {
    match phase
    case Decided(m, index) => Decided(Text(lib, m), index)
    case Ready(m, index) => Ready(Text(lib, m), index)
    case Waiting => Waiting
    case Entered => Entered
    case Recorded(index) => Recorded(index)
    case Resident(index) => Resident(index)
    case Reentered(index) => Reentered(index)
    case Returned => Returned
    case Done => Done
  }

  function AsTextThread(lib: Lib, t: Thread<Memory>): Thread<Bytes> {
    Thread(t.job, AsTextPhase(lib, t.phase))
  }

  function AsTextThreads(lib: Lib, ts: seq<Thread<Memory>>): (r: seq<Thread<Bytes>>)
    ensures |r| == |ts| && forall i :: 0 <= i < |ts| ==> r[i] == AsTextThread(lib, ts[i])
  {
    seq(|ts|, i requires 0 <= i < |ts| => AsTextThread(lib, ts[i]))
  }

  /** The state of the machine on text that corresponds to a state on partitions. */
  function AsText(lib: Lib, s: State<Memory>): State<Bytes> {
    State(s.sem, Text(lib, s.memory), AsTextThreads(lib, s.threads))
  }

  function MaybeText(lib: Lib, s: Option<State<Memory>>): Option<State<Bytes>> {
    match s
    case None => None
    case Some(next) => Some(AsText(lib, next))
  }

  lemma ThreadMovesOnText(lib: Lib, ts: seq<Thread<Memory>>, i: nat, t: Thread<Memory>)
    requires i < |ts|
    ensures AsTextThreads(lib, ts[i := t]) == AsTextThreads(lib, ts)[i := AsTextThread(lib, t)]
  {
  }

  lemma AdvanceOnText(lib: Lib, policy: Policy, s: State<Memory>, i: nat)
    requires lib.Valid() && Safe(policy, s) && Encodable(s.memory) && i < |s.threads|
    ensures Advance(TextStore(lib, policy), AsText(lib, s), i) == MaybeText(lib, Advance(Partitions(policy), s, i))
  {
    hide Text, Mutex, Balanced, Backed, Fitting, DistinctIds, Encodable, Search, Allocate, Release;
    hide SearchText, AllocateText, ReleaseText, Lib.Valid;
    var t, next := s.threads[i], Advance(Partitions(policy), s, i);
    SearchRefines(lib, policy, s.memory, t.job.size);
    if next.Some? {
      ThreadMovesOnText(lib, s.threads, i, next.value.threads[i]);
    }
    assert PlacedThread(s.memory, t);
    if t.phase.Decided? && t.phase.index != -1 {
      AllocateRefines(lib, s.memory, t.phase.index, t.job);
    } else if t.phase.Ready? {
      ReleaseRefines(lib, s.memory, t.phase.index, t.job);
    }
  }

  lemma StepOnText(lib: Lib, policy: Policy, s: State<Memory>, a: Action)
    requires lib.Valid() && Safe(policy, s) && Encodable(s.memory)
    ensures Step(TextStore(lib, policy), AsText(lib, s), a) == MaybeText(lib, Step(Partitions(policy), s, a))
  {
    hide Advance, Safe, Encodable, Text, TextStore, Partitions;
    match a
    case Run(i) =>
      if i < |s.threads| {
        AdvanceOnText(lib, policy, s, i);
      }
    case Spawn(job) =>
      FreshOnText(lib, s.threads, job.tid);
      assert AsTextThreads(lib, s.threads + [Thread(job, Waiting)])
          == AsTextThreads(lib, s.threads) + [Thread(job, Waiting)];
  }

  lemma FreshOnText(lib: Lib, ts: seq<Thread<Memory>>, tid: nat)
    ensures FreshId(AsTextThreads(lib, ts), tid) <==> FreshId(ts, tid)
  {
  }

  lemma EnlistIsEncodable(part: Partition, job: Job)
    requires EncodablePartition(part) && ValidJob(job) && Int32(part.free - job.size)
    ensures EncodablePartition(part.(free := part.free - job.size, processes := Enlist(part.processes, job)))
  {
  }

  lemma DelistIsEncodable(part: Partition, job: Job)
    requires EncodablePartition(part) && Int32(part.free + job.size)
    ensures EncodablePartition(part.(free := part.free + job.size, processes := Delist(part.processes, job.tid)))
  {
  }

  lemma StepKeepsEncodable(policy: Policy, s: State<Memory>, a: Action)
    requires Safe(policy, s) && Encodable(s.memory) && Step(Partitions(policy), s, a).Some?
    ensures Encodable(Step(Partitions(policy), s, a).value.memory)
  {
    hide Mutex, DistinctIds, Fitting, Search, EncodablePartition, Enlist, Delist, Int32;
    var next := Step(Partitions(policy), s, a).value;
    StepIsSafe(policy, s, a);
    forall p | 0 <= p < |next.memory|
      ensures EncodablePartition(next.memory[p])
    {
      assert BalancedAt(s.memory[p], s.threads, p) && BalancedAt(next.memory[p], next.threads, p);
      StillInt32(s.memory[p], next.memory[p]);
      if a.Run? && next.memory[p] != s.memory[p] {
        var t := s.threads[a.i];
        assert PlacedThread(s.memory, t);
        if t.phase.Decided? {
          EnlistIsEncodable(s.memory[p], t.job);
        } else {
          DelistIsEncodable(s.memory[p], t.job);
        }
      }
    }
  }

  lemma StillInt32(part: Partition, next: Partition)
    requires EncodablePartition(part) && next.size == part.size && 0 <= next.free <= next.size
    ensures Int32(next.free)
  {
  }

  lemma {:induction false} ExecOnText(lib: Lib, policy: Policy, s: State<Memory>, run: seq<Action>)
    requires lib.Valid() && Safe(policy, s) && Encodable(s.memory)
    ensures Exec(TextStore(lib, policy), AsText(lib, s), run) == MaybeText(lib, Exec(Partitions(policy), s, run))
    ensures Exec(Partitions(policy), s, run).Some? ==> Encodable(Exec(Partitions(policy), s, run).value.memory)
    decreases |run|
  {
    hide Step, Safe, Encodable, AsText, TextStore, Partitions;
    if run == [] {
    } else {
      StepOnText(lib, policy, s, run[0]);
      var next := Step(Partitions(policy), s, run[0]);
      if next.Some? {
        StepIsSafe(policy, s, run[0]);
        StepKeepsEncodable(policy, s, run[0]);
        ExecOnText(lib, policy, next.value, run[1..]);
      }
    }
  }

  // ---- What holds of the shared text in every run ----

  /** A memory that init_memory can store. */
  ghost predicate Storable(m: Memory) {
    Untouched(m) && |m| <= ARRAY_MAX_CAPACITY && forall p :: 0 <= p < |m| ==> Int32(m[p].size)
  }

  lemma StorableIsEncodable(m: Memory)
    requires Storable(m)
    ensures Encodable(m)
  {
  }

  /** A decided index is the one that the policy promises for the free spaces that the text shows. */
  ghost predicate FittingOnText(lib: Lib, policy: Policy, t: State<Bytes>)
    requires lib.Valid()
  {
    && ReadMemory(lib, t.memory).Some?
    && var free := FreeSpaces(ItemsOf(ReadMemory(lib, t.memory).value));
       forall i :: 0 <= i < |t.threads| && t.threads[i].phase.Decided? ==>
         Chosen(free, t.threads[i].job.size, policy, t.threads[i].phase.index)
  }

  lemma FittingIsOnText(lib: Lib, policy: Policy, s: State<Memory>)
    requires lib.Valid() && Encodable(s.memory) && Fitting(policy, s)
    ensures FittingOnText(lib, policy, AsText(lib, s))
  {
    hide Text, Chosen, Encodable, Lib.Valid, ReadMemory, FreeSpaces;
    ReadIsEncode(lib, s.memory);
    FreeSpacesEncode(s.memory);
    var t := AsText(lib, s);
    forall i | 0 <= i < |t.threads| && t.threads[i].phase.Decided?
      ensures Chosen(Free(s.memory), t.threads[i].job.size, policy, t.threads[i].phase.index)
    {
      assert t.threads[i] == AsTextThread(lib, s.threads[i]);
    }
  }

  /** The machine on text and the machine on partitions make the same runs, and are in corresponding states after each.
      So at any time the text denotes a partition list that is balanced and lists residents only, and, with partitions
      of size up to 481, all of them; and every decision is the one that the policy promises on the text. */
  lemma TextRunsRefine(lib: Lib, policy: Policy, m: Memory, run: seq<Action>)
    requires lib.Valid() && Storable(m)
    ensures var end := Exec(Partitions(policy), Initial(m), run);
      && Exec(TextStore(lib, policy), Initial(Text(lib, m)), run) == MaybeText(lib, end)
      && (end.Some? ==>
            && ReadMemory(lib, Text(lib, end.value.memory)) == Some(Encode(end.value.memory))
            && SameShape(m, end.value.memory) && Balanced(end.value) && Backed(end.value)
            && (Listable(m) ==> Listed(end.value))
            && FittingOnText(lib, policy, AsText(lib, end.value)))
  {
    hide Exec;
    StorableIsEncodable(m);
    InitialIsSafe(policy, m);
    assert AsText(lib, Initial(m)) == Initial(Text(lib, m));
    ExecOnText(lib, policy, Initial(m), run);
    var end := Exec(Partitions(policy), Initial(m), run);
    if end.Some? {
      ReadIsEncode(lib, end.value.memory);
      RunsAreSafe(policy, m, run);
      FittingIsOnText(lib, policy, end.value);
    }
  }

  /** Whenever no thread occupies a partition, the shared text is byte for byte the initial one. */
  lemma QuiescentTextIsInitial(lib: Lib, policy: Policy, m: Memory, run: seq<Action>)
    requires lib.Valid() && Storable(m)
    requires Exec(TextStore(lib, policy), Initial(Text(lib, m)), run).Some?
    requires var t := Exec(TextStore(lib, policy), Initial(Text(lib, m)), run).value;
      forall i :: 0 <= i < |t.threads| ==> Home(t.threads[i]).None?
    ensures Exec(TextStore(lib, policy), Initial(Text(lib, m)), run).value.memory == Text(lib, m)
  {
    hide Exec, Text, Lib.Valid;
    TextRunsRefine(lib, policy, m, run);
    var t := Exec(TextStore(lib, policy), Initial(Text(lib, m)), run).value;
    var s := Exec(Partitions(policy), Initial(m), run).value;
    forall i | 0 <= i < |s.threads|
      ensures Home(s.threads[i]).None?
    {
      assert t.threads[i] == AsTextThread(lib, s.threads[i]);
    }
    QuiescentIsInitial(policy, m, run);
  }

  /** The partitions of schema.json. */
  const SCHEMA: Memory := [Partition(10, 10, []), Partition(5, 5, []), Partition(7, 7, []), Partition(8, 8, []),
                           Partition(10, 10, []), Partition(4, 4, []), Partition(6, 6, [])]

  lemma SchemaIsStorable()
    ensures Storable(SCHEMA) && Listable(SCHEMA)
  {
  }
}
