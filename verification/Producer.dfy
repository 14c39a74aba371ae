/** The critical sections of worker_thread, run on the file that the threads share. */
module Producer {
  import opened CText
  import opened Numbers
  import opened Values
  import opened Tables
  import opened Printer
  import opened Parser
  import opened Texts
  import opened DotPaths
  import opened FitPolicies
  import opened Machine
  import opened Allocator
  import opened Saturation
  import opened Service
  import opened MemoryValue
  import opened MemoryText
  import ParserCode

  lemma ParsedTextIsSound(lib: Lib, s: Buffer)
    requires lib.Valid() && ParseText(lib, s).Ok?
    ensures WellFormed(ParseText(lib, s).value)
  {
    ParsedIsSound(lib, s, if s[0] == 0xEF && s[1] == 0xBB && s[2] == 0xBF then 3 else 0, 0);
  }

  // ---- The changed values are printable ----

  lemma PutIsSound(t: Table<Value>, name: Bytes, v: Value)
    requires SoundTable(t) && NulFree(name) && WellFormed(v)
    ensures SoundTable(Set(t, name, v))
  {
  }

  lemma JobValueIsSound(job: Job)
    ensures WellFormed(JobValue(job))
  {
  }

  lemma DebitedIsSound(t: Table<Value>, job: Job)
    requires SoundTable(t)
    ensures SoundTable(DebitedPartition(t, job))
  {
    hide WellFormed, JobValue, Put, NumberUnder;
    var debited := Set(t, FREE_SPACE, NumberOf(NumberUnder(AsObject(t), FREE_SPACE) - job.size));
    NamesAreSound(t, NumberUnder(AsObject(t), FREE_SPACE) - job.size, job.tid);
    PutIsSound(t, FREE_SPACE, NumberOf(NumberUnder(AsObject(t), FREE_SPACE) - job.size));
    var processes := ObjectUnder(debited.members, PROCESSES);
    if processes.Some? {
      JobValueIsSound(job);
      InsideIsSound(debited, PROCESSES);
      PutIsSound(processes.value, Digits(job.tid), JobValue(job));
      UpdateSwaps(debited, PROCESSES, AsObject(Set(processes.value, Digits(job.tid), JobValue(job))));
    }
  }

  lemma NamesAreSound(t: Table<Value>, n: int, tid: nat)
    ensures WellFormed(NumberOf(n)) && NulFree(FREE_SPACE) && NulFree(PROCESSES) && NulFree(Digits(tid))
    ensures NulFree(PROCESSES + [DOT] + Digits(tid))
  {
  }

  lemma CreditedIsSound(t: Table<Value>, job: Job)
    requires SoundTable(t)
    ensures SoundTable(CreditedPartition(t, job))
  {
    hide WellFormed, DotRemove, NumberUnder, Set;
    var n := NumberUnder(AsObject(t), FREE_SPACE) + job.size;
    NamesAreSound(t, n, job.tid);
    PutIsSound(t, FREE_SPACE, NumberOf(n));
    RemoveThenGet(Set(t, FREE_SPACE, NumberOf(n)), PROCESSES + [DOT] + Digits(job.tid), []);
  }

  lemma ElementIsSound(v: Value, index: int, change: Table<Value> -> Table<Value>)
    requires WellFormed(v)
    requires forall t: Table<Value> :: SoundTable(t) ==> SoundTable(change(t))
    ensures WellFormed(WithElement(v, index, change))
  {
  }

  lemma ChangesAreSound(v: Value, index: int, job: Job)
    requires WellFormed(v)
    ensures WellFormed(Debited(v, index, job)) && WellFormed(Credited(v, index, job))
  {
    hide WellFormed, SoundTable, DebitedPartition, CreditedPartition;
    forall t | SoundTable(t)
      ensures SoundTable(DebitedPartition(t, job)) && SoundTable(CreditedPartition(t, job))
    {
      DebitedIsSound(t, job);
      CreditedIsSound(t, job);
    }
    ElementIsSound(v, index, t => DebitedPartition(t, job));
    ElementIsSound(v, index, t => CreditedPartition(t, job));
  }

  // ---- The sections are steps of the machine ----

  /** A thread in a phase, with all else as it was. */
  function WithPhase(s: State<Bytes>, i: nat, memory: Bytes, phase: Phase<Bytes>): State<Bytes>
    requires i < |s.threads|
  {
    s.(memory := memory, threads := s.threads[i := s.threads[i].(phase := phase)])
  }

  lemma TwoSteps<M>(store: Store<M>, s: State<M>, i: nat, mid: State<M>)
    requires Step(store, s, Run(i)) == Some(mid)
    ensures Exec(store, s, [Run(i), Run(i)]) == Step(store, mid, Run(i)) && Exec(store, s, [Run(i)]) == Some(mid)
  {
    hide Step, Exec;
    ExecStep(store, s, Run(i), [Run(i)]);
    OneAction(store, s, Run(i));
    OneAction(store, mid, Run(i));
    assert [Run(i)] + [Run(i)] == [Run(i), Run(i)];
  }

  /** What `Cell.Enter` returns and leaves is what the machine makes of a thread between its wait and its post. */
  lemma EnterIsSteps(lib: Lib, policy: Policy, s: State<Bytes>, i: nat, index: int, after: Bytes)
    requires lib.Valid() && i < |s.threads| && s.threads[i].phase.Entered?
    requires index == SearchText(lib, policy, s.memory, s.threads[i].job.size)
    requires after == if index == -1 then s.memory else AllocateText(lib, s.memory, index, s.threads[i].job)
    ensures index == -1 ==>
      after == s.memory
      && Exec(TextStore(lib, policy), s, [Run(i)]) == Some(WithPhase(s, i, after, Decided(s.memory, -1)))
    ensures index != -1 ==>
      Exec(TextStore(lib, policy), s, [Run(i), Run(i)]) == Some(WithPhase(s, i, after, Recorded(index)))
  {
    hide SearchText, AllocateText, Lib.Valid;
    var mid := WithPhase(s, i, s.memory, Decided(s.memory, index));
    TwoSteps(TextStore(lib, policy), s, i, mid);
    assert index != -1 ==> WithPhase(mid, i, after, Recorded(index)) == WithPhase(s, i, after, Recorded(index));
  }

  /** And what `Cell.Leave` leaves is what the machine makes of the thread between its second wait and post. */
  lemma LeaveIsSteps(lib: Lib, policy: Policy, s: State<Bytes>, i: nat, after: Bytes)
    requires lib.Valid() && i < |s.threads| && s.threads[i].phase.Reentered?
    requires after == ReleaseText(lib, s.memory, s.threads[i].phase.index, s.threads[i].job)
    ensures Exec(TextStore(lib, policy), s, [Run(i), Run(i)]) == Some(WithPhase(s, i, after, Returned))
  {
    hide ReleaseText, Lib.Valid;
    var mid := WithPhase(s, i, s.memory, Ready(s.memory, s.threads[i].phase.index));
    TwoSteps(TextStore(lib, policy), s, i, mid);
    assert WithPhase(mid, i, after, Returned) == WithPhase(s, i, after, Returned);
  }

  /** The mapped file. */
  class Cell {
    var text: Buffer

    ghost function Contents(): Bytes
      reads this
    {
      text[..|text| - 1]
    }

    /** init_memory, given the value parsed from schema.json */
    constructor (lib: Lib, schema: Value)
      requires lib.Valid() && WellFormed(schema)
      ensures Contents() == Print(lib, schema, 0, false)
    {
      var buffer := SerializeToString(lib, schema, false);
      PrintNulFree(lib, schema, 0, false);
      text := buffer[..];
    }

    /** read_memory, and the parse that follows it. */
    method Read(lib: Lib) returns (v: Option<Value>)
      requires lib.Valid()
      ensures v == ReadMemory(lib, Contents())
      ensures v.Some? ==> WellFormed(v.value)
    {
      hide ParseText, WellFormed, Print;
      assert text == AsBuffer(Contents());
      var first := ParserCode.ParseString(lib, text);
      if first.None? {
        return None;
      }
      ParsedTextIsSound(lib, text);
      var data := SerializeToString(lib, first.value, true);
      PrintNulFree(lib, first.value, 0, true);
      assert data[..] == AsBuffer(Print(lib, first.value, 0, true));
      v := ParserCode.ParseString(lib, data[..]);
      if v.Some? {
        ParsedTextIsSound(lib, data[..]);
      }
    }

    /** write_memory */
    method Write(lib: Lib, v: Value)
      requires lib.Valid() && WellFormed(v)
      modifies this
      ensures Contents() == Print(lib, v, 0, false)
    {
      var buffer := SerializeToString(lib, v, false);
      PrintNulFree(lib, v, 0, false);
      text := buffer[..];
    }

    /** The first critical section, up to sem_post: search, and debit the chosen partition. */
    method Enter(lib: Lib, policy: Policy, job: Job) returns (index: int)
      requires lib.Valid()
      modifies this
      ensures index == SearchText(lib, policy, old(Contents()), job.size)
      ensures Contents() == if index == -1 then old(Contents()) else AllocateText(lib, old(Contents()), index, job)
    {
      hide Print, WellFormed, ReadMemory, Debited, Credited;
      var v := Read(lib);
      if v.None? {
        return -1;
      }
      index := SearchIndex(ItemsOf(v.value), job.size, policy);
      if index != -1 {
        ChangesAreSound(v.value, index, job);
        Write(lib, Debited(v.value, index, job));
      }
    }

    /** The second critical section: credit the remembered partition, and remove the entry. */
    method Leave(lib: Lib, index: int, job: Job)
      requires lib.Valid()
      modifies this
      ensures Contents() == ReleaseText(lib, old(Contents()), index, job)
    {
      hide Print, WellFormed, ReadMemory, Debited, Credited;
      var v := Read(lib);
      if v.Some? {
        ChangesAreSound(v.value, index, job);
        Write(lib, Credited(v.value, index, job));
      }
    }
  }
}
