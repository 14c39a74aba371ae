/** Why the entries can be relied on up to partition size 481 and no further: a partition can be filled with threads of
    size one, and json_object_set_value lists 481 of them at most. */
module Saturation {
  import opened CText
  import opened Numbers
  import opened Values
  import opened Tables
  import opened FitPolicies
  import opened Machine
  import opened Allocator

  // ---- Filling the memory ----

  lemma ExecStep<M>(store: Store<M>, s: State<M>, a: Action, run: seq<Action>)
    requires Step(store, s, a).Some?
    ensures Exec(store, s, [a] + run) == Exec(store, Step(store, s, a).value, run)
  {
  }

  lemma {:induction false} ExecAppend<M>(store: Store<M>, s: State<M>, run: seq<Action>, more: seq<Action>)
    requires Exec(store, s, run).Some?
    ensures Exec(store, s, run + more) == Exec(store, Exec(store, s, run).value, more)
    decreases |run|
  {
    if run == [] {
      assert run + more == more;
    } else {
      assert (run + more)[1..] == run[1..] + more;
      ExecAppend(store, Step(store, s, run[0]).value, run[1..], more);
    }
  }

  /** All threads sleep in the memory, all of size one, with ids below `n`. */
  ghost predicate Settled(s: State<Memory>, n: nat) {
    && s.sem == 1
    && forall i :: 0 <= i < |s.threads| ==>
         s.threads[i].phase.Resident? && s.threads[i].job.size == 1 && s.threads[i].job.tid < n
  }

  /** A new thread runs until it sleeps, or leaves for want of space. */
  function Arrival(k: nat, job: Job): seq<Action> {
    [Spawn(job)] + ([Run(k)] + ([Run(k)] + ([Run(k)] + ([Run(k)] + []))))
  }

  function Arrived(s: State<Memory>, index: int, job: Job): State<Memory> {
    State(1, Allocate(s.memory, index, job), s.threads + [Thread(job, Resident(index))])
  }

  /** While no thread holds the semaphore, any valid job with a new id can run through the first critical section, and
      is then in the partition that the search gives, or has left where it gives none. */
  lemma ArrivalRuns(policy: Policy, s: State<Memory>, job: Job)
    requires s.sem == 1 && 1 <= job.size <= 0x7FFF_FFFF && Int32(job.delay)
    requires forall i :: 0 <= i < |s.threads| ==> s.threads[i].phase.Done? || s.threads[i].job.tid != job.tid
    ensures var k, index := |s.threads|, Search(Free(s.memory), job.size, policy);
      && (index != -1 ==> Exec(Partitions(policy), s, Arrival(k, job)) == Some(Arrived(s, index, job)))
      && (index == -1 ==>
            Exec(Partitions(policy), s, [Spawn(job)] + ([Run(k)] + ([Run(k)] + ([Run(k)] + []))))
            == Some(s.(threads := s.threads + [Thread(job, Done)])))
  {
    hide Search, Exec;
    var store, k, index := Partitions(policy), |s.threads|, Search(Free(s.memory), job.size, policy);
    var last := [Run(k)] + [];
    var s1 := s.(threads := s.threads + [Thread(job, Waiting)]);
    var s2 := State(0, s.memory, s.threads + [Thread(job, Entered)]);
    var s3 := State(0, s.memory, s.threads + [Thread(job, Decided(s.memory, index))]);
    LastMoves(s.threads, Thread(job, Waiting), Thread(job, Entered));
    LastMoves(s.threads, Thread(job, Entered), Thread(job, Decided(s.memory, index)));
    if index == -1 {
      LastMoves(s.threads, Thread(job, Decided(s.memory, index)), Thread(job, Done));
      ExecStep(store, s, Spawn(job), [Run(k)] + ([Run(k)] + last));
      ExecStep(store, s1, Run(k), [Run(k)] + last);
      ExecStep(store, s2, Run(k), last);
      ExecStep(store, s3, Run(k), []);
      NothingRuns(store, s.(threads := s.threads + [Thread(job, Done)]));
    } else {
      var s4 := State(0, Allocate(s.memory, index, job), s.threads + [Thread(job, Recorded(index))]);
      LastMoves(s.threads, Thread(job, Decided(s.memory, index)), Thread(job, Recorded(index)));
      LastMoves(s.threads, Thread(job, Recorded(index)), Thread(job, Resident(index)));
      ExecStep(store, s, Spawn(job), [Run(k)] + ([Run(k)] + ([Run(k)] + last)));
      ExecStep(store, s1, Run(k), [Run(k)] + ([Run(k)] + last));
      ExecStep(store, s2, Run(k), [Run(k)] + last);
      ExecStep(store, s3, Run(k), last);
      ExecStep(store, s4, Run(k), []);
      NothingRuns(store, Arrived(s, index, job));
    }
  }

  /** And a sleeping thread can run to its end, crediting its partition. */
  lemma DepartureRuns(policy: Policy, s: State<Memory>, i: nat)
    requires s.sem == 1 && i < |s.threads| && s.threads[i].phase.Resident?
    ensures var t := s.threads[i];
      Exec(Partitions(policy), s, [Run(i)] + ([Run(i)] + ([Run(i)] + ([Run(i)] + []))))
      == Some(State(1, Release(s.memory, t.phase.index, t.job), s.threads[i := t.(phase := Done)]))
  {
    hide Search, Exec, Release;
    var store, t, last := Partitions(policy), s.threads[i], [Run(i)] + [];
    var index := t.phase.index;
    var after := Release(s.memory, index, t.job);
    var s1 := State(0, s.memory, s.threads[i := t.(phase := Reentered(index))]);
    var s2 := State(0, s.memory, s.threads[i := t.(phase := Ready(s.memory, index))]);
    var s3 := State(0, after, s.threads[i := t.(phase := Returned)]);
    ExecStep(store, s, Run(i), [Run(i)] + ([Run(i)] + last));
    MovesOn(s.threads, i, t.(phase := Reentered(index)), t.(phase := Ready(s.memory, index)));
    ExecStep(store, s1, Run(i), [Run(i)] + last);
    MovesOn(s.threads, i, t.(phase := Ready(s.memory, index)), t.(phase := Returned));
    ExecStep(store, s2, Run(i), last);
    MovesOn(s.threads, i, t.(phase := Returned), t.(phase := Done));
    ExecStep(store, s3, Run(i), []);
    NothingRuns(store, State(1, after, s.threads[i := t.(phase := Done)]));
  }

  lemma MovesOn<T>(ts: seq<T>, i: nat, t: T, u: T)
    requires i < |ts|
    ensures ts[i := t][i] == t && ts[i := t][i := u] == ts[i := u]
  {
  }

  lemma LastMoves<T>(ts: seq<T>, t: T, u: T)
    ensures (ts + [t])[|ts|] == t && (ts + [t])[|ts| := u] == ts + [u]
  {
  }

  lemma NothingRuns<M>(store: Store<M>, s: State<M>)
    ensures Exec(store, s, []) == Some(s)
  {
  }

  function FreeOf(part: Partition): int {
    part.free
  }

  /** Threads of size one can fill the memory completely. */
  lemma {:induction false} Fill(policy: Policy, s: State<Memory>, n: nat) returns (run: seq<Action>)
    requires Safe(policy, s) && Settled(s, n)
    ensures Exec(Partitions(policy), s, run).Some?
    ensures var end := Exec(Partitions(policy), s, run).value;
      Search(Free(end.memory), 1, policy) == -1 && exists n' :: Settled(end, n')
    decreases Sum(s.memory, FreeOf)
  {
    hide Safe, Exec;
    FreeIsNatural(policy, s);
    NothingRuns(Partitions(policy), s);
    var index := Search(Free(s.memory), 1, policy);
    if index == -1 {
      run := [];
    } else {
      var job := Job(n, 1, 0);
      var next, arrival := Arrived(s, index, job), Arrival(|s.threads|, job);
      ArrivalRuns(policy, s, job);
      ExecIsSafe(policy, s, arrival);
      SumUpdate(s.memory, index, next.memory[index], FreeOf);
      FreeIsNatural(policy, next);
      var rest := Fill(policy, next, n + 1);
      run := arrival + rest;
      ExecAppend(Partitions(policy), s, arrival, rest);
    }
  }

  lemma FreeIsNatural(policy: Policy, s: State<Memory>)
    requires Safe(policy, s)
    ensures Sum(s.memory, FreeOf) >= 0
  {
    forall p | 0 <= p < |s.memory|
      ensures FreeOf(s.memory[p]) >= 0
    {
      assert BalancedAt(s.memory[p], s.threads, p);
    }
    SumAtLeast(s.memory, FreeOf);
  }

  lemma {:induction false} SumOfOnes(ms: seq<Member<Job>>)
    requires forall k :: 0 <= k < |ms| ==> ms[k].value.size == 1
    ensures Sum(ms, EntrySize) == |ms|
  {
    if ms == [] {
    } else {
      SumOfOnes(ms[..|ms| - 1]);
    }
  }

  /** A full partition of more than 481 unit threads has residents that are not listed. */
  lemma FullIsNotListed(policy: Policy, s: State<Memory>, n: nat, p: int)
    requires Safe(policy, s) && Settled(s, n) && Search(Free(s.memory), 1, policy) == -1
    requires 0 <= p < |s.memory| && s.memory[p].size > LISTABLE_SIZE
    ensures !Listed(s)
  {
    var ms := s.memory[p].processes;
    assert BalancedAt(s.memory[p], s.threads, p) && BackedAt(ms, s.threads, p);
    assert Free(s.memory)[p] < 1;
    if ListedAt(ms, s.threads, p) {
      forall k | 0 <= k < |ms|
        ensures ms[k].value.size == 1
      {
        var j :| 0 <= j < |s.threads| && Occupies(s.threads[j], p) && s.threads[j].job == ms[k].value;
      }
      SumOfOnes(ms);
    }
  }

  /** In all runs the entries of every partition are its residents, exactly when no partition is larger than 481. */
  lemma EntriesAreResidentsExactly(policy: Policy, m: Memory)
    requires Untouched(m)
    ensures (forall run :: Exec(Partitions(policy), Initial(m), run).Some? ==>
               Listed(Exec(Partitions(policy), Initial(m), run).value))
      <==> Listable(m)
  {
    if Listable(m) {
      forall run | Exec(Partitions(policy), Initial(m), run).Some?
        ensures Listed(Exec(Partitions(policy), Initial(m), run).value)
      {
        RunsAreSafe(policy, m, run);
      }
    } else {
      var p :| 0 <= p < |m| && m[p].size > LISTABLE_SIZE;
      InitialIsSafe(policy, m);
      var run := Fill(policy, Initial(m), 0);
      var end := Exec(Partitions(policy), Initial(m), run).value;
      var n :| Settled(end, n);
      ExecIsSafe(policy, Initial(m), run);
      FullIsNotListed(policy, end, n, p);
    }
  }
}
