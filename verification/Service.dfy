/** What becomes of a thread over a whole run: whoever left was turned away for want of space, or has been in the
    partition that the policy promised. */
module Service {
  import opened Values
  import opened FitPolicies
  import opened Machine
  import opened Allocator
  import opened Saturation

  /** The state after the first `k` actions of a run. */
  function After(policy: Policy, m: Memory, run: seq<Action>, k: nat): Option<State<Memory>>
    requires k <= |run|
  {
    Exec(Partitions(policy), Initial(m), run[..k])
  }

  /** At that moment the thread had decided on the index, which is the promised one for its size in the memory of that
      moment. */
  ghost predicate DecidedAt(policy: Policy, m: Memory, run: seq<Action>, i: nat, k: nat, index: int) {
    k <= |run|
    && match After(policy, m, run, k)
       case None => false
       case Some(s) =>
         && i < |s.threads| && s.threads[i].phase.Decided? && s.threads[i].phase.index == index
         && Chosen(Free(s.memory), s.threads[i].job.size, policy, index)
  }

  ghost predicate ResidentAt(policy: Policy, m: Memory, run: seq<Action>, i: nat, k: nat, index: int) {
    k <= |run|
    && match After(policy, m, run, k)
       case None => false
       case Some(s) => i < |s.threads| && s.threads[i].phase == Resident(index)
  }

  ghost predicate Decision(policy: Policy, m: Memory, run: seq<Action>, i: nat, index: int) {
    exists k :: DecidedAt(policy, m, run, i, k, index)
  }

  /** The thread decided on this partition, and later slept in it. */
  ghost predicate Stayed(policy: Policy, m: Memory, run: seq<Action>, i: nat, index: int) {
    index >= 0
    && exists j, k :: j < k && DecidedAt(policy, m, run, i, j, index) && ResidentAt(policy, m, run, i, k, index)
  }

  /** What lies behind a thread, by the phase it has reached. */
  ghost predicate Behind(policy: Policy, m: Memory, run: seq<Action>, i: nat, phase: Phase<Memory>) {
    match phase
    case Waiting => true
    case Entered => true
    case Decided(_, index) => DecidedAt(policy, m, run, i, |run|, index)
    case Recorded(index) => index >= 0 && Decision(policy, m, run, i, index)
    case Resident(index) => Stayed(policy, m, run, i, index)
    case Reentered(index) => Stayed(policy, m, run, i, index)
    case Ready(_, index) => Stayed(policy, m, run, i, index)
    case Returned => exists index :: Stayed(policy, m, run, i, index)
    case Done => Decision(policy, m, run, i, -1) || exists index :: Stayed(policy, m, run, i, index)
  }

  lemma EarlierRun(policy: Policy, m: Memory, run: seq<Action>, a: Action, k: nat)
    requires k <= |run|
    ensures After(policy, m, run + [a], k) == After(policy, m, run, k)
  {
    assert (run + [a])[..k] == run[..k];
  }

  lemma BehindStays(policy: Policy, m: Memory, run: seq<Action>, a: Action, i: nat, index: int)
    ensures Decision(policy, m, run, i, index) ==> Decision(policy, m, run + [a], i, index)
    ensures Stayed(policy, m, run, i, index) ==> Stayed(policy, m, run + [a], i, index)
  {
    hide After;
    if k :| DecidedAt(policy, m, run, i, k, index) {
      EarlierRun(policy, m, run, a, k);
      assert DecidedAt(policy, m, run + [a], i, k, index);
    }
    if j, k :| j < k && DecidedAt(policy, m, run, i, j, index) && ResidentAt(policy, m, run, i, k, index) {
      EarlierRun(policy, m, run, a, j);
      EarlierRun(policy, m, run, a, k);
      assert DecidedAt(policy, m, run + [a], i, j, index) && ResidentAt(policy, m, run + [a], i, k, index);
    }
  }

  lemma AtTheEnd(policy: Policy, m: Memory, run: seq<Action>, s: State<Memory>, i: nat)
    requires Exec(Partitions(policy), Initial(m), run) == Some(s) && Fitting(policy, s) && i < |s.threads|
    ensures s.threads[i].phase.Decided? ==> DecidedAt(policy, m, run, i, |run|, s.threads[i].phase.index)
    ensures s.threads[i].phase.Resident? ==> ResidentAt(policy, m, run, i, |run|, s.threads[i].phase.index)
  {
    hide Exec, Chosen, Free, Partitions, Initial;
    assert run[..|run|] == run;
  }

  /** How a phase follows from the one before. */
  lemma PhaseBefore(policy: Policy, s: State<Memory>, a: Action, i: nat)
    requires Step(Partitions(policy), s, a).Some? && i < |Step(Partitions(policy), s, a).value.threads|
    ensures i >= |s.threads| ==> Step(Partitions(policy), s, a).value.threads[i].phase.Waiting?
    ensures i < |s.threads| ==>
      var was, now := s.threads[i].phase, Step(Partitions(policy), s, a).value.threads[i].phase;
      now == was
      || match now
         case Waiting => false
         case Entered => was.Waiting?
         case Decided(_, _) => was.Entered?
         case Recorded(index) => was.Decided? && was.index == index && index != -1
         case Resident(index) => was == Recorded(index)
         case Reentered(index) => was == Resident(index)
         case Ready(_, index) => was == Reentered(index)
         case Returned => was.Ready?
         case Done => was.Returned? || (was.Decided? && was.index == -1)
  {
    hide Search, Allocate, Release;
  }

  /** One step further. */
  lemma StepLeavesBehind(policy: Policy, m: Memory, run: seq<Action>, a: Action, s: State<Memory>, next: State<Memory>,
                         i: nat)
    requires Safe(policy, s) && Step(Partitions(policy), s, a) == Some(next)
    requires Safe(policy, next) && Exec(Partitions(policy), Initial(m), run + [a]) == Some(next)
    requires i < |next.threads| && (i < |s.threads| ==> Behind(policy, m, run, i, s.threads[i].phase))
    ensures Behind(policy, m, run + [a], i, next.threads[i].phase)
  {
    var more := run + [a];
    AtTheEnd(policy, m, more, next, i);
    PhaseBefore(policy, s, a, i);
    hide Step, Safe, Exec, DecidedAt, ResidentAt;
    var now := next.threads[i].phase;
    if i < |s.threads| {
      var was := s.threads[i].phase;
      if was.Decided? {
        BehindStays(policy, m, run, a, i, was.index);
        assert Decision(policy, m, run, i, was.index);
        DecidedInRange(policy, m, run, i, |run|, was.index);
      } else if was.Recorded? {
        BehindStays(policy, m, run, a, i, was.index);
        if now.Resident? {
          MovedIn(policy, m, run, a, i, was.index);
        }
      } else if Home(s.threads[i]).Some? {
        BehindStays(policy, m, run, a, i, Home(s.threads[i]).value);
      } else {
        BehindStays(policy, m, run, a, i, -1);
        if index :| Stayed(policy, m, run, i, index) {
          BehindStays(policy, m, run, a, i, index);
        }
      }
    }
  }

  lemma DecidedInRange(policy: Policy, m: Memory, run: seq<Action>, i: nat, k: nat, index: int)
    requires DecidedAt(policy, m, run, i, k, index)
    ensures index >= -1
  {
  }

  lemma MovedIn(policy: Policy, m: Memory, run: seq<Action>, a: Action, i: nat, index: int)
    requires index >= 0 && Decision(policy, m, run, i, index)
    requires ResidentAt(policy, m, run + [a], i, |run + [a]|, index)
    ensures Stayed(policy, m, run + [a], i, index)
  {
    var k :| DecidedAt(policy, m, run, i, k, index);
    EarlierRun(policy, m, run, a, k);
    assert DecidedAt(policy, m, run + [a], i, k, index);
  }

  lemma {:induction false} EveryPhaseIsEarned(policy: Policy, m: Memory, run: seq<Action>, i: nat)
    requires Untouched(m) && Exec(Partitions(policy), Initial(m), run).Some?
    requires i < |Exec(Partitions(policy), Initial(m), run).value.threads|
    ensures Behind(policy, m, run, i, Exec(Partitions(policy), Initial(m), run).value.threads[i].phase)
    decreases |run|
  {
    hide Safe, Step, Behind, Partitions;
    if run == [] {
    } else {
      var before, a := run[..|run| - 1], run[|run| - 1];
      assert run == before + [a];
      InitialIsSafe(policy, m);
      LastStep(policy, m, before, a);
      var s := Exec(Partitions(policy), Initial(m), before).value;
      var next := Step(Partitions(policy), s, a).value;
      ExecIsSafe(policy, Initial(m), before);
      StepIsSafe(policy, s, a);
      if i < |s.threads| {
        EveryPhaseIsEarned(policy, m, before, i);
      }
      StepLeavesBehind(policy, m, before, a, s, next, i);
    }
  }

  lemma {:induction false} PrefixRuns<M>(store: Store<M>, s: State<M>, run: seq<Action>, a: Action)
    requires Exec(store, s, run + [a]).Some?
    ensures Exec(store, s, run).Some?
    decreases |run|
  {
    hide Step;
    if run == [] {
    } else {
      assert (run + [a])[0] == run[0] && (run + [a])[1..] == run[1..] + [a];
      PrefixRuns(store, Step(store, s, run[0]).value, run[1..], a);
    }
  }

  lemma LastStep(policy: Policy, m: Memory, run: seq<Action>, a: Action)
    requires Exec(Partitions(policy), Initial(m), run + [a]).Some?
    ensures Exec(Partitions(policy), Initial(m), run).Some?
    ensures var s := Exec(Partitions(policy), Initial(m), run).value;
      Exec(Partitions(policy), Initial(m), run + [a]) == Step(Partitions(policy), s, a)
  {
    hide Step, Exec;
    PrefixRuns(Partitions(policy), Initial(m), run, a);
    ExecAppend(Partitions(policy), Initial(m), run, [a]);
    OneAction(Partitions(policy), Exec(Partitions(policy), Initial(m), run).value, a);
  }

  lemma OneAction<M>(store: Store<M>, s: State<M>, a: Action)
    ensures Exec(store, s, [a]) == Step(store, s, a)
  {
    hide Step;
    assert [a][1..] == [];
  }

  /** A thread that has left was, at some moment, refused because every partition had less free space than its size, or
      it has decided on the partition that the policy promises, and slept there. */
  lemma LeaversWereServed(policy: Policy, m: Memory, run: seq<Action>, i: nat)
    requires Untouched(m) && Exec(Partitions(policy), Initial(m), run).Some?
    requires var end := Exec(Partitions(policy), Initial(m), run).value;
      i < |end.threads| && end.threads[i].phase.Done?
    ensures (exists k :: DecidedAt(policy, m, run, i, k, -1)) || exists index :: Stayed(policy, m, run, i, index)
  {
    EveryPhaseIsEarned(policy, m, run, i);
  }

  /** A thread that holds space in a partition decided on it when it was the promised one. */
  lemma ResidentsWereChosen(policy: Policy, m: Memory, run: seq<Action>, i: nat)
    requires Untouched(m) && Exec(Partitions(policy), Initial(m), run).Some?
    requires var end := Exec(Partitions(policy), Initial(m), run).value;
      i < |end.threads| && Home(end.threads[i]).Some?
    ensures var end := Exec(Partitions(policy), Initial(m), run).value;
      exists k :: DecidedAt(policy, m, run, i, k, Home(end.threads[i]).value)
  {
    EveryPhaseIsEarned(policy, m, run, i);
  }
}
