/** search_index: best, first and worst fit over the free space of the partitions. */
module FitPolicies {
  import opened CText
  import opened Values

  datatype Policy = BestFit | FirstFit | WorstFit

  /** What each policy promises of the index it returns; -1 stands for no partition. */
  ghost predicate Chosen(free: seq<int>, size: int, policy: Policy, index: int) {
    && -1 <= index < |free|
    && (index == -1 ==> forall j :: 0 <= j < |free| ==> free[j] < size)
    && (index >= 0 ==> free[index] >= size)
    && (index >= 0 && policy.FirstFit? ==> forall j :: 0 <= j < index ==> free[j] < size)
    && (index >= 0 && policy.BestFit? ==>
          forall j :: 0 <= j < |free| && free[j] >= size ==>
            free[index] <= free[j] && (j < index ==> free[index] < free[j]))
    && (index >= 0 && policy.WorstFit? ==>
          forall j :: 0 <= j < |free| && free[j] >= size ==>
            free[index] >= free[j] && (j < index ==> free[index] > free[j]))
  }

  /** The promise leaves no choice. */
  lemma ChosenIsUnique(free: seq<int>, size: int, policy: Policy, i: int, j: int)
    requires Chosen(free, size, policy, i) && Chosen(free, size, policy, j)
    ensures i == j
  {
  }

  /** Whether a process is admitted does not depend on the policy. */
  lemma AdmissionIgnoresPolicy(free: seq<int>, size: int, p: Policy, q: Policy, i: int, j: int)
    requires Chosen(free, size, p, i) && Chosen(free, size, q, j)
    ensures i == -1 <==> j == -1
  {
  }

  /** One more partition has been looked at. */
  function Better(free: seq<int>, size: int, policy: Policy, index: int, i: int): int
    requires 0 <= i < |free| && -1 <= index < i
  {
    if free[i] < size then index
    else if index == -1 then i
    else
      match policy
      case FirstFit => index
      case BestFit => if free[index] > free[i] then i else index
      case WorstFit => if free[index] < free[i] then i else index
  }

  function Search(free: seq<int>, size: int, policy: Policy): (index: int)
    ensures Chosen(free, size, policy, index)
  {
    if free == [] then -1
    else
      var last := |free| - 1;
      assert forall j :: 0 <= j < last ==> free[..last][j] == free[j];
      Better(free, size, policy, Search(free[..last], size, policy), last)
  }

  // ---- On the memory value ----

  const FREE_SPACE: Bytes := [102, 114, 101, 101, 95, 115, 112, 97, 99, 101]

  /** Conversion of a double to int drops the fraction. */
  function Truncate(x: real): int {
    if x >= 0.0 then x.Floor else -((-x).Floor)
  }

  /** The nearest integer towards zero. */
  lemma TruncatesTowardsZero(x: real)
    ensures x >= 0.0 ==> 0.0 <= Truncate(x) as real <= x < Truncate(x) as real + 1.0
    ensures x <= 0.0 ==> Truncate(x) as real - 1.0 < x <= Truncate(x) as real <= 0.0
  {
  }

  /** json_object_get_number, as an int: zero where there is no such number. */
  function NumberUnder(v: Value, name: Bytes): int {
    if v.Obj? && Lookup(v.members, name).Some? && Lookup(v.members, name).value.Num?
    then Truncate(Lookup(v.members, name).value.x) else 0
  }

  function FreeSpaces(items: seq<Value>): (free: seq<int>)
    ensures |free| == |items| && forall i :: 0 <= i < |items| ==> free[i] == NumberUnder(items[i], FREE_SPACE)
  {
    seq(|items|, i requires 0 <= i < |items| => NumberUnder(items[i], FREE_SPACE))
  }

  lemma SearchMore(free: seq<int>, size: int, policy: Policy, i: nat)
    requires i < |free|
    ensures Search(free[..i + 1], size, policy) == Better(free, size, policy, Search(free[..i], size, policy), i)
  {
  }

  /** The first fit among the first partitions is the first fit among all. */
  lemma FirstFitStops(free: seq<int>, size: int, i: nat)
    requires i <= |free| && Search(free[..i], size, FirstFit) != -1
    ensures Search(free, size, FirstFit) == Search(free[..i], size, FirstFit)
  {
  }

  method SearchIndex(items: seq<Value>, size: int, policy: Policy) returns (index: int)
    ensures Chosen(FreeSpaces(items), size, policy, index)
    ensures index == Search(FreeSpaces(items), size, policy)
  {
    hide Search, Chosen, NumberUnder;
    ghost var free := FreeSpaces(items);
    index := -1;
    EmptySearch(size, policy);
    for i := 0 to |items|
      invariant -1 <= index < i
      invariant index == Search(free[..i], size, policy) && (policy.FirstFit? ==> index == -1)
    {
      var actual, previous := NumberUnder(items[i], FREE_SPACE), 0;
      SearchMore(free, size, policy, i);
      if actual >= size {
        if policy == FirstFit {
          index := i;
          FirstFitStops(free, size, i + 1);
          return;
        }
        if index != -1 {
          previous := NumberUnder(items[index], FREE_SPACE);
        }
        if index == -1 || (if policy == BestFit then previous > actual else previous < actual) {
          index := i;
        }
      }
    }
    assert free[..|items|] == free;
  }

  lemma EmptySearch(size: int, policy: Policy)
    ensures Search([], size, policy) == -1
  {
  }
}
