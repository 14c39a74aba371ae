/** The changes of worker_thread, made in place on a memory value that lives in the heap. */
module ProducerTree {
  import opened CText
  import opened Numbers
  import opened Values
  import opened Tables
  import opened Containers
  import opened DotPaths
  import opened FitPolicies
  import opened Machine
  import opened MemoryValue
  import opened HeapTrees
  import opened DotPathsCode

  lemma ScalarOwned(h: Handle, v: Value, r: Regions)
    requires Owns(h, v, r)
    ensures h.HScalar? ==> h.node in r.all && h.node.content == v
    ensures v.Num? ==> h.HScalar?
  {
  }

  lemma FoundOwned(o: JsonObject<Handle>, t: Table<Value>, r: Regions, name: Bytes)
    requires OwnsObject(o, t, r)
    ensures o.Valid()
    ensures match Lookup(o.Members(), name)
            case None => NumberUnder(AsObject(t), name) == 0
            case Some(h) =>
              && (h.HScalar? ==> h.node in r.all)
              && NumberUnder(AsObject(t), name)
                 == if h.HScalar? && h.node.content.Num? then Truncate(h.node.content.x) else 0
  {
    Opened(o, t, r);
    MembersNamed(o.Members(), t.members, r.parts, name);
    RegionOf({o, o.names, o.values}, r);
    hide Owns, OwnsObject, OwnsMembers, Apart, Inner, Lookup, IndexOf, JsonObject.Members, JsonObject.Valid, Truncate;
    var i := IndexOf(t.members, name);
    if i < |t.members| {
      ScalarOwned(o.Members()[i].value, t.members[i].value, r.parts[i]);
    }
  }

  /** json_object_get_number, as an int */
  method NumberHere(o: JsonObject<Handle>, name: Bytes, ghost t: Table<Value>, ghost r: Regions) returns (n: int)
    requires OwnsObject(o, t, r)
    ensures n == NumberUnder(AsObject(t), name)
  {
    hide *;
    FoundOwned(o, t, r, name);
    var h := o.Get(name);
    if h.Some? && h.value.HScalar? && h.value.node.content.Num? {
      return Truncate(h.value.node.content.x);
    }
    return 0;
  }

  lemma SetIsApplied(t: Table<Value>, name: Bytes, n: int)
    ensures MemoryValue.Set(t, name, NumberOf(n)) == Applied(t, PutOp(name, NumberOf(n))) && NumberOf(n).Num?
  {
  }

  /** json_object_set_number */
  method SetNumber(o: JsonObject<Handle>, name: Bytes, n: int, ghost t: Table<Value>, ghost r: Regions)
    returns (ghost left: Regions)
    requires OwnsObject(o, t, r)
    modifies o, o.names, o.values
    ensures OwnsObject(o, MemoryValue.Set(t, name, NumberOf(n)), left) && fresh(left.all - r.all)
  {
    hide *;
    SetIsApplied(t, name, n);
    var h, part := NewScalar(NumberOf(n));
    var ok;
    ok, left := SetHere(o, name, h, t, r, NumberOf(n), part);
  }

  lemma JobIsObject(o: JsonObject<Handle>, job: Job, r: Regions)
    requires OwnsObject(o, MemoryValue.Set(MemoryValue.Set(Table([], 0), SIZE, NumberOf(job.size)),
                                           DELAY, NumberOf(job.delay)), r)
    ensures Owns(HObj(o), JobValue(job), r)
  {
  }

  /** The object with the job's size and delay. */
  method NewJob(job: Job) returns (h: Handle, ghost r: Regions)
    ensures Owns(h, JobValue(job), r) && fresh(r.all)
  {
    hide *;
    var o := new JsonObject<Handle>();
    ghost var empty: Table<Value> := Table([], 0);
    EmptyObjectOwned(o);
    r := Regions({o, o.names, o.values}, []);
    OwnsEmpty(o, r);
    r := SetNumber(o, SIZE, job.size, empty, r);
    Opened(o, MemoryValue.Set(empty, SIZE, NumberOf(job.size)), r);
    RegionOf({o, o.names, o.values}, r);
    r := SetNumber(o, DELAY, job.delay, MemoryValue.Set(empty, SIZE, NumberOf(job.size)), r);
    JobIsObject(o, job, r);
    return HObj(o), r;
  }

  lemma OwnsEmpty(o: JsonObject<Handle>, r: Regions)
    requires Owns(HObj(o), Obj([], 0), r)
    ensures OwnsObject(o, Table([], 0), r)
  {
  }

  lemma DebitUnfolds(t: Table<Value>, job: Job)
    ensures var debited := MemoryValue.Set(t, FREE_SPACE, NumberOf(NumberUnder(AsObject(t), FREE_SPACE) - job.size));
      match ObjectUnder(debited.members, PROCESSES)
      case None => DebitedPartition(t, job) == debited
      case Some(processes) =>
        DebitedPartition(t, job)
          == Update(debited, PROCESSES, AsObject(Applied(processes, PutOp(Digits(job.tid), JobValue(job)))))
  {
    hide Applied, ObjectUnder, Update, JobValue, NumberUnder, Digits;
  }

  /** The partition pays for the job, and takes its entry. */
  method DebitHere(o: JsonObject<Handle>, job: Job, ghost t: Table<Value>, ghost r: Regions)
    returns (ghost left: Regions)
    requires OwnsObject(o, t, r)
    modifies r.all
    ensures OwnsObject(o, DebitedPartition(t, job), left) && fresh(left.all - r.all)
  {
    hide *;
    Opened(o, t, r);
    RegionOf({o, o.names, o.values}, r);
    DebitUnfolds(t, job);
    var free := NumberHere(o, FREE_SPACE, t, r);
    left := SetNumber(o, FREE_SPACE, free - job.size, t, r);
    ghost var debited, paid := MemoryValue.Set(t, FREE_SPACE, NumberOf(free - job.size)), left;
    ChildOpened(o, debited, paid, PROCESSES);
    var processes := o.Get(PROCESSES);
    var entry, part := NewJob(job);
    if processes.Some? && processes.value.HObj? {
      left := EnterJob(o, processes.value.o, entry, job, debited, paid, part);
    }
  }

  method EnterJob(o: JsonObject<Handle>, processes: JsonObject<Handle>, entry: Handle, job: Job,
                  ghost t: Table<Value>, ghost r: Regions, ghost part: Regions)
    returns (ghost left: Regions)
    requires OwnsObject(o, t, r) && Lookup(o.Members(), PROCESSES) == Some(HObj(processes))
    requires Owns(entry, JobValue(job), part) && part.all !! r.all
    modifies r.all
    ensures ObjectUnder(t.members, PROCESSES).Some?
    ensures var inner := ObjectUnder(t.members, PROCESSES).value;
      OwnsObject(o, Update(t, PROCESSES, AsObject(Applied(inner, PutOp(Digits(job.tid), JobValue(job))))), left)
    ensures fresh(left.all - r.all - part.all)
  {
    hide *;
    ChildOpened(o, t, r, PROCESSES);
    Opened(o, t, r);
    RegionOf({o, o.names, o.values}, r);
    OthersOwned(o.AsTable().members, t.members, r.parts);
    ghost var i, inner := IndexOf(t.members, PROCESSES), ObjectUnder(t.members, PROCESSES).value;
    Opened(processes, inner, r.parts[i]);
    RegionOf({processes, processes.names, processes.values}, r.parts[i]);
    var ok;
    ghost var rebuilt;
    ok, rebuilt := SetHere(processes, Digits(job.tid), entry, inner, r.parts[i], JobValue(job), part);
    left := Rebuilt(o, t, r, PROCESSES, processes, Applied(inner, PutOp(Digits(job.tid), JobValue(job))), rebuilt,
                    rebuilt.all - r.parts[i].all);
  }

  lemma CreditUnfolds(t: Table<Value>, job: Job)
    ensures var credited := MemoryValue.Set(t, FREE_SPACE, NumberOf(NumberUnder(AsObject(t), FREE_SPACE) + job.size));
      CreditedPartition(t, job) == DotRemove(credited, PROCESSES + [DOT] + Digits(job.tid)).table
  {
    hide DotRemove, MemoryValue.Set, NumberUnder, Digits;
  }

  /** The partition gets the space back, and loses the entry. */
  method CreditHere(o: JsonObject<Handle>, job: Job, ghost t: Table<Value>, ghost r: Regions)
    returns (ghost left: Regions)
    requires OwnsObject(o, t, r)
    modifies r.all
    ensures OwnsObject(o, CreditedPartition(t, job), left) && fresh(left.all - r.all)
  {
    hide *;
    Opened(o, t, r);
    RegionOf({o, o.names, o.values}, r);
    CreditUnfolds(t, job);
    var free := NumberHere(o, FREE_SPACE, t, r);
    left := SetNumber(o, FREE_SPACE, free + job.size, t, r);
    var ok;
    ghost var credited := MemoryValue.Set(t, FREE_SPACE, NumberOf(free + job.size));
    ok, left := RemovePath(o, PROCESSES + [DOT] + Digits(job.tid), credited, left);
  }

  // ---- One element of the memory ----

  lemma ElementOpened(a: JsonArray<Handle>, items: seq<Value>, capacity: nat, r: Regions, i: nat)
    requires Owns(HArr(a), Arr(items, capacity), r) && i < |items|
    ensures a.Valid() && a.count == |items| == |r.parts| && a.items[i].Set? && a.items[i].content == a.Items()[i]
    ensures Owns(a.Items()[i], items[i], r.parts[i]) && (a.Items()[i].HObj? <==> items[i].Obj?)
  {
  }

  lemma ObjectOpened(o: JsonObject<Handle>, v: Value, r: Regions)
    requires Owns(HObj(o), v, r)
    ensures v.Obj? && OwnsObject(o, Table(v.members, v.capacity), r)
  {
  }

  /** json_array_get_object */
  method ObjectAt(h: Handle, index: int, ghost v: Value, ghost r: Regions) returns (o: Option<JsonObject<Handle>>)
    requires Owns(h, v, r)
    ensures o.Some? <==> v.Arr? && 0 <= index < |v.items| && v.items[index].Obj?
    ensures o.Some? ==>
      && h.HArr? && h.a.Valid() && index < |h.a.Items()| && h.a.Items()[index] == HObj(o.value)
      && index < |r.parts|
      && OwnsObject(o.value, Table(v.items[index].members, v.items[index].capacity), r.parts[index])
  {
    hide *;
    WhichContainer(h, v, r);
    if !h.HArr? {
      return None;
    }
    ArrayOpened(h.a, v.items, v.capacity, r);
    if index < 0 || h.a.count <= index {
      return None;
    }
    ElementOpened(h.a, v.items, v.capacity, r, index);
    match h.a.items[index].content
    case HObj(found) =>
      ObjectOpened(found, v.items[index], r.parts[index]);
      return Some(found);
    case _ => return None;
  }

  lemma WhichContainer(h: Handle, v: Value, r: Regions)
    requires Owns(h, v, r)
    ensures h.HArr? <==> v.Arr?
  {
  }

  lemma ItemsOwned(hs: seq<Handle>, items: seq<Value>, parts: seq<Regions>)
    requires OwnsItems(hs, items, parts)
    ensures |hs| == |items| == |parts| && forall j :: 0 <= j < |items| ==> Owns(hs[j], items[j], parts[j])
  {
  }

  lemma OwnsItemRebuilt(hs: seq<Handle>, items: seq<Value>, parts: seq<Regions>, i: nat, v: Value, part: Regions)
    requires |hs| == |items| == |parts| && i < |items| && Owns(hs[i], v, part)
    requires forall j :: 0 <= j < |items| && j != i ==> Owns(hs[j], items[j], parts[j])
    ensures OwnsItems(hs, items[i := v], parts[i := part])
  {
    hide Owns;
    PartsAreInner(parts[i := part]);
  }

  lemma ChangesUnfold(v: Value, index: int, job: Job)
    ensures if v.Arr? && 0 <= index < |v.items| && v.items[index].Obj? then
        var t := Table(v.items[index].members, v.items[index].capacity);
        && Debited(v, index, job) == Arr(v.items[index := AsObject(DebitedPartition(t, job))], v.capacity)
        && Credited(v, index, job) == Arr(v.items[index := AsObject(CreditedPartition(t, job))], v.capacity)
      else
        Debited(v, index, job) == v && Credited(v, index, job) == v
  {
    hide DebitedPartition, CreditedPartition;
  }

  lemma AsOwned(o: JsonObject<Handle>, t: Table<Value>, r: Regions)
    requires OwnsObject(o, t, r)
    ensures Owns(HObj(o), AsObject(t), r)
  {
  }

  /** The object at `i` was changed in place: what the whole array now stands for. */
  lemma ItemRebuilt(a: JsonArray<Handle>, items: seq<Value>, r: Regions, i: nat,
                    o: JsonObject<Handle>, t: Table<Value>, part: Regions, added: set<object>) returns (left: Regions)
    requires a.Valid() && Apart({a, a.items}, r) && a.count == |items| == |r.parts| && i < |items|
    requires a.Items()[i] == HObj(o) && OwnsObject(o, t, part)
    requires part.all <= r.parts[i].all + added && added !! r.all
    requires forall j :: 0 <= j < |items| && j != i ==> Owns(a.Items()[j], items[j], r.parts[j])
    ensures Owns(HArr(a), Arr(items[i := AsObject(t)], a.capacity), left) && left.all <= r.all + added
  {
    hide *;
    AsOwned(o, t, part);
    OwnsItemRebuilt(a.Items(), items, r.parts, i, AsObject(t), part);
    ApartRebuilt({a, a.items}, r, i, part, added);
    RegionOf({a, a.items}, r);
    left := Regions({a, a.items} + Inner(r.parts[i := part]), r.parts[i := part]);
    ArrayClosed(a, items[i := AsObject(t)], left);
  }

  /** producer.c lines 131-143: search has chosen `index`. */
  method Debit(h: Handle, index: int, job: Job, ghost v: Value, ghost r: Regions) returns (ghost left: Regions)
    requires Owns(h, v, r)
    modifies r.all
    ensures Owns(h, Debited(v, index, job), left) && fresh(left.all - r.all)
  {
    hide *;
    ChangesUnfold(v, index, job);
    var o := ObjectAt(h, index, v, r);
    left := r;
    if o.Some? {
      ghost var items, t, part := v.items, Table(v.items[index].members, v.items[index].capacity), r.parts[index];
      ArrayOpened(h.a, items, v.capacity, r);
      RegionOf({h.a, h.a.items}, r);
      ItemsOwned(h.a.Items(), items, r.parts);
      part := DebitHere(o.value, job, t, part);
      left := ItemRebuilt(h.a, items, r, index, o.value, DebitedPartition(t, job), part,
                          part.all - r.parts[index].all);
    }
  }

  /** producer.c lines 158-167, on the memory as it was read back. */
  method Credit(h: Handle, index: int, job: Job, ghost v: Value, ghost r: Regions) returns (ghost left: Regions)
    requires Owns(h, v, r)
    modifies r.all
    ensures Owns(h, Credited(v, index, job), left) && fresh(left.all - r.all)
  {
    hide *;
    ChangesUnfold(v, index, job);
    var o := ObjectAt(h, index, v, r);
    left := r;
    if o.Some? {
      ghost var items, t, part := v.items, Table(v.items[index].members, v.items[index].capacity), r.parts[index];
      ArrayOpened(h.a, items, v.capacity, r);
      RegionOf({h.a, h.a.items}, r);
      ItemsOwned(h.a.Items(), items, r.parts);
      part := CreditHere(o.value, job, t, part);
      left := ItemRebuilt(h.a, items, r, index, o.value, CreditedPartition(t, job), part,
                          part.all - r.parts[index].all);
    }
  }
}
