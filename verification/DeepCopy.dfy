/** json_value_deep_copy, on values that live in the heap. */
module DeepCopy {
  import opened CText
  import opened Values
  import opened Tables
  import opened Containers
  import opened HeapTrees

  /** The capacity after `n` additions to an empty container. */
  function Grown(n: nat): nat {
    if n == 0 then 0 else CapacityAfterAdd(n - 1, Grown(n - 1))
  }

  function PowerOfTwo(k: nat): nat {
    if k == 0 then 1 else 2 * PowerOfTwo(k - 1)
  }

  /** It is the least of 15, 30, 60 and so on that holds the elements. */
  lemma {:induction false} GrownExactly(n: nat) returns (k: nat)
    requires n > 0
    ensures Grown(n) == 15 * PowerOfTwo(k) && n <= Grown(n)
    ensures k > 0 ==> 15 * PowerOfTwo(k - 1) < n
  {
    if n == 1 {
      k := 0;
      assert Grown(0) == 0 && PowerOfTwo(0) == 1;
    } else {
      k := GrownExactly(n - 1);
      var before := Grown(n - 1);
      assert Grown(n) == if n - 1 < before then before else Doubled(before);
      if n - 1 == before {
        assert PowerOfTwo(k + 1) == 2 * PowerOfTwo(k);
        assert 15 * PowerOfTwo(k + 1) == before * 2;
        k := k + 1;
      }
    }
  }

  /** The value as rebuilt element by element from empty containers. */
  function Regrown(v: Value): Value
    decreases v, 0
  {
    match v
    case Arr(items, _) => Arr(RegrownItems(items), Grown(|items|))
    case Obj(ms, _) => Obj(RegrownMembers(ms), Grown(|ms|))
    case _ => v
  }

  function RegrownItems(items: seq<Value>): (r: seq<Value>)
    ensures |r| == |items| && forall i :: 0 <= i < |r| ==> r[i] == Regrown(items[i])
    decreases items, 1
  {
    if items == [] then [] else [Regrown(items[0])] + RegrownItems(items[1..])
  }

  function RegrownMembers(ms: seq<Member<Value>>): (r: seq<Member<Value>>)
    ensures |r| == |ms| && forall i :: 0 <= i < |r| ==> r[i] == Member(ms[i].name, Regrown(ms[i].value))
    decreases ms, 1
  {
    if ms == [] then [] else [Member(ms[0].name, Regrown(ms[0].value))] + RegrownMembers(ms[1..])
  }

  /** Same value, same member order; only the capacities differ. */
  lemma {:induction false} RegrownIsSame(v: Value)
    ensures SameValue(Regrown(v), v)
  {
    match v
    case Arr(items, _) =>
      forall i | 0 <= i < |items|
        ensures SameValue(Regrown(items[i]), items[i])
      {
        RegrownIsSame(items[i]);
      }
      assert TrimmedItems(RegrownItems(items)) == TrimmedItems(items);
    case Obj(ms, _) =>
      forall i | 0 <= i < |ms|
        ensures SameValue(Regrown(ms[i].value), ms[i].value)
      {
        RegrownIsSame(ms[i].value);
      }
      assert TrimmedMembers(RegrownMembers(ms)) == TrimmedMembers(ms);
    case _ =>
  }

  /** The copy always succeeds, stands for the same value, and is a tree of newly allocated nodes only, down to its
      scalars. */
  method Copy(h: Handle, ghost v: Value, ghost r: Regions) returns (copy: Handle, ghost tree: Regions)
    requires Owns(h, v, r)
    ensures Owns(copy, Regrown(v), tree) && fresh(tree.all)
    decreases v, 1
  {
    match h
    case HArr(a) => copy, tree := CopyArray(a, v.items, v.capacity, r);
    case HObj(o) => copy, tree := CopyObject(o, Table(v.members, v.capacity), r);
    case HScalar(node) => copy, tree := NewScalar(node.content);
  }

  lemma ItemOpened(a: JsonArray<Handle>, items: seq<Value>, capacity: nat, r: Regions, i: nat)
    requires Owns(HArr(a), Arr(items, capacity), r) && i < |items|
    ensures a.Valid() && i < |a.Items()| && i < a.items.Length && a.items[i].Set? && a.items[i].content == a.Items()[i]
    ensures i < |r.parts| && Owns(a.items[i].content, items[i], r.parts[i])
  {
  }

  lemma EmptyArrayOwned(a: JsonArray<Handle>)
    requires a.Valid() && a.Items() == [] && a.capacity == 0
    ensures Owns(HArr(a), Arr([], Grown(0)), Regions({a, a.items}, [])) && GrownArray(Grown(0))
  {
  }

  /** The next item finds room: doubling from empty reaches every count up to the limit. */
  lemma NextItem(items: seq<Value>, i: nat)
    requires i < |items| <= ARRAY_MAX_CAPACITY && GrownArray(Grown(i)) && i <= Grown(i)
    ensures HasRoom(i, Grown(i), ARRAY_MAX_CAPACITY) && CapacityAfterAdd(i, Grown(i)) == Grown(i + 1)
    ensures GrownArray(Grown(i + 1)) && i + 1 <= Grown(i + 1)
    ensures RegrownItems(items)[..i + 1] == RegrownItems(items)[..i] + [Regrown(items[i])]
  {
    hide Regrown, RegrownItems;
    GrowthReachesLimit(i, Grown(i));
  }

  lemma ArrayLimits(a: JsonArray<Handle>, items: seq<Value>, capacity: nat, r: Regions)
    requires Owns(HArr(a), Arr(items, capacity), r)
    ensures a.count == |items| <= ARRAY_MAX_CAPACITY
    ensures Regrown(Arr(items, capacity)) == Arr(RegrownItems(items), Grown(|items|))
    ensures RegrownItems(items)[..|items|] == RegrownItems(items) && RegrownItems(items)[..0] == []
  {
  }

  /** json_array_add fails in no round. */
  method CopyArray(a: JsonArray<Handle>, ghost items: seq<Value>, ghost capacity: nat, ghost r: Regions)
    returns (h: Handle, ghost tree: Regions)
    requires Owns(HArr(a), Arr(items, capacity), r)
    ensures Owns(h, Regrown(Arr(items, capacity)), tree) && fresh(tree.all)
    decreases items, 0
  {
    hide *;
    ArrayLimits(a, items, capacity, r);
    var copy := new JsonArray<Handle>();
    EmptyArrayOwned(copy);
    tree := Regions({copy, copy.items}, []);
    var i := 0;
    while i < a.count
      invariant 0 <= i <= a.count == |items| <= ARRAY_MAX_CAPACITY
      invariant GrownArray(Grown(i)) && i <= Grown(i)
      invariant Owns(HArr(copy), Arr(RegrownItems(items)[..i], Grown(i)), tree) && fresh(tree.all)
    {
      ItemOpened(a, items, capacity, r, i);
      var child, part := Copy(a.items[i].content, items[i], r.parts[i]);
      NextItem(items, i);
      ArrayOpened(copy, RegrownItems(items)[..i], Grown(i), tree);
      RegionOf({copy, copy.items}, tree);
      var ok;
      ok, tree := AddItem(copy, child, RegrownItems(items)[..i], Grown(i), tree, Regrown(items[i]), part);
      assert ok;
      i := i + 1;
    }
    return HArr(copy), tree;
  }

  /** Looking a name up gives the member it was read from, as names are distinct. */
  lemma MemberOpened(o: JsonObject<Handle>, t: Table<Value>, r: Regions, i: nat)
    requires OwnsObject(o, t, r) && i < |t.members|
    ensures o.Valid() && i < o.names.Length && o.names[i].Set? && o.names[i].content == t.members[i].name
    ensures i < |r.parts| && Lookup(o.Members(), t.members[i].name).Some?
    ensures Owns(Lookup(o.Members(), t.members[i].name).value, t.members[i].value, r.parts[i])
  {
    Opened(o, t, r);
    OthersOwned(o.Members(), t.members, r.parts);
    hide Owns, OwnsMembers;
    LookupUnique(o.Members(), i);
  }

  /** What the copy holds after `i` rounds. */
  function CopiedTable(ms: seq<Member<Value>>, i: nat): Table<Value>
    requires i <= |ms|
  {
    Table(RegrownMembers(ms)[..i], Grown(i))
  }

  lemma EmptyCopyOwned(o: JsonObject<Handle>, ms: seq<Member<Value>>)
    requires o.Valid() && o.AsTable() == Table([], 0)
    ensures OwnsObject(o, CopiedTable(ms, 0), Regions({o, o.names, o.values}, [])) && GrownObject(Grown(0))
  {
  }

  lemma ObjectLimits(o: JsonObject<Handle>, t: Table<Value>, r: Regions)
    requires OwnsObject(o, t, r)
    ensures o.count == |t.members| <= OBJECT_MAX_CAPACITY && UniqueNames(t.members)
  {
    Opened(o, t, r);
    OthersOwned(o.Members(), t.members, r.parts);
  }

  lemma WholeCopyOwned(o: JsonObject<Handle>, t: Table<Value>, r: Regions)
    requires OwnsObject(o, CopiedTable(t.members, |t.members|), r)
    ensures Owns(HObj(o), Regrown(AsObject(t)), r)
  {
    assert RegrownMembers(t.members)[..|t.members|] == RegrownMembers(t.members);
  }

  lemma GrownOnce(i: nat)
    ensures Grown(i + 1) == CapacityAfterAdd(i, Grown(i))
  {
  }

  lemma CopiedMembers(ms: seq<Member<Value>>, i: nat)
    requires UniqueNames(ms) && i < |ms|
    ensures ms[i].name !in Names(RegrownMembers(ms)[..i])
    ensures RegrownMembers(ms)[..i + 1] == RegrownMembers(ms)[..i] + [Member(ms[i].name, Regrown(ms[i].value))]
  {
    hide Regrown;
    var all := RegrownMembers(ms);
    hide RegrownMembers;
    forall j | 0 <= j < i
      ensures all[..i][j].name != ms[i].name
    {
      assert all[..i][j].name == ms[j].name;
    }
  }

  /** The next name is new to the copy, and there is room for it. */
  lemma NextMember(ms: seq<Member<Value>>, i: nat)
    requires UniqueNames(ms) && i < |ms| <= OBJECT_MAX_CAPACITY && GrownObject(Grown(i)) && i <= Grown(i)
    ensures Add(CopiedTable(ms, i), ms[i].name, Regrown(ms[i].value)) == Some(CopiedTable(ms, i + 1))
    ensures GrownObject(Grown(i + 1)) && i + 1 <= Grown(i + 1)
  {
    hide Regrown, Lookup, Names, RegrownMembers, Grown, GrownObject, UniqueNames;
    GrownOnce(i);
    GrowthReachesLimit(i, Grown(i));
    CopiedMembers(ms, i);
  }

  /** json_object_add fails in no round. */
  method CopyObject(o: JsonObject<Handle>, ghost t: Table<Value>, ghost r: Regions)
    returns (h: Handle, ghost tree: Regions)
    requires OwnsObject(o, t, r)
    ensures Owns(h, Regrown(AsObject(t)), tree) && fresh(tree.all)
    decreases t.members, 0
  {
    hide *;
    ObjectLimits(o, t, r);
    ghost var ms := t.members;
    var copy := new JsonObject<Handle>();
    EmptyCopyOwned(copy, ms);
    tree := Regions({copy, copy.names, copy.values}, []);
    var i := 0;
    while i < o.count
      invariant 0 <= i <= o.count == |ms| <= OBJECT_MAX_CAPACITY && GrownObject(Grown(i)) && i <= Grown(i)
      invariant OwnsObject(copy, CopiedTable(ms, i), tree) && fresh(tree.all)
    {
      MemberOpened(o, t, r, i);
      var name := o.names[i].content;
      var original := o.Get(name);
      MemberOpened(o, t, r, i);
      var child, part := Copy(original.value, ms[i].value, r.parts[i]);
      NextMember(ms, i);
      Opened(copy, CopiedTable(ms, i), tree);
      RegionOf({copy, copy.names, copy.values}, tree);
      var ok;
      ok, tree := AddHere(copy, name, child, CopiedTable(ms, i), tree, Regrown(ms[i].value), part);
      assert ok;
      i := i + 1;
    }
    WholeCopyOwned(copy, t, tree);
    return HObj(copy), tree;
  }
}
