/** JSON values that live in the heap, as trees that own their nodes. */
module HeapTrees {
  import opened CText
  import opened Values
  import opened Tables
  import opened Containers

  /** A json_value_t that is null, a boolean, a number or a string. */
  class JsonScalar {
    var content: Value

    constructor (content: Value)
      ensures this.content == content
    {
      this.content := content;
    }
  }

  /** A pointer to a json_value_t. */
  datatype Handle =
    | HScalar(node: JsonScalar)
    | HArr(a: JsonArray<Handle>)
    | HObj(o: JsonObject<Handle>)

  /** The nodes of a tree, and those of each of its children. */
  datatype Regions = Regions(all: set<object>, parts: seq<Regions>)

  ghost function Inner(parts: seq<Regions>): set<object> {
    set i, x | 0 <= i < |parts| && x in parts[i].all :: x
  }

  /** A node shares nothing with its children, nor these with one another. */
  ghost predicate Apart(own: set<object>, r: Regions) {
    && r.all == own + Inner(r.parts) && own !! Inner(r.parts)
    && forall i, j :: 0 <= i < j < |r.parts| ==> r.parts[i].all !! r.parts[j].all
  }

  /** The handle stands for the value, as a tree of exactly these nodes. */
  ghost predicate Owns(h: Handle, v: Value, r: Regions)
    reads r.all
    decreases v, 0
  {
    match v
    case Arr(items, capacity) =>
      && h.HArr?
      && h.a in r.all && h.a.items in r.all && Apart(h.a.Footprint(), r)
      && h.a.Valid() && h.a.capacity == capacity
      && OwnsItems(h.a.Items(), items, r.parts)
    case Obj(ms, capacity) =>
      && h.HObj?
      && h.o in r.all && h.o.names in r.all && h.o.values in r.all && Apart(h.o.Footprint(), r)
      && h.o.Valid() && h.o.capacity == capacity
      && OwnsMembers(h.o.Members(), ms, r.parts)
    case _ => h.HScalar? && r.all == {h.node} && h.node.content == v
  }

  ghost predicate OwnsItems(hs: seq<Handle>, items: seq<Value>, parts: seq<Regions>)
    reads Inner(parts)
    decreases items, 1
  {
    && |hs| == |items| == |parts|
    && forall i :: 0 <= i < |items| ==> parts[i].all <= Inner(parts) && Owns(hs[i], items[i], parts[i])
  }

  ghost predicate OwnsMembers(hs: seq<Member<Handle>>, ms: seq<Member<Value>>, parts: seq<Regions>)
    reads Inner(parts)
    decreases ms, 1
  {
    && |hs| == |ms| == |parts|
    && forall i :: 0 <= i < |ms| ==>
         hs[i].name == ms[i].name && parts[i].all <= Inner(parts) && Owns(hs[i].value, ms[i].value, parts[i])
  }

  ghost predicate OwnsObject(o: JsonObject<Handle>, t: Table<Value>, r: Regions)
    reads r.all
  {
    Owns(HObj(o), AsObject(t), r)
  }

  lemma Opened(o: JsonObject<Handle>, t: Table<Value>, r: Regions)
    requires OwnsObject(o, t, r)
    ensures o.Valid() && o.AsTable().capacity == t.capacity && Apart({o, o.names, o.values}, r)
    ensures OwnsMembers(o.AsTable().members, t.members, r.parts) && o.AsTable().members == o.Members()
  {
  }

  lemma Closed(o: JsonObject<Handle>, t: Table<Value>, r: Regions)
    requires o.Valid() && o.AsTable().capacity == t.capacity && Apart({o, o.names, o.values}, r)
    requires OwnsMembers(o.AsTable().members, t.members, r.parts)
    ensures OwnsObject(o, t, r)
  {
  }

  lemma ArrayOpened(a: JsonArray<Handle>, items: seq<Value>, capacity: nat, r: Regions)
    requires Owns(HArr(a), Arr(items, capacity), r)
    ensures a.Valid() && a.count == |items| && a.capacity == capacity && Apart({a, a.items}, r)
    ensures OwnsItems(a.Items(), items, r.parts)
  {
  }

  lemma ArrayClosed(a: JsonArray<Handle>, items: seq<Value>, r: Regions)
    requires a.Valid() && Apart({a, a.items}, r) && OwnsItems(a.Items(), items, r.parts)
    ensures Owns(HArr(a), Arr(items, a.capacity), r)
  {
  }

  lemma {:induction false} SameNames<V, W>(xs: seq<Member<V>>, ys: seq<Member<W>>, name: Bytes)
    requires |xs| == |ys| && forall i :: 0 <= i < |xs| ==> xs[i].name == ys[i].name
    ensures IndexOf(xs, name) == IndexOf(ys, name)
    ensures Lookup(xs, name).Some? <==> IndexOf(xs, name) < |xs|
    ensures var i := IndexOf(xs, name);
      i < |xs| ==> Lookup(xs, name) == Some(xs[i].value) && Lookup(ys, name) == Some(ys[i].value)
  {
    if xs == [] {
    } else {
      SameNames(xs[1..], ys[1..], name);
    }
  }

  lemma MembersNamed(hs: seq<Member<Handle>>, ms: seq<Member<Value>>, parts: seq<Regions>, name: Bytes)
    requires OwnsMembers(hs, ms, parts)
    ensures var i := IndexOf(ms, name);
      && IndexOf(hs, name) == i && |hs| == |ms| == |parts| && (i < |ms| ==> hs[i].name == name)
      && (Lookup(hs, name).Some? <==> i < |ms|) && (Lookup(ms, name).Some? <==> i < |ms|)
      && (i < |ms| ==> Lookup(hs, name) == Some(hs[i].value) && Lookup(ms, name) == Some(ms[i].value)
                       && Owns(hs[i].value, ms[i].value, parts[i]))
  {
    hide Owns;
    SameNames(hs, ms, name);
  }

  lemma PartsAreInner(parts: seq<Regions>)
    ensures forall i :: 0 <= i < |parts| ==> parts[i].all <= Inner(parts)
  {
  }

  lemma RegionOf(own: set<object>, r: Regions)
    requires Apart(own, r)
    ensures r.all == own + Inner(r.parts) && own !! Inner(r.parts)
    ensures forall i :: 0 <= i < |r.parts| ==> r.parts[i].all <= Inner(r.parts)
    ensures forall i, j :: 0 <= i < |r.parts| && 0 <= j < |r.parts| && i != j ==> r.parts[i].all !! r.parts[j].all
  {
  }

  lemma OthersOwned(hs: seq<Member<Handle>>, ms: seq<Member<Value>>, parts: seq<Regions>)
    requires OwnsMembers(hs, ms, parts)
    ensures |hs| == |ms| == |parts|
    ensures forall j :: 0 <= j < |ms| ==> hs[j].name == ms[j].name && Owns(hs[j].value, ms[j].value, parts[j])
  {
  }

  /** Children that share nothing with one another, nor with their new owner. */
  lemma ApartFrom(own: set<object>, parts: seq<Regions>)
    requires own !! Inner(parts)
    requires forall i, j :: 0 <= i < j < |parts| ==> parts[i].all !! parts[j].all
    ensures Apart(own, Regions(own + Inner(parts), parts))
  {
  }

  lemma OneMorePart(own: set<object>, r: Regions, part: Regions)
    requires Apart(own, r) && part.all !! r.all
    ensures var parts := r.parts + [part];
      Inner(parts) == Inner(r.parts) + part.all
      && forall i, j :: 0 <= i < j < |parts| ==> parts[i].all !! parts[j].all
  {
    PartsAreInner(r.parts);
    var parts := r.parts + [part];
    assert parts[|r.parts|] == part;
    forall x | x in Inner(r.parts)
      ensures x in Inner(parts)
    {
      var k :| 0 <= k < |r.parts| && x in r.parts[k].all;
      assert x in parts[k].all;
    }
  }

  // ---- Growing a tree ----

  /** json_value_init_number and its siblings */
  method NewScalar(v: Value) returns (h: Handle, ghost r: Regions)
    requires !v.Arr? && !v.Obj?
    ensures Owns(h, v, r) && fresh(r.all)
  {
    var node := new JsonScalar(v);
    return HScalar(node), Regions({node}, []);
  }

  lemma AddUnfolds<V>(t: Table<V>, name: Bytes, v: V)
    ensures Add(t, name, v) ==
      if IndexOf(t.members, name) == |t.members| && HasRoom(|t.members|, t.capacity, OBJECT_MAX_CAPACITY)
      then Some(Table(t.members + [Member(name, v)], CapacityAfterAdd(|t.members|, t.capacity))) else None
  {
  }

  lemma OwnsOneMore(hs: seq<Member<Handle>>, ms: seq<Member<Value>>, parts: seq<Regions>, name: Bytes, h: Handle,
                    v: Value, part: Regions)
    requires OwnsMembers(hs, ms, parts) && Owns(h, v, part)
    ensures OwnsMembers(hs + [Member(name, h)], ms + [Member(name, v)], parts + [part])
  {
    hide Owns;
    PartsAreInner(parts + [part]);
  }

  /** json_object_add, on an object and the tree below it. */
  method AddHere(o: JsonObject<Handle>, name: Bytes, h: Handle,
                 ghost t: Table<Value>, ghost r: Regions, ghost v: Value, ghost part: Regions)
    returns (ok: bool, ghost left: Regions)
    requires OwnsObject(o, t, r) && Owns(h, v, part) && part.all !! r.all
    modifies o, o.names, o.values
    ensures ok == Add(t, name, v).Some?
    ensures OwnsObject(o, if ok then Add(t, name, v).value else t, left)
    ensures fresh(left.all - r.all - part.all)
  {
    hide *;
    Opened(o, t, r);
    ghost var hs, own := o.AsTable(), {o, o.names, o.values};
    MembersNamed(hs.members, t.members, r.parts, name);
    AddUnfolds(hs, name, h);
    AddUnfolds(t, name, v);
    RegionOf(own, r);
    OwnsOneMore(hs.members, t.members, r.parts, name, h, v, part);
    OneMorePart(own, r, part);
    ok := o.Add(name, h);
    if ok {
      ApartFrom({o, o.names, o.values}, r.parts + [part]);
      left := Regions({o, o.names, o.values} + Inner(r.parts + [part]), r.parts + [part]);
      Closed(o, Add(t, name, v).value, left);
    } else {
      ApartFrom({o, o.names, o.values}, r.parts);
      left := Regions({o, o.names, o.values} + Inner(r.parts), r.parts);
      Closed(o, t, left);
    }
  }

  lemma OwnsOneMoreItem(hs: seq<Handle>, items: seq<Value>, parts: seq<Regions>, h: Handle, v: Value, part: Regions)
    requires OwnsItems(hs, items, parts) && Owns(h, v, part)
    ensures OwnsItems(hs + [h], items + [v], parts + [part])
  {
    hide Owns;
    PartsAreInner(parts + [part]);
  }

  /** json_array_add, on an array and the tree below it. */
  method AddItem(a: JsonArray<Handle>, h: Handle,
                 ghost items: seq<Value>, ghost capacity: nat, ghost r: Regions, ghost v: Value, ghost part: Regions)
    returns (ok: bool, ghost left: Regions)
    requires Owns(HArr(a), Arr(items, capacity), r) && Owns(h, v, part) && part.all !! r.all
    modifies a, a.items
    ensures ok <==> HasRoom(|items|, capacity, ARRAY_MAX_CAPACITY)
    ensures Owns(HArr(a), if ok then Arr(items + [v], CapacityAfterAdd(|items|, capacity)) else Arr(items, capacity),
                 left)
    ensures fresh(left.all - r.all - part.all)
  {
    hide *;
    ArrayOpened(a, items, capacity, r);
    RegionOf({a, a.items}, r);
    OwnsOneMoreItem(a.Items(), items, r.parts, h, v, part);
    OneMorePart({a, a.items}, r, part);
    ok := a.Add(h);
    ghost var parts := if ok then r.parts + [part] else r.parts;
    ApartFrom({a, a.items}, parts);
    left := Regions({a, a.items} + Inner(parts), parts);
    ArrayClosed(a, if ok then items + [v] else items, left);
  }
}
