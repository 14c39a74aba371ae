/** Setting and removing by dotted path, in place, on objects that live in the heap. */
module DotPathsCode {
  import opened CText
  import opened Values
  import opened Tables
  import opened Containers
  import opened DotPaths
  import opened HeapTrees

  /** What is left after the element at `i` made place for the last one. */
  function Without<T>(s: seq<T>, i: nat): (r: seq<T>)
    requires i < |s|
    ensures |r| == |s| - 1 && forall k :: 0 <= k < |r| ==> r[k] == s[if k == i then |s| - 1 else k]
  {
    var last := |s| - 1;
    if i == last then s[..last] else s[..last][i := s[last]]
  }

  lemma RemoveIsWithout<V>(t: Table<V>, name: Bytes)
    ensures var i := IndexOf(t.members, name);
      if i < |t.members| then Remove(t, name) == Some(Table(Without(t.members, i), t.capacity))
      else Remove(t, name).None?
  {
  }

  lemma ApartWithout(own: set<object>, r: Regions, i: nat)
    requires Apart(own, r) && i < |r.parts|
    ensures var parts := Without(r.parts, i);
      Apart(own, Regions(own + Inner(parts), parts)) && Inner(parts) <= Inner(r.parts)
  {
  }

  lemma OwnsWithout(hs: seq<Member<Handle>>, ms: seq<Member<Value>>, parts: seq<Regions>, i: nat)
    requires OwnsMembers(hs, ms, parts) && i < |ms|
    ensures OwnsMembers(Without(hs, i), Without(ms, i), Without(parts, i))
  {
  }

  /** json_object_remove, on an object and the tree below it. */
  method RemoveHere(o: JsonObject<Handle>, name: Bytes, ghost t: Table<Value>, ghost r: Regions)
    returns (ok: bool, ghost left: Regions)
    requires OwnsObject(o, t, r)
    modifies o, o.names, o.values
    ensures ok == Remove(t, name).Some?
    ensures OwnsObject(o, Applied(t, RemoveOp(name)), left) && left.all <= r.all
  {
    hide *;
    Opened(o, t, r);
    ghost var hs, own, i := o.AsTable(), {o, o.names, o.values}, IndexOf(t.members, name);
    MembersNamed(hs.members, t.members, r.parts, name);
    RemoveIsWithout(hs, name);
    RemoveIsWithout(t, name);
    AppliedRemove(t, name);
    left := r;
    if i < |t.members| {
      OwnsWithout(hs.members, t.members, r.parts, i);
      ApartWithout(own, r, i);
      left := Regions(own + Inner(Without(r.parts, i)), Without(r.parts, i));
      RegionOf(own, r);
    }
    ok := o.Remove(name);
    Closed(o, Applied(t, RemoveOp(name)), left);
  }

  lemma AppliedRemove<V>(t: Table<V>, name: Bytes)
    ensures Applied(t, RemoveOp(name)) == match Remove(t, name) case None => t case Some(left) => left
  {
  }

  lemma OwnsKind(h: Handle, v: Value, r: Regions)
    requires Owns(h, v, r)
    ensures h.HObj? <==> v.Obj?
  {
  }

  /** The object under a name, and its part of the tree. */
  lemma ChildOpened(o: JsonObject<Handle>, t: Table<Value>, r: Regions, name: Bytes)
    requires OwnsObject(o, t, r)
    ensures o.Valid() && o.AsTable().members == o.Members()
    ensures var i, child := IndexOf(t.members, name), Lookup(o.Members(), name);
      && |t.members| == |r.parts| == |o.Members()|
      && (child.Some? <==> i < |t.members|)
      && (child.Some? ==> o.Members()[i] == Member(name, child.value))
      && (child.Some? && child.value.HObj? <==> ObjectUnder(t.members, name).Some?)
    ensures ObjectUnder(t.members, name).Some? ==>
      && name in Names(t.members)
      && OwnsObject(Lookup(o.Members(), name).value.o, ObjectUnder(t.members, name).value,
                    r.parts[IndexOf(t.members, name)])
  {
    Opened(o, t, r);
    MembersNamed(o.Members(), t.members, r.parts, name);
    hide Owns, OwnsMembers, Lookup, JsonObject.Members, JsonObject.Valid;
    var i := IndexOf(t.members, name);
    if i < |t.members| {
      OwnsKind(o.Members()[i].value, t.members[i].value, r.parts[i]);
    }
  }

  /** The parts of a tree in which the part at `i` was rebuilt, from its own nodes and new ones. */
  lemma ApartRebuilt(own: set<object>, r: Regions, i: nat, part: Regions, added: set<object>)
    requires Apart(own, r) && i < |r.parts| && part.all <= r.parts[i].all + added && added !! r.all
    ensures var parts := r.parts[i := part]; Apart(own, Regions(own + Inner(parts), parts))
    ensures Inner(r.parts[i := part]) <= Inner(r.parts) + added
  {
  }

  lemma OwnsRebuilt(hs: seq<Member<Handle>>, ms: seq<Member<Value>>, parts: seq<Regions>, i: nat, h: Handle,
                    v: Value, part: Regions)
    requires |hs| == |ms| == |parts| && i < |ms| && hs[i].name == ms[i].name && Owns(h, v, part)
    requires forall j :: 0 <= j < |ms| && j != i ==>
      hs[j].name == ms[j].name && Owns(hs[j].value, ms[j].value, parts[j])
    ensures OwnsMembers(hs[i := Member(hs[i].name, h)], ms[i := Member(ms[i].name, v)], parts[i := part])
  {
  }

  lemma UpdateIs(t: Table<Value>, name: Bytes, v: Value)
    requires name in Names(t.members)
    ensures var i := IndexOf(t.members, name);
      && i < |t.members| && t.members[i].name == name
      && Update(t, name, v) == Table(t.members[i := Member(name, v)], t.capacity)
  {
  }

  /** json_object_dotremove */
  method RemovePath(o: JsonObject<Handle>, path: Bytes, ghost t: Table<Value>, ghost r: Regions)
    returns (ok: bool, ghost left: Regions)
    requires OwnsObject(o, t, r)
    modifies r.all
    ensures ok == DotRemove(t, path).ok
    ensures OwnsObject(o, DotRemove(t, path).table, left) && left.all <= r.all
    decreases |path|
  {
    hide *;
    Opened(o, t, r);
    RegionOf({o, o.names, o.values}, r);
    RemoveUnfolds(t, path);
    if !HasDot(path) {
      ok, left := RemoveHere(o, path, t, r);
    } else {
      ghost var i := IndexOf(t.members, Head(path));
      ChildOpened(o, t, r, Head(path));
      var child := o.Get(Head(path));
      if child.Some? && child.value.HObj? {
        OthersOwned(o.AsTable().members, t.members, r.parts);
        ghost var part;
        ok, part := RemovePath(child.value.o, Tail(path), ObjectUnder(t.members, Head(path)).value, r.parts[i]);
        ghost var inner := DotRemove(ObjectUnder(t.members, Head(path)).value, Tail(path)).table;
        left := Rebuilt(o, t, r, Head(path), child.value.o, inner, part, {});
      } else {
        ok, left := false, r;
      }
    }
  }

  lemma RemoveUnfolds(t: Table<Value>, path: Bytes)
    ensures !HasDot(path) ==>
      DotRemove(t, path) == Outcome(Remove(t, path).Some?, Applied(t, RemoveOp(path)))
    ensures HasDot(path) ==>
      match ObjectUnder(t.members, Head(path))
      case None => DotRemove(t, path) == Outcome(false, t)
      case Some(inner) =>
        var rest := DotRemove(inner, Tail(path));
        Head(path) in Names(t.members)
        && DotRemove(t, path) == Outcome(rest.ok, Update(t, Head(path), AsObject(rest.table)))
  {
  }

  /** The object below `name` was changed in place: what the whole tree now stands for. */
  lemma Rebuilt(o: JsonObject<Handle>, t: Table<Value>, r: Regions, name: Bytes,
                inner: JsonObject<Handle>, it: Table<Value>, part: Regions, added: set<object>) returns (left: Regions)
    requires o.Valid() && o.AsTable().capacity == t.capacity && Apart({o, o.names, o.values}, r)
    requires name in Names(t.members) && |o.AsTable().members| == |t.members| == |r.parts|
    requires var i := IndexOf(t.members, name);
      && o.AsTable().members[i] == Member(name, HObj(inner)) && OwnsObject(inner, it, part)
      && part.all <= r.parts[i].all + added && added !! r.all
      && forall j :: 0 <= j < |t.members| && j != i ==>
           && o.AsTable().members[j].name == t.members[j].name
           && Owns(o.AsTable().members[j].value, t.members[j].value, r.parts[j])
    ensures OwnsObject(o, Update(t, name, AsObject(it)), left) && left.all <= r.all + added
  {
    var i, hs := IndexOf(t.members, name), o.AsTable().members;
    hide Owns, OwnsMembers, Apart, Inner, Update;
    UpdateIs(t, name, AsObject(it));
    OwnsRebuilt(hs, t.members, r.parts, i, HObj(inner), AsObject(it), part);
    assert hs[i := Member(hs[i].name, HObj(inner))] == hs;
    ApartRebuilt({o, o.names, o.values}, r, i, part, added);
    RegionOf({o, o.names, o.values}, r);
    left := Regions({o, o.names, o.values} + Inner(r.parts[i := part]), r.parts[i := part]);
    Closed(o, Update(t, name, AsObject(it)), left);
  }

  // ---- Setting ----

  lemma PutUnfolds<V>(t: Table<V>, name: Bytes, v: V)
    ensures var i := IndexOf(t.members, name);
      Put(t, name, v) ==
        if i < |t.members| then Some(Table(t.members[i := Member(name, v)], t.capacity)) else Add(t, name, v)
  {
  }

  lemma OnePartReplaced(own: set<object>, r: Regions, i: nat, part: Regions)
    requires Apart(own, r) && part.all !! r.all && i < |r.parts|
    ensures var parts := r.parts[i := part];
      Inner(parts) <= Inner(r.parts) + part.all
      && forall j, k :: 0 <= j < k < |parts| ==> parts[j].all !! parts[k].all
  {
  }

  lemma AppliedPut<V>(t: Table<V>, name: Bytes, v: V)
    ensures Applied(t, PutOp(name, v)) == match Put(t, name, v) case None => t case Some(more) => more
  {
  }

  /** json_object_set_value with a value that has no parent, on an object and the tree below it. */
  method SetHere(o: JsonObject<Handle>, name: Bytes, h: Handle,
                 ghost t: Table<Value>, ghost r: Regions, ghost v: Value, ghost part: Regions)
    returns (ok: bool, ghost left: Regions)
    requires OwnsObject(o, t, r) && Owns(h, v, part) && part.all !! r.all
    modifies o, o.names, o.values
    ensures ok == Put(t, name, v).Some?
    ensures OwnsObject(o, Applied(t, PutOp(name, v)), left)
    ensures fresh(left.all - r.all - part.all)
  {
    hide *;
    Opened(o, t, r);
    ghost var hs, own, i := o.AsTable(), {o, o.names, o.values}, IndexOf(t.members, name);
    MembersNamed(hs.members, t.members, r.parts, name);
    PutUnfolds(hs, name, h);
    PutUnfolds(t, name, v);
    AddUnfolds(hs, name, h);
    AddUnfolds(t, name, v);
    AppliedPut(t, name, v);
    RegionOf(own, r);
    ghost var parts := r.parts;
    if i < |t.members| {
      OthersOwned(hs.members, t.members, parts);
      OwnsRebuilt(hs.members, t.members, parts, i, h, v, part);
      OnePartReplaced(own, r, i, part);
      parts := parts[i := part];
    } else if Put(t, name, v).Some? {
      OwnsOneMore(hs.members, t.members, parts, name, h, v, part);
      OneMorePart(own, r, part);
      parts := parts + [part];
    }
    ok := o.Put(name, h);
    ApartFrom({o, o.names, o.values}, parts);
    left := Regions({o, o.names, o.values} + Inner(parts), parts);
    Closed(o, Applied(t, PutOp(name, v)), left);
  }

  /** The table in which a dotted path goes on: with an empty object under the name, if there was no object. */
  function WithObject(t: Table<Value>, name: Bytes): Option<Table<Value>> {
    if ObjectUnder(t.members, name).Some? then Some(t) else Add(t, name, Obj([], 0))
  }

  lemma WithObjectHasIt(t: Table<Value>, name: Bytes)
    ensures var now := WithObject(t, name); now.Some? ==>
      name in Names(now.value.members) && ObjectUnder(now.value.members, name) == Some(Inside(t.members, name))
  {
    if ObjectUnder(t.members, name).None? && Add(t, name, Obj([], 0)).Some? {
      AddedIsFound(t, name);
      AddedIsNamed(t, name);
    }
  }

  lemma SetUnfolds(t: Table<Value>, path: Bytes, v: Value, attached: bool)
    ensures !HasDot(path) && attached ==> DotSet(t, path, v, attached) == Outcome(false, t)
    ensures !HasDot(path) && !attached ==>
      DotSet(t, path, v, attached) == Outcome(Put(t, path, v).Some?, Applied(t, PutOp(path, v)))
    ensures HasDot(path) ==>
      match WithObject(t, Head(path))
      case None => DotSet(t, path, v, attached) == Outcome(false, t)
      case Some(now) =>
        var rest := DotSet(Inside(t.members, Head(path)), Tail(path), v, attached);
        && Head(path) in Names(now.members)
        && DotSet(t, path, v, attached) == Outcome(rest.ok, Update(now, Head(path), AsObject(rest.table)))
  {
    if HasDot(path) {
      WithObjectHasIt(t, Head(path));
    }
  }

  lemma AddedIsFound(t: Table<Value>, name: Bytes)
    requires Add(t, name, Obj([], 0)).Some?
    ensures ObjectUnder(Add(t, name, Obj([], 0)).value.members, name) == Some(Table([], 0))
  {
    var ms := Add(t, name, Obj([], 0)).value.members;
    AddUnfolds(t, name, Obj([], 0));
    IndexOfAdded(t.members, name, Obj([], 0));
    LookupAtIndex(ms, name);
  }

  lemma {:induction false} IndexOfAdded(ms: seq<Member<Value>>, name: Bytes, v: Value)
    requires name !in Names(ms)
    ensures IndexOf(ms + [Member(name, v)], name) == |ms|
    ensures name in Names(ms + [Member(name, v)])
  {
    var more := ms + [Member(name, v)];
    assert more[|ms|].name == name;
    forall i | 0 <= i < |ms|
      ensures more[i].name != name
    {
      assert ms[i].name in Names(ms);
    }
  }

  /** The nodes that a call may hand over to the tree: those of a value that has no parent yet. */
  ghost function Given(attached: bool, part: Regions): set<object> {
    if attached then {} else part.all
  }

  lemma GivenIs(attached: bool, part: Regions)
    ensures Given(attached, part) == if attached then {} else part.all
  {
  }

  lemma EmptyObjectOwned(o: JsonObject<Handle>)
    requires o.Valid() && o.AsTable() == Table([], 0)
    ensures Owns(HObj(o), Obj([], 0), Regions({o, o.names, o.values}, []))
  {
  }

  lemma WithObjectIs(t: Table<Value>, name: Bytes)
    ensures ObjectUnder(t.members, name).Some? ==> WithObject(t, name) == Some(t)
    ensures ObjectUnder(t.members, name).None? ==> WithObject(t, name) == Add(t, name, Obj([], 0))
  {
  }

  /** One step of json_object_dotset_value: the object under the name, created if there is none. */
  method ReachObject(o: JsonObject<Handle>, name: Bytes, ghost t: Table<Value>, ghost r: Regions)
    returns (child: Option<Handle>, ghost region: Regions)
    requires OwnsObject(o, t, r)
    modifies o, o.names, o.values
    ensures fresh(region.all - r.all)
    ensures match WithObject(t, name)
            case None => child.None? && OwnsObject(o, t, region)
            case Some(now) =>
              && child.Some? && child.value.HObj? && OwnsObject(o, now, region)
              && Lookup(o.Members(), name) == child
  {
    hide *;
    WithObjectIs(t, name);
    WithObjectHasIt(t, name);
    ChildOpened(o, t, r, name);
    child := o.Get(name);
    region := r;
    if child.None? || !child.value.HObj? {
      var empty := new JsonObject<Handle>();
      EmptyObjectOwned(empty);
      var ok;
      ok, region := AddHere(o, name, HObj(empty), t, r, Obj([], 0), Regions({empty, empty.names, empty.values}, []));
      if !ok {
        return None, region;
      }
      ChildOpened(o, WithObject(t, name).value, region, name);
      child := o.Get(name);
    }
  }

  /** json_object_dotset_value. `attached` tells whether the value already has a parent. */
  method SetPath(o: JsonObject<Handle>, path: Bytes, h: Handle, attached: bool,
                 ghost t: Table<Value>, ghost r: Regions, ghost v: Value, ghost part: Regions)
    returns (ok: bool, ghost left: Regions)
    requires OwnsObject(o, t, r)
    requires !attached ==> Owns(h, v, part) && part.all !! r.all
    modifies r.all
    ensures ok == DotSet(t, path, v, attached).ok
    ensures OwnsObject(o, DotSet(t, path, v, attached).table, left)
    ensures fresh(left.all - r.all - Given(attached, part))
    decreases |path|, 1
  {
    hide *;
    Opened(o, t, r);
    RegionOf({o, o.names, o.values}, r);
    SetUnfolds(t, path, v, attached);
    GivenIs(attached, part);
    if !HasDot(path) {
      if attached {
        return false, r;
      }
      ok, left := SetHere(o, path, h, t, r, v, part);
      return;
    }
    var child;
    ghost var region;
    child, region := ReachObject(o, Head(path), t, r);
    if child.None? {
      return false, region;
    }
    ok, left := SetInside(o, child.value.o, path, h, attached, t, region, v, part);
  }

  method SetInside(o: JsonObject<Handle>, child: JsonObject<Handle>, path: Bytes, h: Handle, attached: bool,
                   ghost t: Table<Value>, ghost r: Regions, ghost v: Value, ghost part: Regions)
    returns (ok: bool, ghost left: Regions)
    requires HasDot(path) && WithObject(t, Head(path)).Some? && OwnsObject(o, WithObject(t, Head(path)).value, r)
    requires Lookup(o.Members(), Head(path)) == Some(HObj(child))
    requires !attached ==> Owns(h, v, part) && part.all !! r.all
    modifies r.all
    ensures ok == DotSet(t, path, v, attached).ok
    ensures OwnsObject(o, DotSet(t, path, v, attached).table, left)
    ensures fresh(left.all - r.all - Given(attached, part))
    decreases |path|, 0
  {
    hide *;
    ghost var name, now := Head(path), WithObject(t, Head(path)).value;
    SetUnfolds(t, path, v, attached);
    GivenIs(attached, part);
    WithObjectHasIt(t, name);
    ChildOpened(o, now, r, name);
    Opened(o, now, r);
    RegionOf({o, o.names, o.values}, r);
    OthersOwned(o.AsTable().members, now.members, r.parts);
    ghost var i, rebuilt: Regions := IndexOf(now.members, name), r;
    ok, rebuilt := SetPath(child, Tail(path), h, attached, Inside(t.members, name), r.parts[i], v, part);
    left := Rebuilt(o, now, r, name, child, DotSet(Inside(t.members, name), Tail(path), v, attached).table, rebuilt,
                    rebuilt.all - r.parts[i].all);
  }
}
