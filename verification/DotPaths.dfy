/** Reading, writing and removing members by dotted path. */
module DotPaths {
  import opened CText
  import opened Values
  import opened Tables

  // ---- Paths ----

  /** `strchr(path, '.')`: the first dot, or the length. */
  function FirstDot(path: Bytes): (d: nat)
    ensures d <= |path| && (d < |path| ==> path[d] == DOT)
    ensures forall i :: 0 <= i < d ==> path[i] != DOT
  {
    if path == [] || path[0] == DOT then 0 else 1 + FirstDot(path[1..])
  }

  predicate HasDot(path: Bytes) {
    FirstDot(path) < |path|
  }

  function Head(path: Bytes): Bytes {
    path[..FirstDot(path)]
  }

  function Tail(path: Bytes): (r: Bytes)
    requires HasDot(path)
    ensures |r| < |path|
  {
    path[FirstDot(path) + 1..]
  }

  /** `q` is `p`, or continues it after a dot. */
  predicate Under(q: Bytes, p: Bytes) {
    q == p || (|p| < |q| && q[..|p|] == p && q[|p|] == DOT)
  }

  lemma FirstDotIs(path: Bytes, d: nat)
    requires d <= |path| && (d < |path| ==> path[d] == DOT)
    requires forall i :: 0 <= i < d ==> path[i] != DOT
    ensures FirstDot(path) == d
  {
  }

  lemma DottedIs(path: Bytes)
    requires HasDot(path)
    ensures path == Head(path) + [DOT] + Tail(path)
  {
  }

  lemma UnderPlain(q: Bytes, p: Bytes)
    requires !HasDot(p)
    ensures Under(q, p) <==> Head(q) == p
    ensures Under(q, p) && q != p ==> HasDot(q) && q[|p| + 1..] == Tail(q)
  {
    if Under(q, p) {
      assert forall i :: 0 <= i < |p| ==> q[i] == p[i];
      FirstDotIs(q, |p|);
    }
  }

  lemma UnderDotted(q: Bytes, p: Bytes)
    requires HasDot(p)
    ensures Under(q, p) <==> HasDot(q) && Head(q) == Head(p) && Under(Tail(q), Tail(p))
    ensures Under(q, p) ==> (q == p <==> Tail(q) == Tail(p))
    ensures Under(q, p) && q != p ==> q[|p| + 1..] == Tail(q)[|Tail(p)| + 1..]
  {
    var d := FirstDot(p);
    DottedIs(p);
    if Under(q, p) {
      assert forall i :: 0 <= i < |p| ==> q[i] == p[i];
      FirstDotIs(q, d);
      TailUnder(q, p, d);
    } else if HasDot(q) && Head(q) == Head(p) {
      DottedIs(q);
      TailUnder(q, p, d);
    }
  }

  lemma TailUnder(q: Bytes, p: Bytes, d: nat)
    requires d < |p| && d < |q| && q[..d] == p[..d] && q[d] == p[d]
    ensures Under(q, p) <==> Under(q[d + 1..], p[d + 1..])
    ensures q == p <==> q[d + 1..] == p[d + 1..]
  {
    assert q == q[..d + 1] + q[d + 1..] && p == p[..d + 1] + p[d + 1..];
    assert q[..d + 1] == q[..d] + [q[d]] && p[..d + 1] == p[..d] + [p[d]];
    if |p| < |q| {
      assert q[..|p|] == q[..d + 1] + q[d + 1..][..|p| - d - 1];
      assert q[..|p|][d + 1..] == q[d + 1..][..|p| - d - 1];
    }
  }

  // ---- Operations ----

  /** json_object_get_object: the object under a name, if there is one. */
  function ObjectUnder(ms: seq<Member<Value>>, name: Bytes): (r: Option<Table<Value>>)
    ensures r.Some? ==> Lookup(ms, name) == Some(AsObject(r.value))
    ensures r.None? ==> Lookup(ms, name).None? || !Lookup(ms, name).value.Obj?
  {
    var v := Lookup(ms, name);
    if v.Some? && v.value.Obj? then Some(Table(v.value.members, v.value.capacity)) else None
  }

  /** json_object_dotget_value */
  function DotGet(ms: seq<Member<Value>>, path: Bytes): Option<Value>
    decreases |path|
  {
    if !HasDot(path) then Lookup(ms, path)
    else
      match ObjectUnder(ms, Head(path))
      case Some(inner) => DotGet(inner.members, Tail(path))
      case None => None
  }

  datatype Outcome = Outcome(ok: bool, table: Table<Value>)

  /** An object reached through `name` was changed in place. */
  function Update(t: Table<Value>, name: Bytes, value: Value): Table<Value>
    requires name in Names(t.members)
  {
    t.(members := t.members[IndexOf(t.members, name) := Member(name, value)])
  }

  /** json_object_dotset_value. `attached` tells whether the value already has a parent. */
  function DotSet(t: Table<Value>, path: Bytes, v: Value, attached: bool): Outcome
    decreases |path|
  {
    if !HasDot(path) then
      var r := if attached then None else Put(t, path, v);
      if r.None? then Outcome(false, t) else Outcome(true, r.value)
    else
      match ObjectUnder(t.members, Head(path))
      case Some(inner) =>
        var r := DotSet(inner, Tail(path), v, attached);
        Outcome(r.ok, Update(t, Head(path), AsObject(r.table)))
      case None =>
        var grown := Add(t, Head(path), Obj([], 0));
        if grown.None? then Outcome(false, t)
        else
          var r := DotSet(Table([], 0), Tail(path), v, attached);
          AddedIsNamed(t, Head(path));
          Outcome(r.ok, Update(grown.value, Head(path), AsObject(r.table)))
  }

  lemma AddedIsNamed(t: Table<Value>, name: Bytes)
    ensures var r := Add(t, name, Obj([], 0)); r.Some? ==> name in Names(r.value.members)
  {
    var r := Add(t, name, Obj([], 0));
    if r.Some? {
      assert r.value.members[|t.members|].name == name;
    }
  }

  /** json_object_dotremove */
  function DotRemove(t: Table<Value>, path: Bytes): Outcome
    decreases |path|
  {
    if !HasDot(path) then
      var r := Remove(t, path);
      if r.None? then Outcome(false, t) else Outcome(true, r.value)
    else
      match ObjectUnder(t.members, Head(path))
      case Some(inner) =>
        var r := DotRemove(inner, Tail(path));
        Outcome(r.ok, Update(t, Head(path), AsObject(r.table)))
      case None => Outcome(false, t)
  }

  // ---- One level ----

  /** The table is a well-formed object. */
  ghost predicate SoundTable(t: Table<Value>) {
    WellFormed(AsObject(t))
  }

  /** The object that a step into `name` continues in; a missing one is created empty. */
  function Inside(ms: seq<Member<Value>>, name: Bytes): Table<Value> {
    match ObjectUnder(ms, name)
    case Some(t) => t
    case None => Table([], 0)
  }

  /** Only what `name` leads to has changed. */
  ghost predicate Swapped(before: seq<Member<Value>>, after: seq<Member<Value>>, name: Bytes, v: Option<Value>) {
    forall n :: Lookup(after, n) == if n == name then v else Lookup(before, n)
  }

  lemma SoundAfter(t: Table<Value>, after: Table<Value>, name: Bytes, v: Value)
    requires SoundTable(t) && Valid(after) && Swapped(t.members, after.members, name, Some(v))
    requires NulFree(name) && WellFormed(v)
    ensures SoundTable(after)
  {
    forall i | 0 <= i < |after.members|
      ensures NulFree(after.members[i].name) && WellFormed(after.members[i].value)
    {
      var n := after.members[i].name;
      LookupUnique(after.members, i);
      assert n != name ==> Lookup(t.members, n).Some?;
    }
  }

  lemma LookupIsAsMap(ms: seq<Member<Value>>, n: Bytes)
    ensures Lookup(ms, n) == if n in AsMap(ms) then Some(AsMap(ms)[n]) else None
  {
  }

  lemma PutSwaps(t: Table<Value>, name: Bytes, v: Value)
    requires SoundTable(t) && NulFree(name) && WellFormed(v) && Put(t, name, v).Some?
    ensures var r := Put(t, name, v).value; SoundTable(r) && Swapped(t.members, r.members, name, Some(v))
  {
    var r := Put(t, name, v).value;
    assert Valid(t);
    PutRefinesMap(t, name, v);
    hide Put, AsMap, Lookup, Names, WellFormed;
    assert Swapped(t.members, r.members, name, Some(v)) by {
      forall n
        ensures Lookup(r.members, n) == if n == name then Some(v) else Lookup(t.members, n)
      {
        LookupIsAsMap(t.members, n);
        LookupIsAsMap(r.members, n);
      }
    }
    SoundAfter(t, r, name, v);
  }

  lemma UpdateSwaps(t: Table<Value>, name: Bytes, v: Value)
    requires SoundTable(t) && NulFree(name) && WellFormed(v) && name in Names(t.members)
    ensures var r := Update(t, name, v); SoundTable(r) && Swapped(t.members, r.members, name, Some(v))
  {
    assert Put(t, name, v) == Some(Update(t, name, v));
    PutSwaps(t, name, v);
  }

  lemma AddSwaps(t: Table<Value>, name: Bytes, v: Value)
    requires SoundTable(t) && NulFree(name) && WellFormed(v) && Add(t, name, v).Some?
    ensures var r := Add(t, name, v).value; SoundTable(r) && Swapped(t.members, r.members, name, Some(v))
  {
    assert Put(t, name, v) == Add(t, name, v);
    PutSwaps(t, name, v);
  }

  lemma RemoveSwaps(t: Table<Value>, name: Bytes)
    requires SoundTable(t)
    ensures Remove(t, name).Some? <==> Lookup(t.members, name).Some?
    ensures var r := Remove(t, name); r.Some? ==> SoundTable(r.value) && Swapped(t.members, r.value.members, name, None)
  {
    hide Remove, AsMap, Lookup, Names;
    assert Valid(t);
    RemoveRefinesMap(t, name);
    LookupIsAsMap(t.members, name);
    if Remove(t, name).Some? {
      RemoveIsSound(t, name);
      var r := Remove(t, name).value;
      forall n
        ensures Lookup(r.members, n) == if n == name then None else Lookup(t.members, n)
      {
        LookupIsAsMap(t.members, n);
        LookupIsAsMap(r.members, n);
      }
    }
  }

  lemma RemoveIsSound(t: Table<Value>, name: Bytes)
    requires SoundTable(t) && Remove(t, name).Some?
    ensures SoundTable(Remove(t, name).value)
  {
  }

  lemma InsideIsSound(t: Table<Value>, name: Bytes)
    requires SoundTable(t)
    ensures SoundTable(Inside(t.members, name))
  {
  }

  lemma SplitNulFree(path: Bytes)
    requires NulFree(path)
    ensures NulFree(Head(path)) && (HasDot(path) ==> NulFree(Tail(path)))
  {
  }

  /** A call with a dotted path either stops at its head, changing nothing, or does the rest inside. */
  lemma SetDescends(t: Table<Value>, p: Bytes, v: Value, attached: bool)
    requires SoundTable(t) && NulFree(p) && WellFormed(v) && HasDot(p)
    ensures var r, inner := DotSet(t, p, v, attached), DotSet(Inside(t.members, Head(p)), Tail(p), v, attached);
      SoundTable(inner.table) && r != Outcome(false, t) ==>
        (&& r.ok == inner.ok && SoundTable(r.table)
         && Swapped(t.members, r.table.members, Head(p), Some(AsObject(inner.table))))
  {
    var inner := DotSet(Inside(t.members, Head(p)), Tail(p), v, attached);
    SplitNulFree(p);
    hide WellFormed, Swapped;
    if SoundTable(inner.table) {
      if ObjectUnder(t.members, Head(p)).Some? {
        UpdateSwaps(t, Head(p), AsObject(inner.table));
      } else {
        var grown := Add(t, Head(p), Obj([], 0));
        if grown.Some? {
          EmptyIsSound();
          AddSwaps(t, Head(p), Obj([], 0));
          AddedIsNamed(t, Head(p));
          UpdateSwaps(grown.value, Head(p), AsObject(inner.table));
          var updated := Update(grown.value, Head(p), AsObject(inner.table)).members;
          SwappedTwice(t.members, grown.value.members, updated, Head(p), Some(Obj([], 0)), Some(AsObject(inner.table)));
        }
      }
    }
  }

  lemma EmptyIsSound()
    ensures WellFormed(Obj([], 0))
  {
  }

  lemma SwappedTwice(a: seq<Member<Value>>, b: seq<Member<Value>>, c: seq<Member<Value>>, name: Bytes,
                     v: Option<Value>, w: Option<Value>)
    requires Swapped(a, b, name, v) && Swapped(b, c, name, w)
    ensures Swapped(a, c, name, w)
  {
  }

  // ---- Laws ----

  lemma {:induction false} GetInEmpty(q: Bytes)
    ensures DotGet([], q) == None
  {
  }

  /** What reading `q` gives after `p` was set to `v`. */
  ghost predicate SetReads(before: seq<Member<Value>>, after: seq<Member<Value>>, p: Bytes, v: Value, q: Bytes) {
    if q == p then DotGet(after, q) == Some(v)
    else if Under(q, p) then
      DotGet(after, q) == (if v.Obj? then DotGet(v.members, q[|p| + 1..]) else None)
    else if Under(p, q) then
      DotGet(after, q).Some? && DotGet(after, q).value.Obj?
    else DotGet(after, q) == DotGet(before, q)
  }

  lemma PlainSetReads(before: seq<Member<Value>>, after: seq<Member<Value>>, p: Bytes, v: Value, q: Bytes)
    requires !HasDot(p) && Swapped(before, after, p, Some(v))
    ensures SetReads(before, after, p, v, q)
  {
    UnderPlain(q, p);
    if HasDot(q) {
      DottedIs(q);
    } else {
      UnderPlain(p, q);
    }
  }

  lemma DottedSetReads(before: seq<Member<Value>>, after: seq<Member<Value>>, inner: Table<Value>, p: Bytes,
                       v: Value, q: Bytes)
    requires HasDot(p) && Swapped(before, after, Head(p), Some(AsObject(inner)))
    requires HasDot(q) ==> SetReads(Inside(before, Head(p)).members, inner.members, Tail(p), v, Tail(q))
    ensures SetReads(before, after, p, v, q)
  {
    UnderDotted(q, p);
    if HasDot(q) {
      GetInEmpty(Tail(q));
      UnderDotted(p, q);
      DottedIs(p);
      DottedIs(q);
    } else {
      UnderPlain(p, q);
    }
  }

  lemma {:induction false} SetIsSound(t: Table<Value>, p: Bytes, v: Value, attached: bool)
    requires SoundTable(t) && NulFree(p) && WellFormed(v)
    ensures SoundTable(DotSet(t, p, v, attached).table)
    decreases |p|
  {
    hide WellFormed;
    if HasDot(p) {
      SplitNulFree(p);
      InsideIsSound(t, Head(p));
      SetIsSound(Inside(t.members, Head(p)), Tail(p), v, attached);
      SetDescends(t, p, v, attached);
    } else if DotSet(t, p, v, attached).ok {
      PutSwaps(t, p, v);
    }
  }

  /** After setting `p`, the path itself gives the value, a path below it reads inside the value, a path above it is an
      object, and every other path is as before. */
  lemma {:induction false} SetThenGet(t: Table<Value>, p: Bytes, v: Value, attached: bool, q: Bytes)
    requires SoundTable(t) && NulFree(p) && WellFormed(v) && DotSet(t, p, v, attached).ok
    ensures SetReads(t.members, DotSet(t, p, v, attached).table.members, p, v, q)
    decreases |p|
  {
    var r := DotSet(t, p, v, attached);
    if !HasDot(p) {
      PutSwaps(t, p, v);
      PlainSetReads(t.members, r.table.members, p, v, q);
    } else {
      var o := Inside(t.members, Head(p));
      var inner := DotSet(o, Tail(p), v, attached);
      SplitNulFree(p);
      InsideIsSound(t, Head(p));
      SetIsSound(o, Tail(p), v, attached);
      SetDescends(t, p, v, attached);
      hide DotSet, SetReads, SoundTable, WellFormed, Swapped;
      if HasDot(q) {
        SetThenGet(o, Tail(p), v, attached, Tail(q));
      }
      DottedSetReads(t.members, r.table.members, inner.table, p, v, q);
    }
  }

  lemma DottedSetKeeps(before: seq<Member<Value>>, after: seq<Member<Value>>, inner: Table<Value>, p: Bytes, q: Bytes)
    requires HasDot(p) && Swapped(before, after, Head(p), Some(AsObject(inner))) && !Under(p, q)
    requires HasDot(q) && Head(q) == Head(p) ==>
      DotGet(inner.members, Tail(q)) == DotGet(Inside(before, Head(p)).members, Tail(q))
    ensures DotGet(after, q) == DotGet(before, q)
  {
  }

  /** Whatever the outcome, a path that is neither above nor below `p` is untouched. */
  lemma {:induction false} SetKeepsOthers(t: Table<Value>, p: Bytes, v: Value, attached: bool, q: Bytes)
    requires SoundTable(t) && NulFree(p) && WellFormed(v) && !Under(q, p) && !Under(p, q)
    ensures DotGet(DotSet(t, p, v, attached).table.members, q) == DotGet(t.members, q)
    decreases |p|
  {
    hide DotGet, WellFormed, Swapped;
    var r := DotSet(t, p, v, attached);
    if HasDot(p) {
      var o := Inside(t.members, Head(p));
      var inner := DotSet(o, Tail(p), v, attached);
      SplitNulFree(p);
      InsideIsSound(t, Head(p));
      SetIsSound(o, Tail(p), v, attached);
      SetDescends(t, p, v, attached);
      hide DotSet;
      if HasDot(q) && Head(q) == Head(p) {
        UnderDotted(q, p);
        UnderDotted(p, q);
        SetKeepsOthers(o, Tail(p), v, attached, Tail(q));
      }
      if r != Outcome(false, t) {
        DottedSetKeeps(t.members, r.table.members, inner.table, p, q);
      }
    } else if r.ok {
      SetThenGet(t, p, v, attached, q);
    }
  }

  // ---- Failing calls ----

  lemma {:induction false} SetInEmptySucceeds(p: Bytes, v: Value)
    ensures DotSet(Table([], 0), p, v, false).ok
    decreases |p|
  {
    if !HasDot(p) {
    } else {
      SetInEmptySucceeds(Tail(p), v);
    }
  }

  lemma UpdateChanges(t: Table<Value>, name: Bytes, o: Table<Value>)
    requires ObjectUnder(t.members, name).Some?
    ensures Update(t, name, AsObject(o)) == t <==> o == ObjectUnder(t.members, name).value
  {
    var i, was := IndexOf(t.members, name), ObjectUnder(t.members, name).value;
    LookupAtIndex(t.members, name);
    var after := Update(t, name, AsObject(o)).members;
    assert after[i] == Member(name, AsObject(o)) && t.members[i] == Member(name, AsObject(was));
    if o == was {
      assert after == t.members;
    }
  }

  lemma {:induction false} LookupAtIndex(ms: seq<Member<Value>>, name: Bytes)
    requires name in Names(ms)
    ensures Lookup(ms, name) == Some(ms[IndexOf(ms, name)].value)
  {
    if ms[0].name == name {
    } else {
      LookupAtIndex(ms[1..], name);
    }
  }

  /** Where a walk along the path through objects that exist already comes to its end: the object, and what of the path
      is left. */
  function Deepest(t: Table<Value>, p: Bytes): (Table<Value>, Bytes)
    decreases |p|
  {
    if HasDot(p) && ObjectUnder(t.members, Head(p)).Some?
    then Deepest(ObjectUnder(t.members, Head(p)).value, Tail(p)) else (t, p)
  }

  /** A value without a parent is set exactly when, in the deepest object that exists on the way, the last component is
      present or there is room for it; or the next component is absent and there is room. The objects below are new, and
      never too small. */
  lemma {:induction false} SetSucceedsExactly(t: Table<Value>, p: Bytes, v: Value)
    ensures var (o, rest) := Deepest(t, p);
      var room := |o.members| < o.capacity || o.capacity <= 480;
      DotSet(t, p, v, false).ok
      <==> if HasDot(rest) then Head(rest) !in Names(o.members) && room else rest in Names(o.members) || room
    decreases |p|
  {
    if !HasDot(p) {
    } else {
      SetInEmptySucceeds(Tail(p), v);
      var inner := ObjectUnder(t.members, Head(p));
      if inner.Some? {
        SetSucceedsExactly(inner.value, Tail(p), v);
      }
    }
  }

  /** A value without a parent is either set or the call changes nothing at all. */
  lemma {:induction false} FailedSetChangesNothing(t: Table<Value>, p: Bytes, v: Value)
    requires !DotSet(t, p, v, false).ok
    ensures DotSet(t, p, v, false).table == t
    decreases |p|
  {
    if !HasDot(p) {
    } else {
      SetInEmptySucceeds(Tail(p), v);
      var o := ObjectUnder(t.members, Head(p));
      if o.Some? {
        FailedSetChangesNothing(o.value, Tail(p), v);
        UpdateChanges(t, Head(p), o.value);
      }
    }
  }

  /** Some object on the way is missing, and there is room to create it. */
  predicate Creates(t: Table<Value>, p: Bytes)
    decreases |p|
  {
    HasDot(p)
    && match ObjectUnder(t.members, Head(p))
       case Some(o) => Creates(o, Tail(p))
       case None => Head(p) !in Names(t.members) && HasRoom(|t.members|, t.capacity, OBJECT_MAX_CAPACITY)
  }

  /** A value that has a parent is never set; but the call leaves the objects created on the way behind. */
  lemma {:induction false} AttachedIsRefusedLate(t: Table<Value>, p: Bytes, v: Value)
    ensures !DotSet(t, p, v, true).ok
    ensures DotSet(t, p, v, true).table == t <==> !Creates(t, p)
    decreases |p|
  {
    if !HasDot(p) {
    } else {
      var o := ObjectUnder(t.members, Head(p));
      if o.Some? {
        AttachedIsRefusedLate(o.value, Tail(p), v);
        UpdateChanges(t, Head(p), DotSet(o.value, Tail(p), v, true).table);
      } else {
        AttachedIsRefusedLate(Table([], 0), Tail(p), v);
        var grown := Add(t, Head(p), Obj([], 0));
        assert Creates(t, p) <==> grown.Some?;
        if grown.Some? {
          AddedIsNamed(t, Head(p));
          assert |grown.value.members| == |t.members| + 1;
          var inner := DotSet(Table([], 0), Tail(p), v, true).table;
          assert DotSet(t, p, v, true).table == Update(grown.value, Head(p), AsObject(inner));
        }
      }
    }
  }

  // ---- Removal ----

  /** What reading `q` gives after `p` was removed. */
  ghost predicate RemoveReads(before: seq<Member<Value>>, after: seq<Member<Value>>, p: Bytes, q: Bytes) {
    if Under(q, p) then DotGet(after, q) == None
    else if Under(p, q) then DotGet(after, q).Some? && DotGet(after, q).value.Obj?
    else DotGet(after, q) == DotGet(before, q)
  }

  lemma PlainRemoveReads(before: seq<Member<Value>>, after: seq<Member<Value>>, p: Bytes, q: Bytes)
    requires !HasDot(p) && Swapped(before, after, p, None)
    ensures RemoveReads(before, after, p, q)
  {
  }

  lemma DottedRemoveReads(before: seq<Member<Value>>, after: seq<Member<Value>>, inner: Table<Value>, p: Bytes,
                          q: Bytes)
    requires HasDot(p) && ObjectUnder(before, Head(p)).Some?
    requires Swapped(before, after, Head(p), Some(AsObject(inner)))
    requires HasDot(q) ==> RemoveReads(Inside(before, Head(p)).members, inner.members, Tail(p), Tail(q))
    ensures RemoveReads(before, after, p, q)
  {
    UnderDotted(q, p);
    if HasDot(q) {
      UnderDotted(p, q);
      DottedIs(p);
      DottedIs(q);
    } else {
      UnderPlain(p, q);
    }
  }

  /** Removal succeeds exactly on a path that is present; it then makes that path and everything below it absent, and
      leaves every unrelated path as before. A failing call changes nothing. */
  lemma {:induction false} RemoveThenGet(t: Table<Value>, p: Bytes, q: Bytes)
    requires SoundTable(t) && NulFree(p)
    ensures var r := DotRemove(t, p);
      && SoundTable(r.table)
      && (r.ok <==> DotGet(t.members, p).Some?)
      && (!r.ok ==> r.table == t)
      && (r.ok ==> RemoveReads(t.members, r.table.members, p, q))
    decreases |p|
  {
    var r := DotRemove(t, p);
    if !HasDot(p) {
      RemoveSwaps(t, p);
      if r.ok {
        PlainRemoveReads(t.members, r.table.members, p, q);
      }
    } else if ObjectUnder(t.members, Head(p)).Some? {
      var o := ObjectUnder(t.members, Head(p)).value;
      var inner := DotRemove(o, Tail(p));
      SplitNulFree(p);
      InsideIsSound(t, Head(p));
      RemoveThenGet(o, Tail(p), if HasDot(q) then Tail(q) else []);
      UpdateSwaps(t, Head(p), AsObject(inner.table));
      UpdateChanges(t, Head(p), inner.table);
      hide RemoveReads, SoundTable, WellFormed, Swapped, Update;
      if r.ok {
        DottedRemoveReads(t.members, r.table.members, inner.table, p, q);
      }
    }
  }

  lemma {:induction false} AbovePresent(ms: seq<Member<Value>>, p: Bytes, q: Bytes)
    requires DotGet(ms, p).Some? && Under(p, q)
    ensures DotGet(ms, q).Some?
    decreases |p|
  {
    if HasDot(q) {
      UnderDotted(p, q);
      AbovePresent(Inside(ms, Head(p)).members, Tail(p), Tail(q));
    } else {
      UnderPlain(p, q);
    }
  }

  /** Setting a path and removing it: exactly that path and its extensions become absent, and whatever is neither above
      nor below it is as it was before the first call. */
  lemma SetThenRemove(t: Table<Value>, p: Bytes, v: Value, q: Bytes)
    requires SoundTable(t) && NulFree(p) && WellFormed(v) && DotSet(t, p, v, false).ok
    ensures var after := DotSet(t, p, v, false).table; var r := DotRemove(after, p);
      && r.ok
      && (DotGet(r.table.members, q).Some? <==> DotGet(after.members, q).Some? && !Under(q, p))
      && (!Under(q, p) && !Under(p, q) ==> DotGet(r.table.members, q) == DotGet(t.members, q))
  {
    var after := DotSet(t, p, v, false).table;
    SetIsSound(t, p, v, false);
    SetThenGet(t, p, v, false, p);
    SetThenGet(t, p, v, false, q);
    RemoveThenGet(after, p, q);
    hide DotSet, DotRemove, DotGet, Under, SoundTable, WellFormed;
    if Under(p, q) {
      AbovePresent(after.members, p, q);
    }
  }
}
