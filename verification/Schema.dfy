/** json_validate, and when validating against one schema implies validating against another. */
module Schema {
  import opened CText
  import opened Values
  import opened Tables

  predicate SameKind(a: Value, b: Value) {
    match (a, b)
    case (Null, Null) => true
    case (Bool(_), Bool(_)) => true
    case (Num(_), Num(_)) => true
    case (Str(_), Str(_)) => true
    case (Arr(_, _), Arr(_, _)) => true
    case (Obj(_, _), Obj(_, _)) => true
    case _ => false
  }

  /** What the code decides: null stands for every value, an array schema uses its first item only, an empty array or
      object schema takes every array or object. */
  predicate Validates(schema: Value, v: Value) {
    if schema.Null? then true
    else if !SameKind(schema, v) then false
    else
      match schema
      case Arr(items, _) => items == [] || forall i :: 0 <= i < |v.items| ==> Validates(items[0], v.items[i])
      case Obj(ms, _) =>
        ms == [] || (|ms| <= |v.members| && forall i :: 0 <= i < |ms| ==> ValidatesUnder(ms, v.members, ms[i].name))
      case _ => true
  }

  predicate ValidatesUnder(schema: seq<Member<Value>>, ms: seq<Member<Value>>, name: Bytes)
    requires name in Names(schema)
  {
    var s, v := Lookup(schema, name), Lookup(ms, name);
    v.Some? && Validates(s.value, v.value)
  }

  method Validate(schema: Value, v: Value) returns (ok: bool)
    ensures ok <==> Validates(schema, v)
    decreases schema
  {
    if !SameKind(schema, v) && !schema.Null? {
      return false;
    }
    match schema {
      case Arr(items, _) =>
        if |items| == 0 {
          return true;
        }
        for i := 0 to |v.items|
          invariant forall j :: 0 <= j < i ==> Validates(items[0], v.items[j])
        {
          var valid := Validate(items[0], v.items[i]);
          if !valid {
            return false;
          }
        }
        return true;
      case Obj(ms, _) =>
        if |ms| == 0 {
          return true;
        } else if |v.members| < |ms| {
          return false;
        }
        for i := 0 to |ms|
          invariant forall j :: 0 <= j < i ==> ValidatesUnder(ms, v.members, ms[j].name)
        {
          var name := ms[i].name;
          var s, w := Lookup(ms, name), Lookup(v.members, name);
          if w.None? {
            return false;
          }
          var valid := Validate(s.value, w.value);
          if !valid {
            return false;
          }
        }
        return true;
      case _ => return true;
    }
  }

  // ---- Composition ----

  ghost predicate NoEmptyArray(v: Value) {
    match v
    case Arr(items, _) => items != [] && forall i :: 0 <= i < |items| ==> NoEmptyArray(items[i])
    case Obj(ms, _) => forall i :: 0 <= i < |ms| ==> NoEmptyArray(ms[i].value)
    case _ => true
  }

  /** Decided on the schemas alone: every value that `t` takes is taken by `s`. */
  predicate Covers(s: Value, t: Value) {
    if s.Null? then true
    else if !SameKind(s, t) then false
    else
      match s
      case Arr(items, _) =>
        items == [] || items[0].Null? || (t.items != [] && Covers(items[0], t.items[0]))
      case Obj(ms, _) => forall i :: 0 <= i < |ms| ==> CoversUnder(ms, t.members, ms[i].name)
      case _ => true
  }

  predicate CoversUnder(s: seq<Member<Value>>, t: seq<Member<Value>>, name: Bytes)
    requires name in Names(s)
  {
    Lookup(t, name).Some? && Covers(Lookup(s, name).value, Lookup(t, name).value)
  }

  /** An empty schema array breaks composition: it is a valid instance of every array schema, yet takes every array. */
  lemma EmptyArrayBreaksComposition()
    ensures exists s, t, v :: Validates(s, t) && Validates(t, v) && !Validates(s, v)
  {
    var s, t, v := Arr([Bool(true)], 1), Arr([], 0), Arr([Null], 1);
    assert !Validates(s, v) by {
      assert !Validates(s.items[0], v.items[0]);
    }
    assert Validates(s, t) && Validates(t, v);
  }

  lemma {:induction false} CoversIsEnough(s: Value, t: Value, v: Value)
    requires WellFormed(s) && WellFormed(t) && Covers(s, t) && Validates(t, v)
    ensures Validates(s, v)
  {
    if !s.Null? {
      match s
      case Arr(items, _) =>
        if items != [] {
          forall i | 0 <= i < |v.items|
            ensures Validates(items[0], v.items[i])
          {
            if !items[0].Null? {
              CoversIsEnough(items[0], t.items[0], v.items[i]);
            }
          }
        }
      case Obj(ms, _) => ObjectCoversIsEnough(ms, t.members, v.members);
      case _ =>
    }
  }

  lemma {:induction false} ObjectCoversIsEnough(s: seq<Member<Value>>, t: seq<Member<Value>>, v: seq<Member<Value>>)
    requires WellFormedMembers(s) && WellFormedMembers(t)
    requires Covers(Obj(s, 0), Obj(t, 0)) && Validates(Obj(t, 0), Obj(v, 0))
    ensures Validates(Obj(s, 0), Obj(v, 0))
  {
    hide WellFormed, UniqueNames;
    CoveredNames(s, t);
    forall i | 0 <= i < |s|
      ensures ValidatesUnder(s, v, s[i].name)
    {
      var name := s[i].name;
      assert CoversUnder(s, t, name);
      assert name in Names(t);
      var j :| 0 <= j < |t| && t[j].name == name;
      assert ValidatesUnder(t, v, name);
      MemberWellFormed(s, name);
      MemberWellFormed(t, name);
      CoversIsEnough(Lookup(s, name).value, Lookup(t, name).value, Lookup(v, name).value);
    }
  }

  ghost predicate WellFormedMembers(ms: seq<Member<Value>>) {
    UniqueNames(ms) && forall i :: 0 <= i < |ms| ==> NulFree(ms[i].name) && WellFormed(ms[i].value)
  }

  lemma MemberWellFormed(ms: seq<Member<Value>>, name: Bytes)
    requires WellFormedMembers(ms) && name in Names(ms)
    ensures NulFree(name) && WellFormed(Lookup(ms, name).value)
  {
  }

  lemma CoveredNames(s: seq<Member<Value>>, t: seq<Member<Value>>)
    requires WellFormedMembers(s) && WellFormedMembers(t) && Covers(Obj(s, 0), Obj(t, 0))
    ensures Names(s) <= Names(t) && |s| <= |t|
  {
    NamesSize(s);
    NamesSize(t);
    forall n | n in Names(s)
      ensures n in Names(t)
    {
      assert CoversUnder(s, t, n);
    }
    SubsetSize(Names(s), Names(t));
  }

  lemma SubsetSize<T>(a: set<T>, b: set<T>)
    requires a <= b
    ensures |a| <= |b|
  {
    assert |b| == |a| + |b - a| by {
      assert b == a + (b - a);
    }
  }

  // ---- Witnesses ----

  /** A least instance of a schema. */
  function Instance(t: Value): Value
    decreases t, 0
  {
    match t
    case Arr(_, _) => Arr([], 0)
    case Obj(ms, _) => Obj(Instances(ms), |ms|)
    case _ => t
  }

  function Instances(ms: seq<Member<Value>>): (r: seq<Member<Value>>)
    ensures |r| == |ms| && forall i :: 0 <= i < |r| ==> r[i] == Member(ms[i].name, Instance(ms[i].value))
    decreases ms, 1
  {
    if ms == [] then [] else [Member(ms[0].name, Instance(ms[0].value))] + Instances(ms[1..])
  }

  lemma {:induction false} InstanceIsValid(t: Value)
    requires WellFormed(t)
    ensures WellFormed(Instance(t)) && Validates(t, Instance(t))
  {
    match t
    case Obj(ms, _) =>
      forall i | 0 <= i < |ms|
        ensures WellFormed(Instance(ms[i].value)) && Validates(ms[i].value, Instance(ms[i].value))
      {
        InstanceIsValid(ms[i].value);
      }
      MemberwiseValid(ms, Instances(ms));
    case _ =>
  }

  lemma MemberwiseValid(t: seq<Member<Value>>, v: seq<Member<Value>>)
    requires UniqueNames(t) && |t| == |v|
    requires forall i :: 0 <= i < |t| ==> v[i].name == t[i].name && Validates(t[i].value, v[i].value)
    ensures UniqueNames(v) && Names(v) == Names(t)
    ensures Validates(Obj(t, |t|), Obj(v, |v|))
  {
  }

  function OfOtherKind(s: Value): Value {
    if s.Bool? then Num(0.0) else Bool(true)
  }

  /** Where the first schema does not cover the second, some instance of the second is refused by the first. */
  lemma {:induction false} Separated(s: Value, t: Value) returns (v: Value)
    requires WellFormed(s) && WellFormed(t) && !Covers(s, t)
    ensures WellFormed(v) && Validates(t, v) && !Validates(s, v)
    decreases s
  {
    InstanceIsValid(t);
    if t.Null? {
      v := OfOtherKind(s);
    } else if !SameKind(s, t) {
      v := Instance(t);
    } else if s.Arr? {
      var w := OfOtherKind(s.items[0]);
      if t.items != [] {
        w := Separated(s.items[0], t.items[0]);
      }
      v := Arr([w], 1);
      assert !Validates(s.items[0], v.items[0]);
    } else {
      v := SeparatedObject(s.members, t.members);
    }
  }

  lemma {:induction false} SeparatedObject(s: seq<Member<Value>>, t: seq<Member<Value>>) returns (v: Value)
    requires WellFormedMembers(s) && WellFormedMembers(t) && |t| <= OBJECT_MAX_CAPACITY
    requires !Covers(Obj(s, 0), Obj(t, 0))
    ensures WellFormed(v) && Validates(Obj(t, 0), v) && !Validates(Obj(s, 0), v)
    decreases s
  {
    var i :| 0 <= i < |s| && !CoversUnder(s, t, s[i].name);
    hide *;
    var name := s[i].name;
    InstancesAreValid(t);
    var ms := Instances(t);
    if name in Names(t) {
      var j := IndexOf(t, name);
      NotCoveredUnder(s, t, i, j);
      var w := Separated(s[i].value, t[j].value);
      ms := ms[j := Member(name, w)];
      MembersAreValid(t, ms);
      RefusedUnder(s, ms, i, j);
    } else {
      MembersAreValid(t, ms);
    }
    v := Obj(ms, |ms|);
    RefusedObject(s, ms, i);
  }

  lemma InstancesAreValid(t: seq<Member<Value>>)
    requires WellFormedMembers(t)
    ensures forall i :: 0 <= i < |t| ==>
      WellFormed(Instances(t)[i].value) && Validates(t[i].value, Instances(t)[i].value)
  {
    forall i | 0 <= i < |t|
      ensures WellFormed(Instance(t[i].value)) && Validates(t[i].value, Instance(t[i].value))
    {
      InstanceIsValid(t[i].value);
    }
  }

  lemma NotCoveredUnder(s: seq<Member<Value>>, t: seq<Member<Value>>, i: nat, j: nat)
    requires WellFormedMembers(s) && WellFormedMembers(t)
    requires i < |s| && j < |t| && s[i].name == t[j].name && !CoversUnder(s, t, s[i].name)
    ensures WellFormed(s[i].value) && WellFormed(t[j].value) && !Covers(s[i].value, t[j].value)
  {
  }

  lemma MembersAreValid(t: seq<Member<Value>>, v: seq<Member<Value>>)
    requires WellFormedMembers(t) && |t| == |v| <= OBJECT_MAX_CAPACITY
    requires forall i :: 0 <= i < |t| ==>
      v[i].name == t[i].name && WellFormed(v[i].value) && Validates(t[i].value, v[i].value)
    ensures WellFormed(Obj(v, |v|)) && WellFormedMembers(v) && Validates(Obj(t, 0), Obj(v, |v|))
    ensures Names(v) == Names(t)
  {
  }

  lemma RefusedUnder(s: seq<Member<Value>>, v: seq<Member<Value>>, i: nat, j: nat)
    requires WellFormedMembers(s) && WellFormedMembers(v) && i < |s| && j < |v| && s[i].name == v[j].name
    requires !Validates(s[i].value, v[j].value)
    ensures !ValidatesUnder(s, v, s[i].name)
  {
  }

  lemma RefusedObject(s: seq<Member<Value>>, v: seq<Member<Value>>, i: nat)
    requires i < |s| && (s[i].name in Names(v) ==> !ValidatesUnder(s, v, s[i].name))
    ensures !Validates(Obj(s, 0), Obj(v, |v|))
  {
  }

  /** Validating against `t` implies validating against `s`, for all values, exactly when `s` covers `t`. */
  lemma CompositionExactly(s: Value, t: Value)
    requires WellFormed(s) && WellFormed(t)
    ensures (forall v :: WellFormed(v) && Validates(t, v) ==> Validates(s, v)) <==> Covers(s, t)
  {
    if Covers(s, t) {
      forall v | WellFormed(v) && Validates(t, v)
        ensures Validates(s, v)
      {
        CoversIsEnough(s, t, v);
      }
    } else {
      var v := Separated(s, t);
    }
  }

  /** A schema that is itself a valid instance, without empty arrays, is covered. */
  lemma {:induction false} ValidIsCovered(s: Value, t: Value)
    requires WellFormed(s) && WellFormed(t) && Validates(s, t) && NoEmptyArray(t)
    ensures Covers(s, t)
  {
    match s
    case Arr(items, _) =>
      if items != [] {
        ValidIsCovered(items[0], t.items[0]);
      }
    case Obj(ms, _) =>
      forall i | 0 <= i < |ms|
        ensures CoversUnder(ms, t.members, ms[i].name)
      {
        var name := ms[i].name;
        assert ValidatesUnder(ms, t.members, name);
        assert name in Names(t.members);
        ValidIsCovered(Lookup(ms, name).value, Lookup(t.members, name).value);
      }
    case _ =>
  }

  /** Schemas compose, empty arrays apart. */
  lemma ValidationComposes(s: Value, t: Value, v: Value)
    requires WellFormed(s) && WellFormed(t) && NoEmptyArray(t)
    requires Validates(s, t) && Validates(t, v)
    ensures Validates(s, v)
  {
    ValidIsCovered(s, t);
    CoversIsEnough(s, t, v);
  }
}
