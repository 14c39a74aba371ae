/** What a schema means, without reference to how it is checked: demands on the kinds of the values at paths. */
module SchemaMeaning {
  import opened CText
  import opened Values
  import opened Tables
  import opened Schema

  datatype Kind = Anything | NullKind | Boolean | NumberKind | Text | Array | Object

  /** To every item of an array, or to the value under a name of an object. */
  datatype Step = Each | Under(name: Bytes)

  function KindOf(v: Value): Kind {
    match v
    case Null => NullKind
    case Bool(_) => Boolean
    case Num(_) => NumberKind
    case Str(_) => Text
    case Arr(_, _) => Array
    case Obj(_, _) => Object
  }

  /** Whatever the path leads to is there and of the kind. */
  ghost predicate Meets(v: Value, path: seq<Step>, kind: Kind)
    decreases |path|
  {
    if path == [] then kind.Anything? || KindOf(v) == kind
    else
      match path[0]
      case Each => v.Arr? && forall i :: 0 <= i < |v.items| ==> Meets(v.items[i], path[1..], kind)
      case Under(name) =>
        v.Obj? && name in Names(v.members) && Meets(Lookup(v.members, name).value, path[1..], kind)
  }

  /** The demands of a schema: its own kind at every place, null being no demand; the first item of an array speaks for
      every item, and each member for the value under its name. */
  ghost predicate Demands(schema: Value, path: seq<Step>, kind: Kind)
    decreases |path|
  {
    if path == [] then kind == if schema.Null? then Anything else KindOf(schema)
    else
      match path[0]
      case Each => schema.Arr? && schema.items != [] && Demands(schema.items[0], path[1..], kind)
      case Under(name) =>
        && schema.Obj? && name in Names(schema.members)
        && Demands(Lookup(schema.members, name).value, path[1..], kind)
  }

  ghost predicate Conforms(schema: Value, v: Value) {
    forall path, kind :: Demands(schema, path, kind) ==> Meets(v, path, kind)
  }

  // ---- Checking decides the meaning ----

  lemma OwnKind(schema: Value, v: Value)
    requires Conforms(schema, v)
    ensures schema.Null? || SameKind(schema, v)
  {
    var kind := if schema.Null? then Anything else KindOf(schema);
    assert Demands(schema, [], kind);
    assert Meets(v, [], kind);
  }

  lemma ItemConforms(schema: Value, v: Value, i: nat)
    requires schema.Arr? && schema.items != [] && v.Arr? && i < |v.items| && Conforms(schema, v)
    ensures Conforms(schema.items[0], v.items[i])
  {
    forall path, kind | Demands(schema.items[0], path, kind)
      ensures Meets(v.items[i], path, kind)
    {
      var longer := [Each] + path;
      assert longer[1..] == path;
      assert Demands(schema, longer, kind);
      assert Meets(v, longer, kind);
    }
  }

  lemma MemberConforms(schema: Value, v: Value, name: Bytes)
    requires schema.Obj? && v.Obj? && name in Names(schema.members) && Conforms(schema, v)
    ensures name in Names(v.members)
    ensures Conforms(Lookup(schema.members, name).value, Lookup(v.members, name).value)
  {
    var inner := Lookup(schema.members, name).value;
    forall path, kind | Demands(inner, path, kind)
      ensures name in Names(v.members) && Meets(Lookup(v.members, name).value, path, kind)
    {
      var longer := [Under(name)] + path;
      assert longer[1..] == path;
      assert Demands(schema, longer, kind);
      assert Meets(v, longer, kind);
    }
    assert Demands(inner, [], if inner.Null? then Anything else KindOf(inner));
  }

  lemma {:induction false} ValidMeets(schema: Value, v: Value, path: seq<Step>, kind: Kind)
    requires Validates(schema, v) && Demands(schema, path, kind)
    ensures Meets(v, path, kind)
    decreases |path|
  {
    if path == [] {
    } else {
      match path[0]
      case Each =>
        forall i | 0 <= i < |v.items|
          ensures Meets(v.items[i], path[1..], kind)
        {
          ValidMeets(schema.items[0], v.items[i], path[1..], kind);
        }
      case Under(name) =>
        assert name in Names(schema.members);
        assert ValidatesUnder(schema.members, v.members, name);
        ValidMeets(Lookup(schema.members, name).value, Lookup(v.members, name).value, path[1..], kind);
    }
  }

  lemma {:induction false} ConformingIsValid(schema: Value, v: Value)
    requires WellFormed(schema) && WellFormed(v) && Conforms(schema, v)
    ensures Validates(schema, v)
    decreases schema
  {
    OwnKind(schema, v);
    match schema
    case Arr(items, _) =>
      if items != [] {
        forall i | 0 <= i < |v.items|
          ensures Validates(items[0], v.items[i])
        {
          ItemConforms(schema, v, i);
          ConformingIsValid(items[0], v.items[i]);
        }
      }
    case Obj(ms, _) =>
      forall i | 0 <= i < |ms|
        ensures ms[i].name in Names(v.members) && ValidatesUnder(ms, v.members, ms[i].name)
      {
        MemberConforms(schema, v, ms[i].name);
        LookupUnique(ms, i);
        MemberIsWellFormed(v.members, ms[i].name);
        ConformingIsValid(ms[i].value, Lookup(v.members, ms[i].name).value);
      }
      NamesWithin(ms, v.members);
    case _ =>
  }

  lemma MemberIsWellFormed(ms: seq<Member<Value>>, name: Bytes)
    requires name in Names(ms) && forall i :: 0 <= i < |ms| ==> WellFormed(ms[i].value)
    ensures WellFormed(Lookup(ms, name).value)
  {
  }

  lemma NamesWithin(ms: seq<Member<Value>>, ns: seq<Member<Value>>)
    requires UniqueNames(ms) && UniqueNames(ns) && forall i :: 0 <= i < |ms| ==> ms[i].name in Names(ns)
    ensures |ms| <= |ns|
  {
    NamesSize(ms);
    NamesSize(ns);
    SubsetSize(Names(ms), Names(ns));
  }

  /** A value passes the check exactly when it meets every demand of the schema. The check that counts members first
      refuses nothing that the names would not. */
  lemma ValidatesExactly(schema: Value, v: Value)
    requires WellFormed(schema) && WellFormed(v)
    ensures Validates(schema, v) <==> Conforms(schema, v)
  {
    if Validates(schema, v) {
      forall path, kind | Demands(schema, path, kind)
        ensures Meets(v, path, kind)
      {
        ValidMeets(schema, v, path, kind);
      }
    } else if Conforms(schema, v) {
      ConformingIsValid(schema, v);
    }
  }

  // ---- Laws ----

  /** Arrays are checked piece by piece. */
  lemma ArraysSplit(schema: Value, xs: seq<Value>, ys: seq<Value>, n: nat)
    requires schema.Arr?
    ensures Validates(schema, Arr(xs + ys, n)) <==> Validates(schema, Arr(xs, n)) && Validates(schema, Arr(ys, n))
  {
    var all := xs + ys;
    if schema.items != [] && Validates(schema, Arr(all, n)) {
      forall i | 0 <= i < |xs|
        ensures Validates(schema.items[0], xs[i])
      {
        assert xs[i] == all[i];
      }
      forall i | 0 <= i < |ys|
        ensures Validates(schema.items[0], ys[i])
      {
        assert ys[i] == all[|xs| + i];
      }
    }
  }

  lemma OneItem(schema: Value, x: Value, n: nat)
    requires schema.Arr?
    ensures Validates(schema, Arr([], n))
    ensures Validates(schema, Arr([x], n)) <==> schema.items == [] || Validates(schema.items[0], x)
  {
    assert [x][0] == x;
  }

  ghost predicate TakesMember(m: Member<Value>, v: Value)
    requires v.Obj?
  {
    m.name in Names(v.members) && Validates(m.value, Lookup(v.members, m.name).value)
  }

  /** Member by member, the count being no demand of its own. */
  lemma ObjectsSplit(ms: seq<Member<Value>>, v: Value)
    requires UniqueNames(ms) && (v.Obj? ==> UniqueNames(v.members))
    ensures Validates(Obj(ms, 0), v) <==> v.Obj? && forall i :: 0 <= i < |ms| ==> TakesMember(ms[i], v)
  {
    hide Lookup;
    if v.Obj? {
      forall i | 0 <= i < |ms|
        ensures ValidatesUnder(ms, v.members, ms[i].name) <==> TakesMember(ms[i], v)
      {
        LookupUnique(ms, i);
      }
      if forall i :: 0 <= i < |ms| ==> TakesMember(ms[i], v) {
        NamesWithin(ms, v.members);
      }
    }
  }

  /** One more member in an object schema is one more demand. */
  lemma OneMoreMember(ms: seq<Member<Value>>, m: Member<Value>, v: Value)
    requires UniqueNames(ms + [m]) && (v.Obj? ==> UniqueNames(v.members))
    ensures Validates(Obj(ms + [m], 0), v) <==> Validates(Obj(ms, 0), v) && v.Obj? && TakesMember(m, v)
  {
    hide Validates, TakesMember;
    var more := ms + [m];
    assert more[|ms|] == m && forall i :: 0 <= i < |ms| ==> more[i] == ms[i];
    ObjectsSplit(more, v);
    ObjectsSplit(ms, v);
  }
}
