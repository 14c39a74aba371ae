/** json_value_equals, and the meaning of a value with objects read as unordered maps. */
module Equality {
  import opened CText
  import opened Numbers
  import opened Values
  import opened Tables

  const EPSILON: real := 0.000001

  predicate CloseNumbers(x: real, y: real, within: real) {
    -within < x - y < within
  }

  /** What the code decides. */
  predicate Equals(a: Value, b: Value) {
    EqualsWithin(a, b, EPSILON)
  }

  /** Only names of `a` are looked up in `b`. A name that `b` lacks yields no value, whose type differs from every
      other. */
  predicate EqualsWithin(a: Value, b: Value, within: real) {
    match (a, b)
    case (Null, Null) => true
    case (Bool(x), Bool(y)) => x == y
    case (Num(x), Num(y)) => CloseNumbers(x, y, within)
    case (Str(x), Str(y)) => x == y
    case (Arr(xs, _), Arr(ys, _)) =>
      |xs| == |ys| && forall i :: 0 <= i < |xs| ==> EqualsWithin(xs[i], ys[i], within)
    case (Obj(xs, _), Obj(ys, _)) =>
      |xs| == |ys| && forall i :: 0 <= i < |xs| ==> EqualUnder(xs, ys, xs[i].name, within)
    case _ => false
  }

  predicate EqualUnder(xs: seq<Member<Value>>, ys: seq<Member<Value>>, name: Bytes, within: real)
    requires name in Names(xs)
  {
    var x, y := Lookup(xs, name), Lookup(ys, name);
    y.Some? && EqualsWithin(x.value, y.value, within)
  }

  method ValueEquals(a: Value, b: Value) returns (r: bool)
    ensures r <==> Equals(a, b)
    decreases a
  {
    match a {
      case Arr(xs, _) =>
        if !b.Arr? || |xs| != |b.items| {
          return false;
        }
        for i := 0 to |xs|
          invariant forall j :: 0 <= j < i ==> Equals(xs[j], b.items[j])
        {
          var same := ValueEquals(xs[i], b.items[i]);
          if !same {
            assert !EqualsWithin(xs[i], b.items[i], EPSILON);
            return false;
          }
        }
        return true;
      case Obj(xs, _) =>
        if !b.Obj? || |xs| != |b.members| {
          return false;
        }
        for i := 0 to |xs|
          invariant forall j :: 0 <= j < i ==> EqualUnder(xs, b.members, xs[j].name, EPSILON)
        {
          var name := xs[i].name;
          var x, y := Lookup(xs, name), Lookup(b.members, name);
          var same := false;
          if y.Some? {
            same := ValueEquals(x.value, y.value);
          }
          assert same <==> EqualUnder(xs, b.members, xs[i].name, EPSILON);
          if !same {
            return false;
          }
        }
        return true;
      case Str(x) => return b.Str? && x == b.s;
      case Bool(x) => return b.Bool? && x == b.b;
      case Num(x) => return b.Num? && CloseNumbers(x, b.x, EPSILON);
      case Null => return b.Null?;
    }
  }

  // ---- Meanings ----

  datatype Meaning =
    | Nothing
    | Truth(b: bool)
    | Number(x: real)
    | Text(s: Bytes)
    | List(items: seq<Meaning>)
    | Mapping(m: map<Bytes, Meaning>)

  /** The value with capacities dropped and the order of members forgotten. */
  function Meant(v: Value): Meaning {
    match v
    case Null => Nothing
    case Bool(b) => Truth(b)
    case Num(x) => Number(x)
    case Str(s) => Text(s)
    case Arr(items, _) => List(seq(|items|, i requires 0 <= i < |items| => Meant(items[i])))
    case Obj(ms, _) => Mapping(map n | n in Names(ms) :: Meant(Lookup(ms, n).value))
  }

  /** Equal, with numbers compared up to the tolerance. */
  ghost predicate Close(x: Meaning, y: Meaning, within: real) {
    match (x, y)
    case (Nothing, Nothing) => true
    case (Truth(a), Truth(b)) => a == b
    case (Number(a), Number(b)) => CloseNumbers(a, b, within)
    case (Text(a), Text(b)) => a == b
    case (List(a), List(b)) => |a| == |b| && forall i :: 0 <= i < |a| ==> Close(a[i], b[i], within)
    case (Mapping(a), Mapping(b)) => a.Keys == b.Keys && forall n :: n in a ==> Close(a[n], b[n], within)
    case _ => false
  }

  lemma SubsetOfSameSize<T>(a: set<T>, b: set<T>)
    requires a <= b && |a| == |b|
    ensures a == b
  {
    assert |b - a| == 0;
  }

  /** Looking up the names of one object in the other is enough: with distinct names and equal counts, the name sets
      coincide. */
  lemma {:induction false} EqualsMeansClose(a: Value, b: Value, within: real)
    requires WellFormed(a) && WellFormed(b)
    ensures EqualsWithin(a, b, within) <==> Close(Meant(a), Meant(b), within)
    decreases a
  {
    match (a, b) {
      case (Arr(xs, _), Arr(ys, _)) =>
        if |xs| == |ys| {
          forall i | 0 <= i < |xs|
            ensures EqualsWithin(xs[i], ys[i], within) <==> Close(Meant(xs[i]), Meant(ys[i]), within)
          {
            EqualsMeansClose(xs[i], ys[i], within);
          }
          assert Meant(a).items == seq(|xs|, i requires 0 <= i < |xs| => Meant(xs[i]));
          forall i | 0 <= i < |xs|
            ensures Close(Meant(a).items[i], Meant(b).items[i], within) <==> EqualsWithin(xs[i], ys[i], within)
          {
          }
        }
      case (Obj(xs, _), Obj(ys, _)) => ObjectsMeanClose(xs, ys, within);
      case _ =>
    }
  }

  lemma {:induction false} ObjectsMeanClose(xs: seq<Member<Value>>, ys: seq<Member<Value>>, within: real)
    requires UniqueNames(xs) && UniqueNames(ys)
    requires forall i :: 0 <= i < |xs| ==> WellFormed(xs[i].value)
    requires forall i :: 0 <= i < |ys| ==> WellFormed(ys[i].value)
    ensures EqualsWithin(Obj(xs, 0), Obj(ys, 0), within) <==> Close(Meant(Obj(xs, 0)), Meant(Obj(ys, 0)), within)
    decreases xs
  {
    hide EqualsWithin, Close, Meant, WellFormed;
    NamesSize(xs);
    NamesSize(ys);
    if |xs| == |ys| && Names(xs) <= Names(ys) {
      SubsetOfSameSize(Names(xs), Names(ys));
    }
    forall i | 0 <= i < |xs| && xs[i].name in Names(ys)
      ensures EqualUnder(xs, ys, xs[i].name, within)
        <==> Close(Meant(Lookup(xs, xs[i].name).value), Meant(Lookup(ys, xs[i].name).value), within)
    {
      LookupUnique(xs, i);
      var j :| 0 <= j < |ys| && ys[j].name == xs[i].name;
      LookupUnique(ys, j);
      EqualsMeansClose(xs[i].value, ys[j].value, within);
    }
    EqualsByName(xs, ys, within);
    CloseByName(xs, ys, within);
  }

  lemma EqualsByName(xs: seq<Member<Value>>, ys: seq<Member<Value>>, within: real)
    ensures EqualsWithin(Obj(xs, 0), Obj(ys, 0), within)
      <==> (|xs| == |ys| && forall n :: n in Names(xs) ==> EqualUnder(xs, ys, n, within))
  {
    hide EqualUnder, Lookup;
    if EqualsWithin(Obj(xs, 0), Obj(ys, 0), within) {
      forall n | n in Names(xs)
        ensures EqualUnder(xs, ys, n, within)
      {
        var i :| 0 <= i < |xs| && xs[i].name == n;
      }
    } else if |xs| == |ys| {
      var i :| 0 <= i < |xs| && !EqualUnder(xs, ys, xs[i].name, within);
      assert xs[i].name in Names(xs);
    }
  }

  lemma CloseByName(xs: seq<Member<Value>>, ys: seq<Member<Value>>, within: real)
    ensures Close(Meant(Obj(xs, 0)), Meant(Obj(ys, 0)), within)
      <==> (Names(xs) == Names(ys)
            && forall n :: n in Names(xs) ==> Close(Meant(Lookup(xs, n).value), Meant(Lookup(ys, n).value), within))
  {
    hide Names, Lookup;
    var a, b := Meant(Obj(xs, 0)).m, Meant(Obj(ys, 0)).m;
    assert a.Keys == Names(xs) && b.Keys == Names(ys);
    forall n | n in Names(xs) && n in Names(ys)
      ensures Close(a[n], b[n], within) <==> Close(Meant(Lookup(xs, n).value), Meant(Lookup(ys, n).value), within)
    {
    }
  }

  // ---- An equivalence, on decimals ----

  function Times(x: real, n: nat): real {
    x * n as real
  }

  /** The number is a whole number of steps of `1 / steps`. */
  predicate OnGridNumber(x: real, steps: nat) {
    Integral(Times(x, steps))
  }

  ghost predicate GridTree(v: Value, steps: nat) {
    match v
    case Num(x) => OnGridNumber(x, steps)
    case Arr(items, _) => forall i :: 0 <= i < |items| ==> GridTree(items[i], steps)
    case Obj(ms, _) => forall i :: 0 <= i < |ms| ==> GridTree(ms[i].value, steps)
    case _ => true
  }

  ghost predicate OnGrid(x: Meaning, steps: nat) {
    match x
    case Number(r) => OnGridNumber(r, steps)
    case List(items) => forall i :: 0 <= i < |items| ==> OnGrid(items[i], steps)
    case Mapping(m) => forall n :: n in m ==> OnGrid(m[n], steps)
    case _ => true
  }

  /** The tolerance tells two neighbours on the grid apart. */
  predicate Fine(within: real, steps: nat) {
    steps > 0 && 0.0 < within && within * steps as real <= 1.0
  }

  /** Every number in the tree has at most six decimals. */
  ghost predicate SixDecimals(v: Value) {
    GridTree(v, 1_000_000)
  }

  lemma {:induction false} ProductOfIntegers(k: int, n: nat)
    ensures k as real * n as real == (k * n) as real
  {
    if n == 0 {
    } else {
      ProductOfIntegers(k, n - 1);
      assert k * n == k * (n - 1) + k;
      assert k as real * n as real == k as real * (n - 1) as real + k as real;
    }
  }

  lemma IntegralIs(x: real, k: int)
    requires x == k as real
    ensures Integral(x)
  {
  }

  lemma IntegerIsOnGrid(x: real, steps: nat)
    requires Integral(x)
    ensures OnGridNumber(x, steps)
  {
    hide Integral;
    var k := x.Floor;
    assert x == k as real by {
      WholePart(x);
    }
    ProductOfIntegers(k, steps);
    IntegralIs(Times(x, steps), k * steps);
  }

  lemma WholePart(x: real)
    requires Integral(x)
    ensures x == x.Floor as real
  {
  }

  lemma {:induction false} IntegersHaveSixDecimals(v: Value)
    requires IntegerTree(v)
    ensures GridTree(v, 1) && SixDecimals(v)
  {
    match v
    case Num(x) =>
      IntegerIsOnGrid(x, 1);
      IntegerIsOnGrid(x, 1_000_000);
    case Arr(items, _) =>
      forall i | 0 <= i < |items|
        ensures GridTree(items[i], 1) && SixDecimals(items[i])
      {
        IntegersHaveSixDecimals(items[i]);
      }
    case Obj(ms, _) =>
      forall i | 0 <= i < |ms|
        ensures GridTree(ms[i].value, 1) && SixDecimals(ms[i].value)
      {
        IntegersHaveSixDecimals(ms[i].value);
      }
    case _ =>
  }

  /** Two numbers are equal exactly when a million times their difference lies strictly between -1 and 1. */
  lemma NumbersEqualExactly(x: real, y: real)
    ensures Equals(Num(x), Num(y)) <==> -1.0 < 1_000_000.0 * (x - y) < 1.0
  {
  }

  /** On trees with at most six decimals, and so on integer trees, equality decides exactly whether two trees mean the
      same. */
  lemma EqualsDecidesMeaning(a: Value, b: Value)
    requires WellFormed(a) && WellFormed(b) && SixDecimals(a) && SixDecimals(b)
    ensures Equals(a, b) <==> Meant(a) == Meant(b)
  {
    EqualsMeansClose(a, b, EPSILON);
    GridMeant(a, 1_000_000);
    GridMeant(b, 1_000_000);
    CloseOnGrid(Meant(a), Meant(b), EPSILON, 1_000_000);
  }

  lemma {:induction false} GridMeant(v: Value, steps: nat)
    requires GridTree(v, steps)
    ensures OnGrid(Meant(v), steps)
  {
    match v
    case Arr(items, _) =>
      forall i | 0 <= i < |items|
        ensures OnGrid(Meant(v).items[i], steps)
      {
        GridMeant(items[i], steps);
      }
    case Obj(ms, _) =>
      forall n | n in Names(ms)
        ensures OnGrid(Meant(Lookup(ms, n).value), steps)
      {
        GridMeant(Lookup(ms, n).value, steps);
      }
    case _ =>
  }

  lemma Scaled(d: real, within: real, steps: nat)
    requires steps > 0 && -within < d < within
    ensures -within * steps as real < d * steps as real < within * steps as real
  {
  }

  lemma SameScaled(a: real, b: real, steps: nat)
    requires steps > 0 && a * steps as real == b * steps as real
    ensures a == b
  {
    assert (a - b) * steps as real == 0.0;
  }

  lemma CloseGridNumbers(a: real, b: real, within: real, steps: nat)
    requires Fine(within, steps) && OnGridNumber(a, steps) && OnGridNumber(b, steps)
    ensures CloseNumbers(a, b, within) <==> a == b
  {
    var x, y := Times(a, steps), Times(b, steps);
    if CloseNumbers(a, b, within) {
      Scaled(a - b, within, steps);
      assert (a - b) * steps as real == x - y;
      assert -1.0 < x - y < 1.0;
      assert x - y == (x.Floor - y.Floor) as real;
      assert x.Floor == y.Floor;
      SameScaled(a, b, steps);
    }
  }

  lemma {:induction false} CloseOnGrid(x: Meaning, y: Meaning, within: real, steps: nat)
    requires Fine(within, steps) && OnGrid(x, steps) && OnGrid(y, steps)
    ensures Close(x, y, within) <==> x == y
    decreases x, 1
  {
    hide CloseNumbers, OnGridNumber, Fine;
    match (x, y)
    case (Number(a), Number(b)) => CloseGridNumbers(a, b, within, steps);
    case (List(a), List(b)) => CloseLists(a, b, within, steps);
    case (Mapping(a), Mapping(b)) => CloseMappings(a, b, within, steps);
    case _ =>
  }

  lemma {:induction false} CloseLists(a: seq<Meaning>, b: seq<Meaning>, within: real, steps: nat)
    requires Fine(within, steps) && OnGrid(List(a), steps) && OnGrid(List(b), steps)
    ensures Close(List(a), List(b), within) <==> a == b
    decreases List(a), 0
  {
    if |a| == |b| {
      forall i | 0 <= i < |a|
        ensures Close(a[i], b[i], within) <==> a[i] == b[i]
      {
        CloseOnGrid(a[i], b[i], within, steps);
      }
    }
    hide OnGrid, Fine;
    if Close(List(a), List(b), within) {
      assert forall i :: 0 <= i < |a| ==> Close(a[i], b[i], within);
      assert a == b;
    }
  }

  lemma {:induction false} CloseMappings(a: map<Bytes, Meaning>, b: map<Bytes, Meaning>, within: real, steps: nat)
    requires Fine(within, steps) && OnGrid(Mapping(a), steps) && OnGrid(Mapping(b), steps)
    ensures Close(Mapping(a), Mapping(b), within) <==> a == b
    decreases Mapping(a), 0
  {
    if a.Keys == b.Keys {
      forall n | n in a
        ensures Close(a[n], b[n], within) <==> a[n] == b[n]
      {
        CloseOnGrid(a[n], b[n], within, steps);
      }
    }
    hide OnGrid, Fine;
    if Close(Mapping(a), Mapping(b), within) {
      forall n | n in a
        ensures n in b && a[n] == b[n]
      {
        assert Close(a[n], b[n], within);
      }
      assert a == b;
    }
  }

  /** Equality is symmetric on all trees, although it is decided by looking up one side in the other. */
  lemma EqualsSymmetric(a: Value, b: Value)
    requires WellFormed(a) && WellFormed(b)
    ensures Equals(a, b) <==> Equals(b, a)
  {
    EqualsMeansClose(a, b, EPSILON);
    EqualsMeansClose(b, a, EPSILON);
    CloseSymmetric(Meant(a), Meant(b), EPSILON);
    CloseSymmetric(Meant(b), Meant(a), EPSILON);
  }

  lemma {:induction false} CloseSymmetric(x: Meaning, y: Meaning, within: real)
    ensures Close(x, y, within) ==> Close(y, x, within)
    decreases x
  {
    match (x, y)
    case (List(a), List(b)) =>
      if Close(x, y, within) {
        forall i | 0 <= i < |a|
          ensures Close(b[i], a[i], within)
        {
          CloseSymmetric(a[i], b[i], within);
        }
      }
    case (Mapping(a), Mapping(b)) =>
      if Close(x, y, within) {
        forall n | n in b
          ensures Close(b[n], a[n], within)
        {
          CloseSymmetric(a[n], b[n], within);
        }
      }
    case _ =>
  }

  lemma {:induction false} EqualsReflexive(a: Value)
    requires WellFormed(a)
    ensures Equals(a, a)
  {
    EqualsMeansClose(a, a, EPSILON);
    CloseReflexive(Meant(a), EPSILON);
  }

  lemma {:induction false} CloseReflexive(x: Meaning, within: real)
    requires within > 0.0
    ensures Close(x, x, within)
  {
    match x
    case List(a) =>
      forall i | 0 <= i < |a|
        ensures Close(a[i], a[i], within)
      {
        CloseReflexive(a[i], within);
      }
    case Mapping(a) =>
      forall n | n in a
        ensures Close(a[n], a[n], within)
      {
        CloseReflexive(a[n], within);
      }
    case _ =>
  }

  // ---- When equality is transitive ----

  /** Differences of two comparisons add up. */
  lemma {:induction false} CloseAddsUp(x: Meaning, y: Meaning, z: Meaning, d: real, e: real)
    requires Close(x, y, d) && Close(y, z, e)
    ensures Close(x, z, d + e)
    decreases x
  {
    match (x, y, z)
    case (List(a), List(b), List(c)) =>
      forall i | 0 <= i < |a|
        ensures Close(a[i], c[i], d + e)
      {
        CloseAddsUp(a[i], b[i], c[i], d, e);
      }
    case (Mapping(a), Mapping(b), Mapping(c)) =>
      forall n | n in a
        ensures Close(a[n], c[n], d + e)
      {
        CloseAddsUp(a[n], b[n], c[n], d, e);
      }
    case _ =>
  }

  /** Equal within twice the tolerance. */
  predicate Near(a: Value, c: Value) {
    EqualsWithin(a, c, 2.0 * EPSILON)
  }

  /** `a` with each number moved half-way to the number at its place in `c`. */
  function Midway(a: Value, c: Value): Value
    decreases a, 0
  {
    match (a, c)
    case (Num(x), Num(z)) => Num((x + z) / 2.0)
    case (Arr(xs, capacity), Arr(zs, _)) => if |xs| == |zs| then Arr(MidwayItems(xs, zs), capacity) else a
    case (Obj(xs, capacity), Obj(zs, _)) => Obj(MidwayMembers(xs, zs), capacity)
    case _ => a
  }

  function MidwayItems(xs: seq<Value>, zs: seq<Value>): (ys: seq<Value>)
    requires |xs| == |zs|
    ensures |ys| == |xs| && forall i :: 0 <= i < |xs| ==> ys[i] == Midway(xs[i], zs[i])
    decreases xs, 1
  {
    if xs == [] then [] else [Midway(xs[0], zs[0])] + MidwayItems(xs[1..], zs[1..])
  }

  function MidwayMembers(xs: seq<Member<Value>>, zs: seq<Member<Value>>): (ys: seq<Member<Value>>)
    ensures |ys| == |xs| && forall i :: 0 <= i < |xs| ==> ys[i] == MidwayMember(xs[i], zs)
    decreases xs, 1
  {
    if xs == [] then [] else [MidwayMember(xs[0], zs)] + MidwayMembers(xs[1..], zs)
  }

  function MidwayMember(x: Member<Value>, zs: seq<Member<Value>>): Member<Value>
    decreases x, 1
  {
    var z := Lookup(zs, x.name);
    Member(x.name, if z.Some? then Midway(x.value, z.value) else x.value)
  }

  lemma {:induction false} MidwayIsWellFormed(a: Value, c: Value)
    requires WellFormed(a)
    ensures WellFormed(Midway(a, c))
    decreases a
  {
    match (a, c)
    case (Arr(xs, _), Arr(zs, _)) =>
      if |xs| == |zs| {
        forall i | 0 <= i < |xs|
          ensures WellFormed(Midway(xs[i], zs[i]))
        {
          MidwayIsWellFormed(xs[i], zs[i]);
        }
      }
    case (Obj(xs, _), Obj(zs, _)) =>
      forall i | 0 <= i < |xs|
        ensures WellFormed(MidwayMember(xs[i], zs).value)
      {
        if Lookup(zs, xs[i].name).Some? {
          MidwayIsWellFormed(xs[i].value, Lookup(zs, xs[i].name).value);
        }
      }
    case _ =>
  }

  lemma {:induction false} MidwayIsClose(a: Value, c: Value, within: real)
    requires WellFormed(a) && EqualsWithin(a, c, 2.0 * within)
    ensures EqualsWithin(a, Midway(a, c), within) && EqualsWithin(Midway(a, c), c, within)
    decreases a
  {
    match (a, c)
    case (Arr(xs, _), Arr(zs, _)) =>
      forall i | 0 <= i < |xs|
        ensures EqualsWithin(xs[i], Midway(xs[i], zs[i]), within) && EqualsWithin(Midway(xs[i], zs[i]), zs[i], within)
      {
        MidwayIsClose(xs[i], zs[i], within);
      }
    case (Obj(xs, _), Obj(zs, _)) => MidwayObjectIsClose(xs, zs, within);
    case _ =>
  }

  lemma {:induction false} MidwayObjectIsClose(xs: seq<Member<Value>>, zs: seq<Member<Value>>, within: real)
    requires UniqueNames(xs) && forall i :: 0 <= i < |xs| ==> WellFormed(xs[i].value)
    requires EqualsWithin(Obj(xs, 0), Obj(zs, 0), 2.0 * within)
    ensures EqualsWithin(Obj(xs, 0), Obj(MidwayMembers(xs, zs), 0), within)
    ensures EqualsWithin(Obj(MidwayMembers(xs, zs), 0), Obj(zs, 0), within)
    decreases xs
  {
    var ys := MidwayMembers(xs, zs);
    forall i | 0 <= i < |xs|
      ensures EqualUnder(xs, ys, xs[i].name, within) && EqualUnder(ys, zs, ys[i].name, within)
    {
      LookupUnique(xs, i);
      LookupUnique(ys, i);
      assert EqualUnder(xs, zs, xs[i].name, 2.0 * within);
      MidwayIsClose(xs[i].value, Lookup(zs, xs[i].name).value, within);
    }
  }

  /** Two trees have a tree equal to both between them exactly when they are within twice the tolerance. */
  lemma EqualInTwoSteps(a: Value, c: Value)
    requires WellFormed(a) && WellFormed(c)
    ensures (exists b :: WellFormed(b) && Equals(a, b) && Equals(b, c)) <==> Near(a, c)
  {
    hide EqualsWithin, Close, Meant, WellFormed, Midway;
    assert Near(a, c) == EqualsWithin(a, c, EPSILON + EPSILON);
    if b :| WellFormed(b) && Equals(a, b) && Equals(b, c) {
      EqualsMeansClose(a, b, EPSILON);
      EqualsMeansClose(b, c, EPSILON);
      CloseAddsUp(Meant(a), Meant(b), Meant(c), EPSILON, EPSILON);
      EqualsMeansClose(a, c, EPSILON + EPSILON);
    }
    if Near(a, c) {
      MidwayIsWellFormed(a, c);
      MidwayIsClose(a, c, EPSILON);
      assert WellFormed(Midway(a, c)) && Equals(a, Midway(a, c)) && Equals(Midway(a, c), c);
    }
  }

  /** Between two trees, equality is transitive over every tree between them exactly when being within twice the
      tolerance makes them equal. */
  lemma TransitiveExactly(a: Value, c: Value)
    requires WellFormed(a) && WellFormed(c)
    ensures (forall b :: WellFormed(b) && Equals(a, b) && Equals(b, c) ==> Equals(a, c))
      <==> (Near(a, c) ==> Equals(a, c))
  {
    EqualInTwoSteps(a, c);
  }

  /** Between integer trees it is transitive, over any tree. */
  lemma EqualsTransitive(a: Value, b: Value, c: Value)
    requires WellFormed(a) && WellFormed(b) && WellFormed(c) && IntegerTree(a) && IntegerTree(c)
    requires Equals(a, b) && Equals(b, c)
    ensures Equals(a, c)
  {
    EqualInTwoSteps(a, c);
    EqualsMeansClose(a, c, 2.0 * EPSILON);
    IntegersHaveSixDecimals(a);
    IntegersHaveSixDecimals(c);
    GridMeant(a, 1);
    GridMeant(c, 1);
    CloseOnGrid(Meant(a), Meant(c), 2.0 * EPSILON, 1);
    EqualsMeansClose(a, c, EPSILON);
    CloseOnGrid(Meant(a), Meant(c), EPSILON, 1);
  }

  /** Among trees with at most six decimals it is transitive. */
  lemma DecimalsTransitive(a: Value, b: Value, c: Value)
    requires WellFormed(a) && WellFormed(b) && WellFormed(c)
    requires SixDecimals(a) && SixDecimals(b) && SixDecimals(c)
    requires Equals(a, b) && Equals(b, c)
    ensures Equals(a, c)
  {
    EqualsDecidesMeaning(a, b);
    EqualsDecidesMeaning(b, c);
    EqualsDecidesMeaning(a, c);
  }

  /** With fractions, differences below the tolerance add up: equality is then not transitive. */
  lemma FractionsNotTransitive()
    ensures exists a, b, c ::
      WellFormed(a) && WellFormed(b) && WellFormed(c) && Equals(a, b) && Equals(b, c) && !Equals(a, c)
  {
    var a, b, c := Num(0.0), Num(0.0000009), Num(0.0000018);
    assert WellFormed(a) && WellFormed(b) && WellFormed(c);
    assert Equals(a, b) && Equals(b, c) && !Equals(a, c);
  }
}
