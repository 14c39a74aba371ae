/** JSON values as the engine stores them, containers with their allocated capacity. */
module Values {
  import opened CText
  import opened Numbers

  datatype Option<+T> = None | Some(value: T)

  const STARTING_CAPACITY: nat := 15
  const ARRAY_MAX_CAPACITY: nat := 122880
  const OBJECT_MAX_CAPACITY: nat := 960
  const MAX_NESTING: nat := 2048

  datatype Value =
    | Null
    | Bool(b: bool)
    | Num(x: real)
    | Str(s: Bytes)
    | Arr(items: seq<Value>, capacity: nat)
    | Obj(members: seq<Member<Value>>, capacity: nat)

  datatype Member<+V> = Member(name: Bytes, value: V)

  /** json_object_nget_value: the value under the first equal name. */
  function Lookup<V>(ms: seq<Member<V>>, name: Bytes): (r: Option<V>)
    ensures r.Some? <==> name in Names(ms)
    ensures r.Some? ==> exists i :: 0 <= i < |ms| && ms[i] == Member(name, r.value)
  {
    if ms == [] then None
    else if ms[0].name == name then Some(ms[0].value)
    else Lookup(ms[1..], name)
  }

  function Names<V>(ms: seq<Member<V>>): set<Bytes> {
    set i | 0 <= i < |ms| :: ms[i].name
  }

  ghost predicate UniqueNames<V>(ms: seq<Member<V>>) {
    forall i, j :: 0 <= i < j < |ms| ==> ms[i].name != ms[j].name
  }

  lemma LookupUnique<V>(ms: seq<Member<V>>, i: nat)
    requires UniqueNames(ms) && i < |ms|
    ensures Lookup(ms, ms[i].name) == Some(ms[i].value)
  {
  }

  /** What every tree built through the engine's interface satisfies. */
  ghost predicate WellFormed(v: Value) {
    match v
    case Str(s) => NulFree(s)
    case Arr(items, capacity) =>
      && |items| <= capacity <= ARRAY_MAX_CAPACITY
      && forall i :: 0 <= i < |items| ==> WellFormed(items[i])
    case Obj(ms, capacity) =>
      && |ms| <= capacity <= OBJECT_MAX_CAPACITY
      && UniqueNames(ms)
      && forall i :: 0 <= i < |ms| ==> NulFree(ms[i].name) && WellFormed(ms[i].value)
    case _ => true
  }

  predicate Integral(x: real) {
    x == x.Floor as real
  }

  /** Every number in the tree is an integer that the printer writes exactly. */
  ghost predicate IntegerTree(v: Value) {
    match v
    case Num(x) => Integral(x) && Printable(x.Floor)
    case Arr(items, _) => forall i :: 0 <= i < |items| ==> IntegerTree(items[i])
    case Obj(ms, _) => forall i :: 0 <= i < |ms| ==> IntegerTree(ms[i].value)
    case _ => true
  }

  /** The same value with every container's capacity cut down to its count. */
  function Trimmed(v: Value): Value
    decreases v, 0
  {
    match v
    case Arr(items, _) => Arr(TrimmedItems(items), |items|)
    case Obj(ms, _) => Obj(TrimmedMembers(ms), |ms|)
    case _ => v
  }

  function TrimmedItems(items: seq<Value>): (r: seq<Value>)
    ensures |r| == |items| && forall i :: 0 <= i < |r| ==> r[i] == Trimmed(items[i])
    decreases items, 1
  {
    if items == [] then [] else [Trimmed(items[0])] + TrimmedItems(items[1..])
  }

  function TrimmedMembers(ms: seq<Member<Value>>): (r: seq<Member<Value>>)
    ensures |r| == |ms| && forall i :: 0 <= i < |r| ==> r[i] == Member(ms[i].name, Trimmed(ms[i].value))
    decreases ms, 1
  {
    if ms == [] then [] else [Member(ms[0].name, Trimmed(ms[0].value))] + TrimmedMembers(ms[1..])
  }

  /** Equal up to spare capacity. */
  predicate SameValue(a: Value, b: Value) {
    Trimmed(a) == Trimmed(b)
  }

  /** What the parser can take at nesting level `nesting`: depth and member counts within the caps. */
  ghost predicate Fits(v: Value, nesting: nat) {
    && nesting <= MAX_NESTING
    && match v
       case Arr(items, _) =>
         |items| <= ARRAY_MAX_CAPACITY && forall i :: 0 <= i < |items| ==> Fits(items[i], nesting + 1)
       case Obj(ms, _) =>
         |ms| <= OBJECT_MAX_CAPACITY && forall i :: 0 <= i < |ms| ==> Fits(ms[i].value, nesting + 1)
       case _ => true
  }

  /** Containers nested inside one another below `v`. */
  function Height(v: Value): nat
    decreases v, 0
  {
    match v
    case Arr(items, _) => HeightOfItems(items)
    case Obj(ms, _) => HeightOfMembers(ms)
    case _ => 0
  }

  function HeightOfItems(items: seq<Value>): (h: nat)
    ensures forall i :: 0 <= i < |items| ==> Height(items[i]) < h
    ensures items != [] ==> exists i :: 0 <= i < |items| && Height(items[i]) + 1 == h
    decreases items, 1
  {
    if items == [] then 0
    else
      var h0, h := Height(items[0]) + 1, HeightOfItems(items[1..]);
      assert forall i :: 0 < i < |items| ==> items[i] == items[1..][i - 1];
      if h0 > h then h0
      else
        assert exists i :: 0 <= i < |items[1..]| && Height(items[1..][i]) + 1 == h && items[1..][i] == items[i + 1];
        h
  }

  function HeightOfMembers(ms: seq<Member<Value>>): (h: nat)
    ensures forall i :: 0 <= i < |ms| ==> Height(ms[i].value) < h
    ensures ms != [] ==> exists i :: 0 <= i < |ms| && Height(ms[i].value) + 1 == h
    decreases ms, 1
  {
    if ms == [] then 0
    else
      var h0, h := Height(ms[0].value) + 1, HeightOfMembers(ms[1..]);
      assert forall i :: 0 < i < |ms| ==> ms[i] == ms[1..][i - 1];
      if h0 > h then h0
      else
        assert exists i :: 0 <= i < |ms[1..]| && Height(ms[1..][i].value) + 1 == h && ms[1..][i] == ms[i + 1];
        h
  }

  /** A well-formed tree fits at a nesting level exactly when its height stays within the parser's cap. */
  lemma {:induction false} FitsByHeight(v: Value, nesting: nat)
    requires WellFormed(v)
    ensures Fits(v, nesting) <==> nesting + Height(v) <= MAX_NESTING
  {
    match v
    case Arr(items, _) =>
      forall i | 0 <= i < |items|
        ensures Fits(items[i], nesting + 1) <==> nesting + 1 + Height(items[i]) <= MAX_NESTING
      {
        FitsByHeight(items[i], nesting + 1);
      }
    case Obj(ms, _) =>
      forall i | 0 <= i < |ms|
        ensures Fits(ms[i].value, nesting + 1) <==> nesting + 1 + Height(ms[i].value) <= MAX_NESTING
      {
        FitsByHeight(ms[i].value, nesting + 1);
      }
    case _ =>
  }
}
