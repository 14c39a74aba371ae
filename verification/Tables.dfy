/** json_object_t as a value: named members in order, and the capacity allocated for them. */
module Tables {
  import opened CText
  import opened Values

  datatype Table<+V> = Table(members: seq<Member<V>>, capacity: nat)

  /** The value of an object. */
  function AsObject(t: Table<Value>): Value {
    Obj(t.members, t.capacity)
  }

  ghost predicate Valid<V>(t: Table<V>) {
    UniqueNames(t.members) && |t.members| <= t.capacity <= OBJECT_MAX_CAPACITY
  }

  /** MAX(capacity * 2, STARTING_CAPACITY) */
  function Doubled(capacity: nat): nat {
    if capacity * 2 > STARTING_CAPACITY then capacity * 2 else STARTING_CAPACITY
  }

  /** There is a free slot, or doubling stays within the limit. */
  predicate HasRoom(count: nat, capacity: nat, limit: nat) {
    count < capacity || Doubled(capacity) <= limit
  }

  function CapacityAfterAdd(count: nat, capacity: nat): nat {
    if count < capacity then capacity else Doubled(capacity)
  }

  /** json_object_add */
  function Add<V>(t: Table<V>, name: Bytes, value: V): Option<Table<V>> {
    if Lookup(t.members, name).Some? then None
    else if !HasRoom(|t.members|, t.capacity, OBJECT_MAX_CAPACITY) then None
    else Some(Table(t.members + [Member(name, value)], CapacityAfterAdd(|t.members|, t.capacity)))
  }

  /** The first index with that name, or the count. */
  function IndexOf<V>(ms: seq<Member<V>>, name: Bytes): (i: nat)
    ensures i <= |ms| && (i < |ms| ==> ms[i].name == name)
    ensures forall j :: 0 <= j < i ==> ms[j].name != name
    ensures i < |ms| <==> name in Names(ms)
  {
    if ms == [] then 0
    else if ms[0].name == name then 0
    else
      var rest := IndexOf(ms[1..], name);
      assert forall j :: 0 < j < 1 + rest ==> ms[j] == ms[1..][j - 1];
      1 + rest
  }

  /** json_object_set_value, for a value that has no parent yet. */
  function Put<V>(t: Table<V>, name: Bytes, value: V): Option<Table<V>> {
    var i := IndexOf(t.members, name);
    if i < |t.members| then Some(t.(members := t.members[i := Member(name, value)]))
    else Add(t, name, value)
  }

  /** The names in the order of the members. */
  function NameList<V>(ms: seq<Member<V>>): (names: seq<Bytes>)
    ensures |names| == |ms| && forall i :: 0 <= i < |ms| ==> names[i] == ms[i].name
  {
    seq(|ms|, i requires 0 <= i < |ms| => ms[i].name)
  }

  /** A new name comes last; a name that is present keeps its place. */
  lemma PutKeepsOrder<V>(t: Table<V>, name: Bytes, value: V)
    requires Put(t, name, value).Some?
    ensures var before, after := NameList(t.members), NameList(Put(t, name, value).value.members);
      after == if name in before then before else before + [name]
  {
    var before, after := NameList(t.members), NameList(Put(t, name, value).value.members);
    if name in before {
      var i :| 0 <= i < |before| && before[i] == name;
      assert name in Names(t.members);
    } else {
      assert forall i :: 0 <= i < |t.members| ==> t.members[i].name == before[i];
      assert after == before + [name];
    }
  }

  /** json_object_remove: the last member takes the place of the removed one. */
  function Remove<V>(t: Table<V>, name: Bytes): Option<Table<V>> {
    var i, last := IndexOf(t.members, name), |t.members| - 1;
    if i == |t.members| then None
    else if i == last then Some(t.(members := t.members[..last]))
    else Some(t.(members := t.members[..last][i := t.members[last]]))
  }

  // ---- The finite map a table stands for ----

  function AsMap<V>(ms: seq<Member<V>>): map<Bytes, V> {
    map n | n in Names(ms) :: Lookup(ms, n).value
  }

  lemma AsMapAt<V>(ms: seq<Member<V>>)
    requires UniqueNames(ms)
    ensures forall i :: 0 <= i < |ms| ==> ms[i].name in AsMap(ms) && AsMap(ms)[ms[i].name] == ms[i].value
  {
  }

  /** The map of a table with unique names is determined by its members, in any order. */
  lemma AsMapIs<V>(ms: seq<Member<V>>, m: map<Bytes, V>)
    requires UniqueNames(ms)
    requires forall i :: 0 <= i < |ms| ==> ms[i].name in m && m[ms[i].name] == ms[i].value
    requires forall n :: n in m ==> n in Names(ms)
    ensures AsMap(ms) == m
  {
  }

  lemma AsMapKeys<V>(ms: seq<Member<V>>)
    ensures AsMap(ms).Keys == Names(ms)
  {
  }

  lemma NamesAppend<V>(ms: seq<Member<V>>, m: Member<V>)
    ensures Names(ms + [m]) == Names(ms) + {m.name}
  {
    var all := ms + [m];
    forall n | n in Names(ms) + {m.name}
      ensures n in Names(all)
    {
      if n in Names(ms) {
        var i :| 0 <= i < |ms| && ms[i].name == n;
        assert all[i].name == n;
      } else {
        assert all[|ms|].name == n;
      }
    }
  }

  lemma NamesUpdate<V>(ms: seq<Member<V>>, i: nat, m: Member<V>)
    requires i < |ms| && ms[i].name == m.name
    ensures Names(ms[i := m]) == Names(ms)
  {
    var all := ms[i := m];
    assert forall j :: 0 <= j < |ms| ==> all[j].name == ms[j].name;
  }

  lemma AddRefinesMap<V>(t: Table<V>, name: Bytes, value: V)
    requires Valid(t)
    ensures Add(t, name, value).Some?
      <==> name !in AsMap(t.members) && HasRoom(|t.members|, t.capacity, OBJECT_MAX_CAPACITY)
    ensures var r := Add(t, name, value);
      r.Some? ==> Valid(r.value) && AsMap(r.value.members) == AsMap(t.members)[name := value]
  {
    hide AsMap, Lookup;
    AsMapKeys(t.members);
    var r := Add(t, name, value);
    if r.Some? {
      AsMapAt(t.members);
      NamesAppend(t.members, Member(name, value));
      AppendIsValid(t.members, name, value);
      hide Names;
      AsMapIs(r.value.members, AsMap(t.members)[name := value]);
    }
  }

  lemma AppendIsValid<V>(ms: seq<Member<V>>, name: Bytes, value: V)
    requires UniqueNames(ms) && name !in Names(ms)
    ensures UniqueNames(ms + [Member(name, value)])
  {
  }

  lemma PutRefinesMap<V>(t: Table<V>, name: Bytes, value: V)
    requires Valid(t)
    ensures Put(t, name, value).Some?
      <==> name in AsMap(t.members) || HasRoom(|t.members|, t.capacity, OBJECT_MAX_CAPACITY)
    ensures var r := Put(t, name, value);
      r.Some? ==> Valid(r.value) && AsMap(r.value.members) == AsMap(t.members)[name := value]
  {
    hide AsMap, Names, Add, IndexOf;
    AsMapKeys(t.members);
    AddRefinesMap(t, name, value);
    var i := IndexOf(t.members, name);
    if i < |t.members| {
      AsMapAt(t.members);
      NamesUpdate(t.members, i, Member(name, value));
      AsMapIs(t.members[i := Member(name, value)], AsMap(t.members)[name := value]);
    }
  }

  /** Where the members of a table are after the removal of the one at index `i`. */
  lemma RemoveMoves<V>(t: Table<V>, name: Bytes)
    requires Valid(t) && Remove(t, name).Some?
    ensures Valid(Remove(t, name).value)
    ensures forall m :: m in Remove(t, name).value.members <==> m in t.members && m.name != name
  {
    var i, last := IndexOf(t.members, name), |t.members| - 1;
    var ms := Remove(t, name).value.members;
    forall j | 0 <= j <= last && j != i
      ensures t.members[j] in ms
    {
      assert ms[if j == last then i else j] == t.members[j];
    }
  }

  lemma RemoveRefinesMap<V>(t: Table<V>, name: Bytes)
    requires Valid(t)
    ensures Remove(t, name).Some? <==> name in AsMap(t.members)
    ensures var r := Remove(t, name); r.Some? ==> Valid(r.value) && AsMap(r.value.members) == AsMap(t.members) - {name}
  {
    AsMapKeys(t.members);
    var r := Remove(t, name);
    if r.Some? {
      AsMapAt(t.members);
      RemoveMoves(t, name);
      WithoutIsMap(t.members, r.value.members, name);
    }
  }

  lemma WithoutIsMap<V>(before: seq<Member<V>>, after: seq<Member<V>>, name: Bytes)
    requires UniqueNames(before) && UniqueNames(after)
    requires forall m :: m in after <==> m in before && m.name != name
    ensures AsMap(after) == AsMap(before) - {name}
  {
    hide AsMap;
    AsMapKeys(before);
    AsMapAt(before);
    forall n | n in AsMap(before) - {name}
      ensures n in Names(after)
    {
      var j :| 0 <= j < |before| && before[j].name == n;
      assert before[j] in after;
    }
    forall i | 0 <= i < |after|
      ensures after[i].name in AsMap(before) - {name} && AsMap(before)[after[i].name] == after[i].value
    {
      assert after[i] in before;
    }
    AsMapIs(after, AsMap(before) - {name});
  }

  // ---- Runs of operations ----

  datatype Op<+V> = AddOp(name: Bytes, value: V) | PutOp(name: Bytes, value: V) | RemoveOp(name: Bytes)

  /** One call; it is refused, or yields the new table. */
  function Apply<V>(t: Table<V>, op: Op<V>): Option<Table<V>> {
    match op
    case AddOp(name, value) => Add(t, name, value)
    case PutOp(name, value) => Put(t, name, value)
    case RemoveOp(name) => Remove(t, name)
  }

  /** A refused call changes nothing. */
  function Applied<V>(t: Table<V>, op: Op<V>): Table<V> {
    match Apply(t, op)
    case None => t
    case Some(next) => next
  }

  function Run<V>(t: Table<V>, ops: seq<Op<V>>): Table<V>
    decreases |ops|
  {
    if ops == [] then t else Run(Applied(t, ops[0]), ops[1..])
  }

  /** Which calls of a sequence succeed. */
  function Outcomes<V>(t: Table<V>, ops: seq<Op<V>>): seq<bool>
    decreases |ops|
  {
    if ops == [] then [] else [Apply(t, ops[0]).Some?] + Outcomes(Applied(t, ops[0]), ops[1..])
  }

  /** The same call on a finite map that may hold at most `limit` names. */
  function MapApply<V>(m: map<Bytes, V>, op: Op<V>, limit: nat): Option<map<Bytes, V>> {
    match op
    case AddOp(name, value) => if name !in m && |m| < limit then Some(m[name := value]) else None
    case PutOp(name, value) => if name in m || |m| < limit then Some(m[name := value]) else None
    case RemoveOp(name) => if name in m then Some(m - {name}) else None
  }

  function MapApplied<V>(m: map<Bytes, V>, op: Op<V>, limit: nat): map<Bytes, V> {
    match MapApply(m, op, limit)
    case None => m
    case Some(next) => next
  }

  function MapRun<V>(m: map<Bytes, V>, ops: seq<Op<V>>, limit: nat): map<Bytes, V>
    decreases |ops|
  {
    if ops == [] then m else MapRun(MapApplied(m, ops[0], limit), ops[1..], limit)
  }

  function MapOutcomes<V>(m: map<Bytes, V>, ops: seq<Op<V>>, limit: nat): seq<bool>
    decreases |ops|
  {
    if ops == [] then []
    else [MapApply(m, ops[0], limit).Some?] + MapOutcomes(MapApplied(m, ops[0], limit), ops[1..], limit)
  }

  /** The count that an object of this capacity can still reach: doubling goes on while it stays within 960. */
  function Limit(capacity: nat): (limit: nat)
    ensures capacity <= limit && (capacity <= OBJECT_MAX_CAPACITY ==> limit <= OBJECT_MAX_CAPACITY)
    decreases OBJECT_MAX_CAPACITY - capacity
  {
    if Doubled(capacity) > OBJECT_MAX_CAPACITY then capacity else Limit(Doubled(capacity))
  }

  /** There is room exactly below the limit, and growing does not move the limit. */
  lemma RoomBelowLimit(count: nat, capacity: nat)
    requires count <= capacity <= OBJECT_MAX_CAPACITY
    ensures HasRoom(count, capacity, OBJECT_MAX_CAPACITY) <==> count < Limit(capacity)
    ensures HasRoom(count, capacity, OBJECT_MAX_CAPACITY) ==>
      Limit(CapacityAfterAdd(count, capacity)) == Limit(capacity)
  {
  }

  /** The capacities that doubling reaches from empty. */
  predicate GrownObject(capacity: nat) {
    capacity == 0 || capacity == 15 || capacity == 30 || capacity == 60 || capacity == 120
    || capacity == 240 || capacity == 480 || capacity == 960
  }

  lemma {:induction false} NamesSize<V>(ms: seq<Member<V>>)
    requires UniqueNames(ms)
    ensures |Names(ms)| == |ms|
  {
    if ms == [] {
    } else {
      var rest, last := ms[..|ms| - 1], ms[|ms| - 1];
      assert ms == rest + [last];
      assert forall i :: 0 <= i < |rest| ==> ms[i].name != last.name;
      assert last.name !in Names(rest);
      NamesSize(rest);
      NamesAppend(rest, last);
    }
  }

  lemma AsMapSize<V>(ms: seq<Member<V>>)
    requires UniqueNames(ms)
    ensures |AsMap(ms)| == |ms|
  {
    NamesSize(ms);
    assert AsMap(ms).Keys == Names(ms);
  }

  lemma LimitIsKept<V>(t: Table<V>, op: Op<V>)
    requires Valid(t)
    ensures Limit(Applied(t, op).capacity) == Limit(t.capacity)
    ensures HasRoom(|t.members|, t.capacity, OBJECT_MAX_CAPACITY) <==> |t.members| < Limit(t.capacity)
  {
    hide Lookup, IndexOf, Names, UniqueNames, HasRoom, CapacityAfterAdd, Limit;
    RoomBelowLimit(|t.members|, t.capacity);
  }

  /** One call on any table does what the call does on the map, with the same outcome. */
  lemma ApplyRefinesMap<V>(t: Table<V>, op: Op<V>)
    requires Valid(t)
    ensures var next := Applied(t, op); Valid(next) && Limit(next.capacity) == Limit(t.capacity)
    ensures Apply(t, op).Some? <==> MapApply(AsMap(t.members), op, Limit(t.capacity)).Some?
    ensures AsMap(Applied(t, op).members) == MapApplied(AsMap(t.members), op, Limit(t.capacity))
  {
    hide AsMap, Add, Put, Remove, Limit, HasRoom, UniqueNames;
    AsMapSize(t.members);
    LimitIsKept(t, op);
    match op
    case AddOp(name, value) => AddRefinesMap(t, name, value);
    case PutOp(name, value) => PutRefinesMap(t, name, value);
    case RemoveOp(name) => RemoveRefinesMap(t, name);
  }

  /** Over every sequence of calls, on any table, the table refines a finite map of at most `Limit` names: every call
      has the same outcome, the contents agree, names stay distinct and the count within the capacity within 960. */
  lemma {:induction false} RunRefinesMap<V>(t: Table<V>, ops: seq<Op<V>>)
    requires Valid(t)
    ensures Valid(Run(t, ops)) && Limit(Run(t, ops).capacity) == Limit(t.capacity)
    ensures Outcomes(t, ops) == MapOutcomes(AsMap(t.members), ops, Limit(t.capacity))
    ensures AsMap(Run(t, ops).members) == MapRun(AsMap(t.members), ops, Limit(t.capacity))
    decreases |ops|
  {
    hide Apply, Applied, AsMap, MapApply, MapApplied, Valid, Limit;
    if ops == [] {
    } else {
      ApplyRefinesMap(t, ops[0]);
      RunRefinesMap(Applied(t, ops[0]), ops[1..]);
    }
  }

  /** Grown from empty an object reaches 960 names; trimmed by the parser to its count it may stop earlier: at once with
      more than 480 names, and at 496 from 31. */
  lemma Limits(capacity: nat)
    ensures GrownObject(capacity) ==> Limit(capacity) == OBJECT_MAX_CAPACITY
    ensures 480 < capacity <= OBJECT_MAX_CAPACITY ==> Limit(capacity) == capacity
    ensures Limit(31) == 496
  {
    assert Limit(480) == 960 && Limit(240) == 960 && Limit(120) == 960 && Limit(60) == 960;
    assert Limit(30) == 960 && Limit(15) == 960 && Limit(0) == 960;
    assert Limit(496) == 496 && Limit(248) == 496 && Limit(124) == 496 && Limit(62) == 496;
  }

  /** A table trimmed to its count by the parser cannot grow once it holds more than 480 members,
      although the limit is 960. */
  lemma TrimmedTableGrowth<V>(t: Table<V>, name: Bytes, value: V)
    requires Valid(t) && t.capacity == |t.members| && name !in Names(t.members)
    ensures Put(t, name, value).Some? <==> |t.members| <= 480
  {
  }
}
