/** The growable containers, as the engine keeps them: allocated arrays, a count and a capacity. */
module Containers {
  import opened CText
  import opened Values
  import opened Tables

  /** A slot of freshly allocated memory holds nothing yet. */
  datatype Slot<+T> = Unset | Set(content: T)

  /** json_object_t */
  class JsonObject<V> {
    var names: array<Slot<Bytes>>
    var values: array<Slot<V>>
    var count: nat
    var capacity: nat

    ghost predicate Valid()
      reads this, names, values
    {
      && names as object != values as object
      && names.Length == values.Length == capacity
      && count <= capacity <= OBJECT_MAX_CAPACITY
      && (forall i :: 0 <= i < count ==> names[i].Set? && values[i].Set?)
      && UniqueNames(Members())
    }

    function Members(): (ms: seq<Member<V>>)
      requires count <= names.Length && count <= values.Length
      requires forall i :: 0 <= i < count ==> names[i].Set? && values[i].Set?
      reads this, names, values
      ensures |ms| == count
      ensures forall i :: 0 <= i < count ==> ms[i].name == names[i].content && ms[i].value == values[i].content
    {
      seq(count, i requires 0 <= i < count <= names.Length && count <= values.Length && names[i].Set? && values[i].Set?
                   reads this, names, values
        => Member(names[i].content, values[i].content))
    }

    ghost function AsTable(): Table<V>
      requires Valid()
      reads this, names, values
    {
      Table(Members(), capacity)
    }

    ghost function Footprint(): set<object>
      reads this
    {
      {this, names, values}
    }

    /** json_object_init */
    constructor ()
      ensures Valid() && AsTable() == Table([], 0) && fresh(names) && fresh(values)
    {
      names := new Slot<Bytes>[0];
      values := new Slot<V>[0];
      count, capacity := 0, 0;
    }

    /** json_object_resize; its two callers ask for at least `count`. */
    method Resize(newCapacity: nat) returns (ok: bool)
      requires Valid() && count <= newCapacity <= OBJECT_MAX_CAPACITY
      modifies this
      ensures Valid() && ok == (newCapacity != 0)
      ensures ok ==> fresh(names) && fresh(values)
      ensures !ok ==> names == old(names) && values == old(values)
      ensures count == old(count)
      ensures AsTable() == if ok then old(AsTable()).(capacity := newCapacity) else old(AsTable())
    {
      if newCapacity == 0 {
        return false;
      }
      var tempNames := new Slot<Bytes>[newCapacity](_ => Unset);
      var tempValues := new Slot<V>[newCapacity](_ => Unset);
      forall i | 0 <= i < count {
        tempNames[i] := names[i];
      }
      forall i | 0 <= i < count {
        tempValues[i] := values[i];
      }
      ghost var before := Members();
      names, values, capacity := tempNames, tempValues, newCapacity;
      assert Members() == before;
      return true;
    }

    /** json_object_get_value */
    method Get(name: Bytes) returns (r: Option<V>)
      requires Valid()
      ensures r == Lookup(Members(), name)
    {
      var i := 0;
      while i < count
        invariant 0 <= i <= count
        invariant Lookup(Members(), name) == Lookup(Members()[i..], name)
      {
        if names[i].content == name {
          return Some(values[i].content);
        }
        assert Members()[i..][1..] == Members()[i + 1..];
        i := i + 1;
      }
      return None;
    }

    /** json_object_add */
    method Add(name: Bytes, value: V) returns (ok: bool)
      requires Valid()
      modifies this, names, values
      ensures Valid() && (names == old(names) || fresh(names)) && (values == old(values) || fresh(values))
      ensures ok <==> Tables.Add(old(AsTable()), name, value).Some?
      ensures AsTable() == if ok then Tables.Add(old(AsTable()), name, value).value else old(AsTable())
    {
      var present := Get(name);
      if present.Some? {
        return false;
      }
      if count >= capacity {
        var newCapacity := Doubled(capacity);
        if newCapacity > OBJECT_MAX_CAPACITY {
          return false;
        }
        ok := Resize(newCapacity);
      }
      Append(name, value);
      return true;
    }

    method Append(name: Bytes, value: V)
      requires Valid() && count < capacity && name !in Names(Members())
      modifies this, names, values
      ensures Valid() && names == old(names) && values == old(values)
      ensures AsTable() == Table(old(Members()) + [Member(name, value)], old(capacity))
    {
      ghost var before := Members();
      names[count] := Set(name);
      values[count] := Set(value);
      count := count + 1;
      assert Members() == before + [Member(name, value)];
    }

    method Find(name: Bytes) returns (i: nat)
      requires Valid()
      ensures i == IndexOf(Members(), name)
    {
      i := 0;
      while i < count
        invariant 0 <= i <= count
        invariant IndexOf(Members(), name) == i + IndexOf(Members()[i..], name)
      {
        if names[i].content == name {
          return;
        }
        assert Members()[i..][1..] == Members()[i + 1..];
        i := i + 1;
      }
    }

    /** json_object_set_value, for a value that has no parent yet. */
    method Put(name: Bytes, value: V) returns (ok: bool)
      requires Valid()
      modifies this, names, values
      ensures Valid() && (names == old(names) || fresh(names)) && (values == old(values) || fresh(values))
      ensures ok <==> Tables.Put(old(AsTable()), name, value).Some?
      ensures AsTable() == if ok then Tables.Put(old(AsTable()), name, value).value else old(AsTable())
    {
      var i := Find(name);
      if i < count {
        ghost var before := Members();
        values[i] := Set(value);
        assert Members() == before[i := Member(name, value)];
        return true;
      }
      ok := Add(name, value);
    }

    /** json_object_remove */
    method Remove(name: Bytes) returns (ok: bool)
      requires Valid()
      modifies this, names, values
      ensures Valid() && names == old(names) && values == old(values)
      ensures ok <==> Tables.Remove(old(AsTable()), name).Some?
      ensures AsTable() == if ok then Tables.Remove(old(AsTable()), name).value else old(AsTable())
    {
      hide UniqueNames, Names, Lookup, IndexOf;
      var i := Find(name);
      if i == count {
        return false;
      }
      ghost var before := Members();
      ghost var after := Tables.Remove(AsTable(), name).value.members;
      RemoveMoves(AsTable(), name);
      var last := count - 1;
      if i != last {
        names[i] := names[last];
        values[i] := values[last];
      }
      count := last;
      assert Members() == after;
      return true;
    }
  }

  /** The capacities that doubling reaches from empty. */
  predicate GrownArray(capacity: nat) {
    GrownObject(capacity) || capacity == 1920 || capacity == 3840 || capacity == 7680
    || capacity == 15360 || capacity == 30720 || capacity == 61440 || capacity == 122880
  }

  /** json_array_t */
  class JsonArray<V> {
    var items: array<Slot<V>>
    var count: nat
    var capacity: nat

    ghost predicate Valid()
      reads this, items
    {
      && items.Length == capacity
      && count <= capacity <= ARRAY_MAX_CAPACITY
      && forall i :: 0 <= i < count ==> items[i].Set?
    }

    function Items(): (r: seq<V>)
      requires Valid()
      reads this, items
      ensures |r| == count
      ensures forall i :: 0 <= i < count ==> r[i] == items[i].content
    {
      seq(count, i requires 0 <= i < count && count <= items.Length && items[i].Set? reads this, items
        => items[i].content)
    }

    ghost function Footprint(): set<object>
      reads this
    {
      {this, items}
    }

    /** json_array_init */
    constructor ()
      ensures Valid() && Items() == [] && capacity == 0 && fresh(items)
    {
      items := new Slot<V>[0];
      count, capacity := 0, 0;
    }

    /** json_array_resize; its two callers ask for at least `count`. */
    method Resize(newCapacity: nat) returns (ok: bool)
      requires Valid() && count <= newCapacity <= ARRAY_MAX_CAPACITY
      modifies this
      ensures Valid() && ok == (newCapacity != 0)
      ensures if ok then fresh(items) else items == old(items)
      ensures capacity == if ok then newCapacity else old(capacity)
      ensures count == old(count) && Items() == old(Items())
    {
      if newCapacity == 0 {
        return false;
      }
      var newItems := new Slot<V>[newCapacity](_ => Unset);
      forall i | 0 <= i < count {
        newItems[i] := items[i];
      }
      items, capacity := newItems, newCapacity;
      return true;
    }

    /** json_array_add */
    method Add(value: V) returns (ok: bool)
      requires Valid()
      modifies this, items
      ensures Valid() && (items == old(items) || fresh(items))
      ensures ok <==> HasRoom(old(count), old(capacity), ARRAY_MAX_CAPACITY)
      ensures Items() == if ok then old(Items()) + [value] else old(Items())
      ensures capacity == if ok then CapacityAfterAdd(old(count), old(capacity)) else old(capacity)
    {
      if count >= capacity {
        var newCapacity := Doubled(capacity);
        if newCapacity > ARRAY_MAX_CAPACITY {
          return false;
        }
        ok := Resize(newCapacity);
      }
      items[count] := Set(value);
      count := count + 1;
      return true;
    }
  }

  /** Grown from empty, a container takes a new element exactly while its count is below the limit. */
  lemma GrowthReachesLimit(count: nat, capacity: nat)
    requires count <= capacity
    ensures GrownObject(capacity) ==>
      (HasRoom(count, capacity, OBJECT_MAX_CAPACITY) <==> count < OBJECT_MAX_CAPACITY)
    ensures GrownObject(capacity) && count < OBJECT_MAX_CAPACITY ==> GrownObject(CapacityAfterAdd(count, capacity))
    ensures GrownArray(capacity) ==>
      (HasRoom(count, capacity, ARRAY_MAX_CAPACITY) <==> count < ARRAY_MAX_CAPACITY)
    ensures GrownArray(capacity) && count < ARRAY_MAX_CAPACITY ==> GrownArray(CapacityAfterAdd(count, capacity))
  {
  }
}
