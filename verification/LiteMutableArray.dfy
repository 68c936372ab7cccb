/**
 The growable array behind the allocators' page and chunk lists.
 */
module LiteMutableArrays {

  const CAPACITY_STEP := 64

  // The capacity ensureCapacity asks for: ALIGN rounds down, so a step is added first.
  function GrownCapacity(needed: nat): (capacity: nat)
    ensures needed < capacity <= needed + CAPACITY_STEP && capacity % CAPACITY_STEP == 0
  {
    (needed + CAPACITY_STEP) / CAPACITY_STEP * CAPACITY_STEP
  }

  class LiteMutableArray<T(0)> {
    var data: array<T>
    var count: nat

    ghost predicate Valid()
      reads this
    {
      count <= data.Length
    }

    ghost function Contents(): seq<T>
      requires Valid()
      reads this, data
    {
      data[..count]
    }

    constructor (capacity: nat)
      ensures Valid() && Contents() == [] && fresh(data) && data.Length == capacity
    {
      data := new T[capacity];
      count := 0;
    }

    method GetObject(i: nat) returns (t: T)
      requires Valid() && i < count
      ensures t == Contents()[i]
    {
      t := data[i];
    }

    // `granted`: the heap has room for the larger buffer.
    method EnsureCapacity(needed: nat, granted: bool) returns (capacity: nat)
      requires Valid()
      modifies this`data
      ensures Valid() && Contents() == old(Contents())
      ensures data == old(data) || fresh(data)
      ensures needed <= old(data.Length) ==> data == old(data) && capacity == data.Length
      ensures needed > old(data.Length) && granted ==> capacity == data.Length == GrownCapacity(needed)
      ensures needed > old(data.Length) && !granted ==> data == old(data) && capacity == 0
    {
      if needed <= data.Length {
        return data.Length;
      }
      if !granted {
        return 0;
      }
      var grown := new T[GrownCapacity(needed)];
      var i := 0;
      while i < count
        invariant 0 <= i <= count && data == old(data)
        invariant grown[..i] == data[..i]
      {
        grown[i] := data[i];
        i := i + 1;
      }
      data := grown;
      return data.Length;
    }

    method PushObject(t: T, granted: bool) returns (ok: bool)
      requires Valid()
      modifies this, data
      ensures Valid() && (data == old(data) || fresh(data))
      ensures ok <==> granted || old(count < data.Length)
      ensures Contents() == if ok then old(Contents()) + [t] else old(Contents())
    {
      if count + 1 > data.Length {
        var capacity := EnsureCapacity(count + 1, granted);
        if count + 1 > capacity {
          return false;
        }
      }
      data[count] := t;
      count := count + 1;
      return true;
    }
  }
}
