/** KVector: a growable buffer that refines a sequence, with failing allocation. */
module Vectors {
  import opened Sizes

  const SVO_CAPACITY: nat := 2

  /** ComputeNextCapacity: eight first, then doubling, then half as much again, rounded down. */
  function NextCapacity(capacity: nat): (next: nat)
    ensures next > capacity && next >= 8 && 3 * next >= 4 * capacity
    ensures capacity < 4 ==> next == 8
    ensures 4 <= capacity < 1024 ==> next == 2 * capacity
    ensures 1024 <= capacity ==> 2 * next <= 3 * capacity < 2 * next + 2
  {
    if capacity < 4 then 8 else if capacity < 1024 then capacity * 2 else capacity + capacity / 2
  }

  /** A vector as a value: its elements, and how many it has memory for. */
  datatype Vec<T> = Vec(items: seq<T>, capacity: nat)

  /** What an append or an insertion reports: the pool is asked only when the vector is full. */
  function PushStatus<T>(v: Vec<T>, elementSize: nat, pool: bool): Status {
    if |v.items| < v.capacity then Success
    else if NextCapacity(v.capacity) >= 0x1_0000_0000_0000_0000 then IntegerOverflow
    else if NextCapacity(v.capacity) * elementSize >= 0x1_0000_0000_0000_0000 then IntegerOverflow
    else if !pool then InsufficientResources
    else Success
  }

  /** The vector with one element more, at the given position. */
  function Inserted<T>(v: Vec<T>, position: nat, x: T): Vec<T>
    requires position <= |v.items|
  {
    Vec(v.items[..position] + [x] + v.items[position..],
        if |v.items| < v.capacity then v.capacity else NextCapacity(v.capacity))
  }

  function Pushed<T>(v: Vec<T>, x: T): (w: Vec<T>)
    ensures w == Inserted(v, |v.items|, x)
  {
    assert v.items[..|v.items|] + [x] + v.items[|v.items|..] == v.items + [x];
    Vec(v.items + [x], if |v.items| < v.capacity then v.capacity else NextCapacity(v.capacity))
  }

  /** A vector of few elements never overflows: what it reports is up to its capacity and the pool. */
  lemma FewFit<T>(v: Vec<T>, elementSize: nat, pool: bool)
    requires |v.items| <= 0x4_0000 && elementSize <= 0x1_0000
    ensures PushStatus(v, elementSize, pool) ==
            if |v.items| < v.capacity || pool then Success else InsufficientResources
  {
    if |v.items| >= v.capacity {
      ProductBound(NextCapacity(v.capacity), elementSize, 0x8_0008, 0x1_0000);
    }
  }

  lemma ProductBound(a: nat, b: nat, most: nat, widest: nat)
    requires a <= most && b <= widest
    ensures a * b <= most * widest
  {
    assert a * b <= most * b;
  }

  class KVector<T(0)> {
    const elementSize: nat
    var buffer: array<T>
    var size: nat
    /** Elements copied by reallocations so far. */
    ghost var moves: nat

    ghost predicate Valid()
      reads this
    {
      size <= buffer.Length && buffer.Length >= SVO_CAPACITY
    }

    ghost function View(): Vec<T>
      reads this, buffer
      requires Valid()
    {
      Vec(buffer[..size], buffer.Length)
    }

    /** What holds of a vector that has only been appended to: fewer than four copies per element. */
    ghost predicate Amortized()
      reads this
    {
      moves <= 3 * buffer.Length && (moves == 0 || moves < 4 * size)
    }

    constructor (elementSize: nat)
      ensures Valid() && View() == Vec([], 2) && Amortized() && fresh(buffer) && this.elementSize == elementSize
    {
      this.elementSize := elementSize;
      buffer, size, moves := new T[SVO_CAPACITY], 0, 0;
    }

    /** Moves the elements into a larger buffer; what a moved-from slot holds is not known. */
    method MoveTo(pNewData: array<T>)
      requires Valid() && pNewData != buffer && size <= pNewData.Length
      modifies buffer, pNewData
      ensures pNewData[..size] == old(buffer[..size])
      ensures forall i :: size <= i < pNewData.Length ==> pNewData[i] == old(pNewData[i])
    {
      for i := 0 to size
        invariant forall k :: 0 <= k < i ==> pNewData[k] == old(buffer[k])
        invariant forall k :: i <= k < size ==> buffer[k] == old(buffer[k])
        invariant forall k :: size <= k < pNewData.Length ==> pNewData[k] == old(pNewData[k])
      {
        pNewData[i] := buffer[i];
        buffer[i] := *;
      }
    }

    method Reserve(newCapacity: nat, pool: bool) returns (status: Status)
      requires Valid()
      modifies this, buffer
      ensures Valid() && View().items == old(View().items)
      ensures !status.Success? || newCapacity <= old(buffer.Length) ==> unchanged(this)
      ensures status.Success? && newCapacity > old(buffer.Length) ==> fresh(buffer) && buffer.Length == newCapacity
      ensures status == if newCapacity <= old(buffer.Length) then Success
                        else if newCapacity * elementSize >= 0x1_0000_0000_0000_0000 then IntegerOverflow
                        else if !pool then InsufficientResources else Success
    {
      if newCapacity <= buffer.Length {
        return Success;
      }
      if newCapacity * elementSize >= SIZE_LIMIT {
        return IntegerOverflow;
      }
      if !pool {
        return InsufficientResources;
      }
      var pNewData := new T[newCapacity];
      MoveTo(pNewData);
      buffer, moves := pNewData, moves + size;
      return Success;
    }

    /** PushBack and EmplaceBack. The value may be an element of this very vector. */
    method PushBack(source: array<T>, at: nat, pool: bool) returns (status: Status)
      requires Valid() && at < source.Length && (source == buffer ==> at < size)
      modifies this, buffer
      ensures Valid() && (buffer == old(buffer) || fresh(buffer))
      ensures status == PushStatus(old(View()), elementSize, pool)
      ensures View() == if status.Success? then Pushed(old(View()), old(source[at])) else old(View())
      ensures old(Amortized()) ==> Amortized()
      ensures !status.Success? ==> unchanged(this)
    {
      if size < buffer.Length {
        buffer[size] := source[at];
        size := size + 1;
        return Success;
      }
      status := GrowAndEmplace(source, at, pool);
    }

    /** The new element is constructed before the old ones move. */
    method GrowAndEmplace(source: array<T>, at: nat, pool: bool) returns (status: Status)
      requires Valid() && at < source.Length && size == buffer.Length
      modifies this, buffer
      ensures Valid() && status == PushStatus(old(View()), elementSize, pool)
      ensures if status.Success? then fresh(buffer) else unchanged(this)
      ensures View() == if status.Success? then Pushed(old(View()), old(source[at])) else old(View())
      ensures old(Amortized()) ==> Amortized()
    {
      var newCapacity := NextCapacity(buffer.Length);
      if newCapacity >= SIZE_LIMIT || newCapacity * elementSize >= SIZE_LIMIT {
        return IntegerOverflow;
      }
      if !pool {
        return InsufficientResources;
      }
      var pNewData := new T[newCapacity];
      pNewData[size] := source[at];
      MoveTo(pNewData);
      buffer, size, moves := pNewData, size + 1, moves + size;
      return Success;
    }

    /** Shifts the tail right and writes the value, copied before anything moves, at position. */
    method Insert(position: int, source: array<T>, at: nat, pool: bool) returns (status: Status)
      requires Valid() && at < source.Length && (source == buffer ==> at < size)
      modifies this, buffer
      ensures Valid() && (buffer == old(buffer) || fresh(buffer))
      ensures status == if 0 <= position <= old(size) then PushStatus(old(View()), elementSize, pool)
                        else InvalidParameter
      ensures status.Success? ==> View() == Inserted(old(View()), position, old(source[at]))
      ensures !status.Success? ==> View() == old(View()) && unchanged(this)
    {
      if position < 0 || position > size {
        return InvalidParameter;
      }
      var localValue := source[at];
      if size >= buffer.Length {
        var newCapacity := NextCapacity(buffer.Length);
        if newCapacity >= SIZE_LIMIT {
          return IntegerOverflow;
        }
        status := Reserve(newCapacity, pool);
        if !status.Success? {
          return;
        }
      }
      InsertInPlace(position, localValue);
      return Success;
    }

    method InsertInPlace(position: nat, value: T)
      requires Valid() && position <= size < buffer.Length
      modifies this`size, buffer
      ensures Valid() && View() == Inserted(old(View()), position, value)
    {
      ghost var was := buffer[..size];
      var i := size;
      while i > position
        invariant position <= i <= size < buffer.Length
        invariant forall k :: 0 <= k < i ==> buffer[k] == was[k]
        invariant forall k :: i < k <= size ==> buffer[k] == was[k - 1]
        modifies buffer
      {
        buffer[i] := buffer[i - 1];
        i := i - 1;
      }
      buffer[position] := value;
      size := size + 1;
      assert buffer[..size] == was[..position] + [value] + was[position..];
    }

    method Clear()
      requires Valid()
      modifies this`size
      ensures Valid() && View() == Vec([], old(buffer.Length))
    {
      size := 0;
    }
  }
}
