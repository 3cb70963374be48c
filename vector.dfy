/** The dynamic array: a block of raw storage plus a count of live elements.
    All element-lifetime work happens here. Slots [0, size) hold live
    elements, slots [size, capacity) are uninitialised. */
module Vectors {
  import opened RawStorage
  import opened Lifetime
  import Spec = VectorSpec

  /** How existing elements are carried into a new block. Which one applies is
      fixed per element type: moving when the type's move constructor cannot
      throw or the type cannot be copied, copying otherwise. */
  datatype Relocation = MoveElements | CopyElements

  /** The outcome of running the element constructor with the caller's
      arguments: either the constructed value, or an exception. */
  datatype Construction<T> = Constructs(value: T) | Throws

  datatype Error = OutOfRange(message: string)

  datatype Result<T> = Ok(value: T) | Err(error: Error)

  /** Carries the `n` live elements `vs` at `src[from..]` into the uninitialised
      slots `dst[to..]`, by moving or by copying. Both give the same
      destination; copying leaves the source block untouched, moving leaves
      the source elements moved-from. */
  method Relocate<T>(mode: Relocation, src: array<Slot<T>>, from: nat, n: nat,
                     dst: array<Slot<T>>, to: nat, ghost vs: seq<T>)
    requires src != dst && |vs| == n
    requires from + n <= src.Length && to + n <= dst.Length
    requires Holds(src[..], from, vs) && AllUninit(dst[..], to, to + n)
    modifies src, dst
    ensures Holds(dst[..], to, vs)
    ensures forall k :: 0 <= k < dst.Length && !(to <= k < to + n) ==> dst[k] == old(dst[k])
    ensures AllConstructed(src[..], from, from + n)
    ensures forall k :: 0 <= k < src.Length && !(from <= k < from + n) ==> src[k] == old(src[k])
    ensures mode == CopyElements ==> src[..] == old(src[..])
  {
    if mode == MoveElements {
      UninitializedMoveN(src, from, n, dst, to, vs);
    } else {
      UninitializedCopyN(src, from, n, dst, to, vs);
    }
  }

  /** Builds the reallocated block of an insertion: `v` is constructed at
      slot `pos` of the empty block `dst`, the `n` live elements `vs` of `src`
      are relocated around it, and the elements left in `src` are destroyed. */
  method RelocateAround<T>(mode: Relocation, src: array<Slot<T>>, n: nat,
                           dst: array<Slot<T>>, pos: nat, v: T, ghost vs: seq<T>)
    requires src != dst && |vs| == n && pos <= n
    requires n <= src.Length && n < dst.Length
    requires Holds(src[..], 0, vs) && AllUninit(dst[..], 0, dst.Length)
    modifies src, dst
    ensures Holds(dst[..], 0, vs[..pos] + [v] + vs[pos..])
    ensures AllUninit(dst[..], n + 1, dst.Length)
    ensures AllUninit(src[..], 0, n)
    ensures forall k :: n <= k < src.Length ==> src[k] == old(src[k])
  {
    ConstructAt(dst, pos, v);
    Relocate(mode, src, 0, pos, dst, 0, vs[..pos]);
    Relocate(mode, src, pos, n - pos, dst, pos + 1, vs[pos..]);
    DestroyN(src, 0, n);
    assert forall k :: 0 <= k < n + 1 ==> dst[k] == Live((vs[..pos] + [v] + vs[pos..])[k]);
  }

  class Vector<T> {
    var data: RawMemory<T>
    var size: nat
    ghost var Elements: seq<T>

    ghost predicate Valid()
      reads this, data, data.buffer
    {
      data.Valid() && size <= data.capacity && |Elements| == size &&
      (forall i :: 0 <= i < size ==> data.buffer[i] == Live(Elements[i])) &&
      (forall i :: size <= i < data.capacity ==> data.buffer[i] == Uninit)
    }

    /** The value this vector denotes: its elements and its capacity. */
    ghost function Model(): Spec.VectorValue<T>
      reads this, data
    {
      Spec.VectorValue(Elements, data.capacity)
    }

    /** Two distinct vectors own distinct storage. */
    ghost predicate Separate(other: Vector<T>)
      reads this, data, other, other.data
    {
      this != other && data != other.data && data.buffer != other.data.buffer
    }

    /** Vector(): empty, no block. */
    constructor ()
      ensures Valid() && fresh(data) && fresh(data.buffer)
      ensures Model() == Spec.Empty()
    {
      data := new RawMemory<T>.Empty();
      size := 0;
      Elements := [];
    }

    /** Vector(n): `n` value-initialised elements in a block of `n` slots. */
    constructor WithSize(n: nat, zero: T)
      ensures Valid() && fresh(data) && fresh(data.buffer)
      ensures Model() == Spec.WithSize(n, zero)
    {
      data := new RawMemory<T>(n);
      size := n;
      Elements := seq(n, _ => zero);
      new;
      UninitializedValueConstructN(data.buffer, 0, n, zero);
    }

    /** The copy constructor: a block of exactly `other`'s size holding copies of its elements. */
    constructor Copy(other: Vector<T>)
      requires other.Valid()
      ensures Valid() && fresh(data) && fresh(data.buffer)
      ensures Model() == Spec.Copy(other.Model())
    {
      data := new RawMemory<T>(other.size);
      size := other.size;
      Elements := other.Elements;
      new;
      UninitializedCopyN(other.data.buffer, 0, size, data.buffer, 0, Elements);
    }

    /** The move constructor: starts empty and swaps with `other`, which is left empty. */
    constructor Moved(other: Vector<T>)
      requires other.Valid()
      modifies other, other.data
      ensures Valid() && other.Valid()
      ensures Model() == old(other.Model()) && data.buffer == old(other.data.buffer)
      ensures other.Model() == Spec.Empty()
      ensures fresh(data) && other.data == old(other.data) && fresh(other.data.buffer)
    {
      data := new RawMemory<T>.Empty();
      size := 0;
      Elements := [];
      new;
      Swap(other);
    }

    /** The destructor destroys every live element, then releases the block. */
    method Dispose()
      requires Valid()
      modifies data.buffer
      ensures AllUninit(data.buffer[..], 0, data.capacity)
    {
      DestroyN(data.buffer, 0, size);
      data.Dispose();
    }

    /** Copy assignment. Self-assignment changes nothing; a source larger than
        the block is copied into a new vector that is swapped in; otherwise the
        common prefix is assigned element by element and the surplus is
        destroyed or the missing tail copy-constructed. */
    method CopyAssign(rhs: Vector<T>)
      requires Valid() && rhs.Valid()
      requires this == rhs || Separate(rhs)
      modifies this, data, data.buffer
      ensures Valid() && rhs.Valid() && data == old(data)
      ensures data.buffer == old(data.buffer) || fresh(data.buffer)
      ensures old(rhs.size) <= old(data.capacity) ==> data.buffer == old(data.buffer)
      ensures Model() == Spec.CopyAssign(old(Model()), old(rhs.Model()))
      ensures rhs.Model() == old(rhs.Model())
    {
      if this != rhs {
        if rhs.size > data.capacity {
          var rhsCopy := new Vector<T>.Copy(rhs);
          Swap(rhsCopy);
          rhsCopy.Dispose();
        } else {
          AssignInPlace(rhs);
        }
      }
    }

    /** The in-place half of copy assignment, for a source that fits the block:
        the common prefix is assigned element by element, then the surplus is
        destroyed or the missing tail copy-constructed. */
    method AssignInPlace(rhs: Vector<T>)
      requires Valid() && rhs.Valid() && Separate(rhs) && rhs.size <= data.capacity
      modifies this, data.buffer
      ensures Valid() && data == old(data) && data.buffer == old(data.buffer)
      ensures Model() == Spec.CopyAssign(old(Model()), rhs.Model())
    {
      ghost var s := Elements;
      var buf := data.buffer;
      if size > rhs.size {
        var index := 0;
        while index != rhs.size
          invariant 0 <= index <= rhs.size
          invariant forall k :: 0 <= k < index ==> buf[k] == Live(rhs.Elements[k])
          invariant forall k :: index <= k < size ==> buf[k] == Live(s[k])
          invariant forall k :: size <= k < buf.Length ==> buf[k] == Uninit
          modifies buf
        {
          AssignAt(buf, index, rhs.data.Get(index).value);
          index := index + 1;
        }
        DestroyN(buf, data.Plus(rhs.size), size - rhs.size);
      } else {
        var index := 0;
        while index != size
          invariant 0 <= index <= size
          invariant forall k :: 0 <= k < index ==> buf[k] == Live(rhs.Elements[k])
          invariant forall k :: index <= k < size ==> buf[k] == Live(s[k])
          invariant forall k :: size <= k < buf.Length ==> buf[k] == Uninit
          modifies buf
        {
          AssignAt(buf, index, rhs.data.Get(index).value);
          index := index + 1;
        }
        UninitializedCopyN(rhs.data.buffer, rhs.data.Plus(size), rhs.size - size,
                           buf, data.Plus(size), rhs.Elements[size..]);
      }
      size := rhs.size;
      Elements := rhs.Elements;
      assert forall k :: 0 <= k < size ==> buf[k] == Live(Elements[k]);
    }

    /** Move assignment exchanges storage and size with `rhs`. */
    method MoveAssign(rhs: Vector<T>)
      requires Valid() && rhs.Valid()
      requires this == rhs || Separate(rhs)
      modifies this, data, rhs, rhs.data
      ensures Valid() && rhs.Valid()
      ensures data == old(data) && rhs.data == old(rhs.data)
      ensures Model() == old(rhs.Model())
      ensures this != rhs ==> rhs.Model() == old(Model())
      ensures this != rhs ==> data.buffer == old(rhs.data.buffer) && rhs.data.buffer == old(data.buffer)
    {
      if this != rhs {
        Swap(rhs);
      }
    }

    function Size(): (n: nat)
      reads this, data, data.buffer
      requires Valid()
      ensures n == |Elements|
    {
      size
    }

    function Capacity(): (c: nat)
      reads this, data, data.buffer
      requires Valid()
      ensures c == data.buffer.Length && |Elements| <= c
    {
      data.Capacity()
    }

    function IsEmpty(): (b: bool)
      reads this, data, data.buffer
      requires Valid()
      ensures b <==> Elements == []
    {
      size == 0
    }

    /** Unchecked element access: the index must be below the size. */
    function Get(index: nat): (v: T)
      reads this, data, data.buffer
      requires Valid() && index < |Elements|
      ensures v == Elements[index]
    {
      data.Get(index).value
    }

    /** Writing through the reference unchecked access returns. */
    method Set(index: nat, v: T)
      requires Valid() && index < |Elements|
      modifies this, data.buffer
      ensures Valid() && data == old(data) && data.buffer == old(data.buffer)
      ensures Elements == old(Elements)[index := v] && data.capacity == old(data.capacity)
    {
      AssignAt(data.buffer, index, v);
      Elements := Elements[index := v];
    }

    /** Checked element access: out of range exactly when the index is not below the size. */
    function At(index: nat): (r: Result<T>)
      reads this, data, data.buffer
      requires Valid()
      ensures r.Ok? <==> index < |Elements|
      ensures r.Ok? ==> r.value == Elements[index]
      ensures r.Err? ==> r.error == OutOfRange("Invalid vector index")
    {
      if index >= size then Err(OutOfRange("Invalid vector index"))
      else Ok(data.Get(index).value)
    }

    /** Exchanges storage and size with `other`, touching no element. */
    method Swap(other: Vector<T>)
      requires Valid() && other.Valid()
      requires this == other || Separate(other)
      modifies this, data, other, other.data
      ensures Valid() && other.Valid()
      ensures data == old(data) && other.data == old(other.data)
      ensures data.buffer == old(other.data.buffer) && other.data.buffer == old(data.buffer)
      ensures Model() == old(other.Model()) && other.Model() == old(Model())
    {
      data.Swap(other.data);
      var n, s := size, Elements;
      size, Elements := other.size, other.Elements;
      other.size, other.Elements := n, s;
    }

    /** Appends the element built from `arg`. A full vector first allocates a
        block of GrownCapacity(size) slots and constructs the new element in it
        before carrying the old elements over; if that construction throws,
        nothing has changed. Returns the index of the new last element. */
    method EmplaceBack(arg: Construction<T>, mode: Relocation) returns (ok: bool, last: nat)
      requires Valid()
      modifies this, data, data.buffer
      ensures Valid() && data == old(data)
      ensures data.buffer == old(data.buffer) || fresh(data.buffer)
      ensures old(size) < old(data.capacity) ==> data.buffer == old(data.buffer)
      ensures ok <==> arg.Constructs?
      ensures ok ==> Model() == Spec.EmplaceBack(old(Model()), arg.value)
      ensures ok ==> last == old(size) && Elements[last] == arg.value
      ensures !ok ==> Model() == old(Model()) && data.buffer == old(data.buffer)
    {
      if size == data.capacity {
        var newCapacity := if size == 0 then 1 else size * 2;
        var newData := new RawMemory<T>(newCapacity);
        if arg.Throws? {
          newData.Dispose();
          return false, 0;
        }
        ConstructAt(newData.buffer, newData.Plus(size), arg.value);
        Relocate(mode, data.buffer, 0, size, newData.buffer, 0, Elements);
        DestroyN(data.buffer, 0, size);
        data.Swap(newData);
        newData.Dispose();
      } else {
        if arg.Throws? {
          return false, 0;
        }
        ConstructAt(data.buffer, data.Plus(size), arg.value);
      }
      last := size;
      size := size + 1;
      Elements := Elements + [arg.value];
      ok := true;
    }

    /** PushBack has the same effect as EmplaceBack without returning the element. */
    method PushBack(arg: Construction<T>, mode: Relocation) returns (ok: bool)
      requires Valid()
      modifies this, data, data.buffer
      ensures Valid() && data == old(data)
      ensures data.buffer == old(data.buffer) || fresh(data.buffer)
      ensures old(size) < old(data.capacity) ==> data.buffer == old(data.buffer)
      ensures ok <==> arg.Constructs?
      ensures ok ==> Model() == Spec.EmplaceBack(old(Model()), arg.value)
      ensures !ok ==> Model() == old(Model()) && data.buffer == old(data.buffer)
    {
      var last;
      ok, last := EmplaceBack(arg, mode);
    }

    /** Inserts the element built from `arg` before index `pos` and returns
        `pos`. At the end it appends; a full vector builds a new block around
        the new element; otherwise the value is built first, the tail is
        shifted right by one and the value moved into the freed slot. If the
        construction throws, nothing has changed. */
    method Emplace(pos: nat, arg: Construction<T>, mode: Relocation) returns (ok: bool, it: nat)
      requires Valid() && pos <= |Elements|
      modifies this, data, data.buffer
      ensures Valid() && data == old(data)
      ensures data.buffer == old(data.buffer) || fresh(data.buffer)
      ensures old(size) < old(data.capacity) ==> data.buffer == old(data.buffer)
      ensures ok <==> arg.Constructs?
      ensures ok ==> it == pos && Model() == Spec.Emplace(old(Model()), pos, arg.value)
      ensures !ok ==> Model() == old(Model()) && data.buffer == old(data.buffer)
    {
      if pos == size {
        ok, it := EmplaceBack(arg, mode);
        assert ok ==> Elements == old(Elements)[..pos] + [arg.value] + old(Elements)[pos..];
        return;
      }
      if size == data.capacity {
        ok := InsertReallocating(pos, arg, mode);
      } else {
        ok := InsertShifting(pos, arg);
      }
      it := pos;
    }

    /** The reallocating half of Emplace: the new element is constructed at
        its final index of a block of GrownCapacity(size) slots, then the
        elements before and after it are carried over around it. */
    method InsertReallocating(pos: nat, arg: Construction<T>, mode: Relocation) returns (ok: bool)
      requires Valid() && pos < |Elements| && size == data.capacity
      modifies this, data, data.buffer
      ensures Valid() && data == old(data)
      ensures data.buffer == old(data.buffer) || fresh(data.buffer)
      ensures ok <==> arg.Constructs?
      ensures ok ==> Model() == Spec.Emplace(old(Model()), pos, arg.value)
      ensures !ok ==> Model() == old(Model()) && data.buffer == old(data.buffer)
    {
      ghost var s := Elements;
      var newCapacity := if size == 0 then 1 else size * 2;
      var newData := new RawMemory<T>(newCapacity);
      if arg.Throws? {
        newData.Dispose();
        return false;
      }
      RelocateAround(mode, data.buffer, size, newData.buffer, newData.Plus(pos), arg.value, s);
      data.Swap(newData);
      newData.Dispose();
      size := size + 1;
      Elements := s[..pos] + [arg.value] + s[pos..];
      ok := true;
    }

    /** The in-place half of Emplace: the value is built first, the last
        element is move-constructed into the first free slot, the rest of the
        tail is move-assigned one slot to the right from the back, and the
        value is moved into the freed slot. */
    method InsertShifting(pos: nat, arg: Construction<T>) returns (ok: bool)
      requires Valid() && pos < |Elements| && size < data.capacity
      modifies this, data.buffer
      ensures Valid() && data == old(data) && data.buffer == old(data.buffer)
      ensures ok <==> arg.Constructs?
      ensures ok ==> Model() == Spec.Emplace(old(Model()), pos, arg.value)
      ensures !ok ==> Model() == old(Model())
    {
      ghost var s := Elements;
      if arg.Throws? {
        return false;
      }
      var tmp := arg.value;
      var buf := data.buffer;
      var moved := MoveOut(buf, size - 1);
      ConstructAt(buf, data.Plus(size), moved);
      MoveBackward(buf, data.Plus(pos), size - 1, s[pos..size - 1]);
      AssignAt(buf, pos, tmp);
      size := size + 1;
      Elements := s[..pos] + [arg.value] + s[pos..];
      assert forall k :: 0 <= k < size ==> buf[k] == Live(Elements[k]);
      ok := true;
    }

    /** Insert forwards to Emplace. */
    method Insert(pos: nat, arg: Construction<T>, mode: Relocation) returns (ok: bool, it: nat)
      requires Valid() && pos <= |Elements|
      modifies this, data, data.buffer
      ensures Valid() && data == old(data)
      ensures data.buffer == old(data.buffer) || fresh(data.buffer)
      ensures old(size) < old(data.capacity) ==> data.buffer == old(data.buffer)
      ensures ok <==> arg.Constructs?
      ensures ok ==> it == pos && Model() == Spec.Emplace(old(Model()), pos, arg.value)
      ensures !ok ==> Model() == old(Model()) && data.buffer == old(data.buffer)
    {
      ok, it := Emplace(pos, arg, mode);
    }

    /** Destroys the last element, if there is one. */
    method PopBack()
      requires Valid()
      modifies this, data.buffer
      ensures Valid() && data == old(data) && data.buffer == old(data.buffer)
      ensures Model() == Spec.PopBack(old(Model()))
    {
      if size != 0 {
        size := size - 1;
        DestroyAt(data.buffer, data.Plus(size));
        Elements := Elements[..size];
      }
    }

    /** Removes the element at `pos` by shifting the tail left by one and
        destroying the vacated last slot; returns `pos`. */
    method Erase(pos: nat) returns (it: nat)
      requires Valid() && pos < |Elements|
      modifies this, data.buffer
      ensures Valid() && data == old(data) && data.buffer == old(data.buffer)
      ensures it == pos && Model() == Spec.Erase(old(Model()), pos)
    {
      ghost var s := Elements;
      MoveForward(data.buffer, pos + 1, size, s[pos + 1..]);
      DestroyAt(data.buffer, data.Plus(size - 1));
      size := size - 1;
      Elements := s[..pos] + s[pos + 1..];
      it := pos;
    }

    /** Destroys every element and keeps the block. */
    method Clear()
      requires Valid()
      modifies this, data.buffer
      ensures Valid() && data == old(data) && data.buffer == old(data.buffer)
      ensures Model() == Spec.Clear(old(Model()))
    {
      DestroyN(data.buffer, 0, size);
      size := 0;
      Elements := [];
    }

    /** Growing reserves `newSize` slots and value-initialises the new tail;
        shrinking destroys the surplus and keeps the block. */
    method Resize(newSize: nat, zero: T, mode: Relocation)
      requires Valid()
      modifies this, data, data.buffer
      ensures Valid() && data == old(data)
      ensures data.buffer == old(data.buffer) || fresh(data.buffer)
      ensures newSize <= old(size) ==> data.buffer == old(data.buffer)
      ensures newSize > old(size) ==> fresh(data.buffer)
      ensures Model() == Spec.Resize(old(Model()), newSize, zero)
    {
      ghost var s := Elements;
      if newSize > size {
        Reserve(newSize, mode);
        UninitializedValueConstructN(data.buffer, data.Plus(size), newSize - size, zero);
        Elements := s + Spec.Filled(newSize - size, zero);
      } else {
        DestroyN(data.buffer, data.Plus(newSize), size - newSize);
        Elements := s[..newSize];
      }
      size := newSize;
    }

    /** Carries the elements (by moving or copying) into a new block of exactly
        `newCapacity` slots, unless that would not exceed the size. A request
        equal to the current capacity still reallocates. */
    method Reserve(newCapacity: nat, mode: Relocation)
      requires Valid()
      modifies this, data, data.buffer
      ensures Valid() && data == old(data)
      ensures data.buffer == old(data.buffer) || fresh(data.buffer)
      ensures Model() == Spec.Reserve(old(Model()), newCapacity)
      ensures newCapacity <= old(size) ==> data.buffer == old(data.buffer)
      ensures newCapacity > old(size) ==> fresh(data.buffer)
    {
      if newCapacity <= size {
        return;
      }
      var newData := new RawMemory<T>(newCapacity);
      Relocate(mode, data.buffer, 0, size, newData.buffer, 0, Elements);
      DestroyN(data.buffer, 0, size);
      data.Swap(newData);
      newData.Dispose();
    }
  }

  /** A copy owns storage of its own: appending to the original afterwards
      leaves the copy holding the original's former elements. */
  method CopyIsIndependent<T>(a: Vector<T>, x: T, mode: Relocation) returns (b: Vector<T>)
    requires a.Valid()
    modifies a, a.data, a.data.buffer
    ensures a.Valid() && b.Valid()
    ensures b.Model() == Spec.Copy(old(a.Model()))
    ensures a.Elements == old(a.Elements) + [x]
  {
    b := new Vector<T>.Copy(a);
    var ok := a.PushBack(Constructs(x), mode);
  }
}
