/** The raw storage layer: a block of element slots that this layer never
    constructs or destroys, together with its capacity. */
module RawStorage {

  /** The lifetime state of one slot of a block. `MovedFrom` is an element
      that is still constructed but whose value has been moved away: it must
      still be destroyed or assigned before it can be read again. */
  datatype Slot<T> = Uninit | Live(value: T) | MovedFrom
  {
    /** A constructed slot is one a destructor or an assignment may target. */
    predicate Constructed() { !Uninit? }
  }

  /** Slots [lo, hi) of `s` hold no element. */
  ghost predicate AllUninit<T>(s: seq<Slot<T>>, lo: nat, hi: nat)
    requires lo <= hi <= |s|
  {
    forall k :: lo <= k < hi ==> s[k] == Uninit
  }

  /** Slots [lo, hi) of `s` are all constructed (live or moved-from). */
  ghost predicate AllConstructed<T>(s: seq<Slot<T>>, lo: nat, hi: nat)
    requires lo <= hi <= |s|
  {
    forall k :: lo <= k < hi ==> s[k].Constructed()
  }

  /** Slots [lo, lo + |vs|) of `s` hold live elements with the values `vs`, in order. */
  ghost predicate Holds<T>(s: seq<Slot<T>>, lo: nat, vs: seq<T>)
    requires lo + |vs| <= |s|
  {
    forall k :: lo <= k < lo + |vs| ==> s[k] == Live(vs[k - lo])
  }

  class RawMemory<T> {
    var buffer: array<Slot<T>>
    var capacity: nat

    ghost predicate Valid()
      reads this
    {
      buffer.Length == capacity
    }

    /** The default constructor: no block at all. The null buffer is an empty array. */
    constructor Empty()
      ensures Valid() && capacity == 0 && fresh(buffer)
    {
      buffer := new Slot<T>[0](_ => Uninit);
      capacity := 0;
    }

    /** Acquires a block for `capacity` elements; none of its slots is constructed. */
    constructor (capacity: nat)
      ensures Valid() && this.capacity == capacity && fresh(buffer)
      ensures AllUninit(buffer[..], 0, capacity)
    {
      var block := RawMemory<T>.Allocate(capacity);
      buffer := block;
      this.capacity := capacity;
    }

    /** The move constructor: starts empty and swaps with `other`, which is left empty. */
    constructor Moved(other: RawMemory<T>)
      requires other.Valid()
      modifies other
      ensures Valid() && other.Valid()
      ensures buffer == old(other.buffer) && capacity == old(other.capacity)
      ensures other.capacity == 0 && fresh(other.buffer)
    {
      buffer := new Slot<T>[0](_ => Uninit);
      capacity := 0;
      new;
      Swap(other);
    }

    /** Raw memory for `n` elements, no slot constructed. */
    static method Allocate(n: nat) returns (block: array<Slot<T>>)
      ensures fresh(block) && block.Length == n
      ensures AllUninit(block[..], 0, n)
    {
      block := new Slot<T>[n](_ => Uninit);
    }

    /** The destructor releases the block. Releasing memory that still holds a
        constructed element would leak it, so every release asks that none is left. */
    method Dispose()
      requires Valid() && AllUninit(buffer[..], 0, capacity)
      ensures AllUninit(buffer[..], 0, capacity)
    {
    }

    /** Slot addressing: the address `offset` slots into the block, allowed up to
        and including one past the last slot. */
    function Plus(offset: nat): (p: nat)
      reads this
      requires Valid() && offset <= capacity
      ensures p == offset && p <= buffer.Length
    {
      offset
    }

    /** Slot access: only slots strictly below the capacity may be read. */
    function Get(index: nat): (s: Slot<T>)
      reads this, buffer
      requires Valid() && index < capacity
      ensures s == buffer[index]
    {
      buffer[index]
    }

    /** Exchanges block and capacity with `other`, touching no slot. */
    method Swap(other: RawMemory<T>)
      requires Valid() && other.Valid()
      modifies this, other
      ensures Valid() && other.Valid()
      ensures buffer == old(other.buffer) && capacity == old(other.capacity)
      ensures other.buffer == old(buffer) && other.capacity == old(capacity)
    {
      var b, c := buffer, capacity;
      buffer, capacity := other.buffer, other.capacity;
      other.buffer, other.capacity := b, c;
    }

    function Capacity(): (c: nat)
      reads this
      requires Valid()
      ensures c == buffer.Length
    {
      capacity
    }
  }
}
