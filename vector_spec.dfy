/** The value a vector denotes (its element sequence and its capacity) and the
    effect of each vector operation on that value. The class in module Vectors
    is proved to change its state exactly as these functions say; the lemmas
    here state what those effects mean. */
module VectorSpec {

  datatype VectorValue<T> = VectorValue(elems: seq<T>, cap: nat)

  /** The size never exceeds the capacity. */
  predicate WellFormed<T>(v: VectorValue<T>)
  {
    |v.elems| <= v.cap
  }

  /** `n` value-initialised elements. */
  function Filled<T>(n: nat, zero: T): (r: seq<T>)
    ensures |r| == n && forall k :: 0 <= k < n ==> r[k] == zero
  {
    seq(n, _ => zero)
  }

  function Empty<T>(): (r: VectorValue<T>)
    ensures WellFormed(r) && r.elems == []
  {
    VectorValue([], 0)
  }

  /** Vector(n): n value-initialised elements in a block of exactly n slots. */
  function WithSize<T>(n: nat, zero: T): (r: VectorValue<T>)
    ensures WellFormed(r) && |r.elems| == r.cap == n
  {
    VectorValue(Filled(n, zero), n)
  }

  /** Copy construction allocates exactly as many slots as the source has elements. */
  function Copy<T>(v: VectorValue<T>): (r: VectorValue<T>)
    ensures WellFormed(r) && r.elems == v.elems && r.cap == |r.elems|
  {
    VectorValue(v.elems, |v.elems|)
  }

  /** The capacity of the block allocated when a full vector of `size` elements grows. */
  function GrownCapacity(size: nat): (c: nat)
    ensures c > size && (size == 0 ==> c == 1) && (size > 0 ==> c == 2 * size)
  {
    if size == 0 then 1 else size * 2
  }

  /** The capacity after one more element is inserted: grown only when full. */
  function CapacityForInsert<T>(v: VectorValue<T>): (c: nat)
    ensures WellFormed(v) ==> c > |v.elems| && c >= v.cap
  {
    if |v.elems| == v.cap then GrownCapacity(|v.elems|) else v.cap
  }

  function EmplaceBack<T>(v: VectorValue<T>, x: T): (r: VectorValue<T>)
    ensures WellFormed(v) ==> WellFormed(r)
  {
    VectorValue(v.elems + [x], CapacityForInsert(v))
  }

  function Emplace<T>(v: VectorValue<T>, i: nat, x: T): (r: VectorValue<T>)
    requires i <= |v.elems|
    ensures WellFormed(v) ==> WellFormed(r)
  {
    VectorValue(v.elems[..i] + [x] + v.elems[i..], CapacityForInsert(v))
  }

  function Erase<T>(v: VectorValue<T>, i: nat): (r: VectorValue<T>)
    requires i < |v.elems|
    ensures WellFormed(v) ==> WellFormed(r)
  {
    VectorValue(v.elems[..i] + v.elems[i + 1..], v.cap)
  }

  function PopBack<T>(v: VectorValue<T>): (r: VectorValue<T>)
    ensures WellFormed(v) ==> WellFormed(r)
  {
    if |v.elems| == 0 then v else VectorValue(v.elems[..|v.elems| - 1], v.cap)
  }

  function Clear<T>(v: VectorValue<T>): (r: VectorValue<T>)
    ensures WellFormed(r) && r.elems == [] && r.cap == v.cap
  {
    VectorValue([], v.cap)
  }

  /** Reserve returns early only when the request does not exceed the size;
      otherwise the block is replaced by one of exactly `k` slots. */
  function Reserve<T>(v: VectorValue<T>, k: nat): (r: VectorValue<T>)
    ensures WellFormed(v) ==> WellFormed(r)
  {
    if k <= |v.elems| then v else VectorValue(v.elems, k)
  }

  /** Growing reserves `n` slots first and value-initialises the new tail;
      shrinking keeps the first `n` elements and the block. */
  function Resize<T>(v: VectorValue<T>, n: nat, zero: T): (r: VectorValue<T>)
    ensures WellFormed(v) ==> WellFormed(r)
  {
    if n > |v.elems| then
      var reserved := Reserve(v, n);
      VectorValue(reserved.elems + Filled(n - |v.elems|, zero), reserved.cap)
    else
      VectorValue(v.elems[..n], v.cap)
  }

  /** Copy assignment: copy-and-swap when the source does not fit, in place otherwise. */
  function CopyAssign<T>(lhs: VectorValue<T>, rhs: VectorValue<T>): (r: VectorValue<T>)
    ensures WellFormed(r)
  {
    if |rhs.elems| > lhs.cap then Copy(rhs) else VectorValue(rhs.elems, lhs.cap)
  }

  /** The vector after appending each of `xs` in turn. */
  function AppendAll<T>(v: VectorValue<T>, xs: seq<T>): VectorValue<T>
    decreases |xs|
  {
    if xs == [] then v else AppendAll(EmplaceBack(v, xs[0]), xs[1..])
  }

  ghost predicate IsPowerOfTwo(c: nat)
    decreases c
  {
    c == 1 || (c > 1 && c % 2 == 0 && IsPowerOfTwo(c / 2))
  }

  /** The growth invariant of a vector built by appends only: either nothing
      was ever allocated, or the capacity is a power of two that is at least
      the size and less than twice the size. */
  ghost predicate DoublingCapacity<T>(v: VectorValue<T>)
  {
    (v.elems == [] && v.cap == 0) ||
    (v.elems != [] && IsPowerOfTwo(v.cap) && |v.elems| <= v.cap < 2 * |v.elems|)
  }

  /** One append keeps the growth invariant. */
  lemma EmplaceBackKeepsDoubling<T>(v: VectorValue<T>, x: T)
    requires DoublingCapacity(v)
    ensures DoublingCapacity(EmplaceBack(v, x))
  {
  }

  lemma {:induction false} AppendAllKeepsDoubling<T>(v: VectorValue<T>, xs: seq<T>)
    requires DoublingCapacity(v)
    ensures AppendAll(v, xs).elems == v.elems + xs
    ensures DoublingCapacity(AppendAll(v, xs))
    decreases |xs|
  {
    if xs != [] {
      EmplaceBackKeepsDoubling(v, xs[0]);
      AppendAllKeepsDoubling(EmplaceBack(v, xs[0]), xs[1..]);
      assert v.elems + [xs[0]] + xs[1..] == v.elems + xs;
    }
  }

  /** N appends to an empty vector hold the appended values in order, in a
      block whose size is the smallest power of two not below N. */
  lemma AppendsFromEmpty<T>(xs: seq<T>)
    ensures AppendAll(Empty(), xs).elems == xs
    ensures xs == [] ==> AppendAll(Empty(), xs).cap == 0
    ensures xs != [] ==> var c := AppendAll(Empty(), xs).cap;
                         IsPowerOfTwo(c) && |xs| <= c < 2 * |xs|
  {
    AppendAllKeepsDoubling(Empty(), xs);
  }

  /** Of two distinct powers of two, the larger is at least twice the smaller. */
  lemma {:induction false} PowerOfTwoGap(p: nat, c: nat)
    requires IsPowerOfTwo(p) && IsPowerOfTwo(c) && p < c
    ensures 2 * p <= c
    decreases c
  {
    if p > 1 && c / 2 < p {
      PowerOfTwoGap(p / 2, c / 2);
    }
  }

  /** The block left by N appends to an empty vector is no larger than any
      power of two not below N: it is the smallest such power. */
  lemma AppendsFromEmptySmallest<T>(xs: seq<T>, p: nat)
    requires IsPowerOfTwo(p) && |xs| <= p
    ensures AppendAll(Empty(), xs).cap <= p
  {
    AppendsFromEmpty(xs);
    var c := AppendAll(Empty(), xs).cap;
    if xs != [] && p < c {
      PowerOfTwoGap(p, c);
    }
  }

  /** Inserting at `i` puts `x` at position `i`, keeps the elements before it and
      shifts the ones after it right by one. */
  lemma EmplaceAt<T>(v: VectorValue<T>, i: nat, x: T, j: nat)
    requires i <= |v.elems| && j <= |v.elems|
    ensures |Emplace(v, i, x).elems| == |v.elems| + 1
    ensures Emplace(v, i, x).elems[j] == if j < i then v.elems[j] else if j == i then x else v.elems[j - 1]
  {
  }

  /** Erasing at `i` keeps the elements before it and shifts the ones after it left by one. */
  lemma EraseAt<T>(v: VectorValue<T>, i: nat, j: nat)
    requires i < |v.elems| && j < |v.elems| - 1
    ensures |Erase(v, i).elems| == |v.elems| - 1
    ensures Erase(v, i).elems[j] == if j < i then v.elems[j] else v.elems[j + 1]
  {
  }

  /** Erasing at `i` undoes inserting at `i`; only the capacity may have grown. */
  lemma EraseUndoesEmplace<T>(v: VectorValue<T>, i: nat, x: T)
    requires i <= |v.elems|
    ensures Erase(Emplace(v, i, x), i).elems == v.elems
    ensures Erase(Emplace(v, i, x), i).cap == CapacityForInsert(v)
  {
  }

  /** PopBack undoes EmplaceBack; only the capacity may have grown. */
  lemma PopBackUndoesEmplaceBack<T>(v: VectorValue<T>, x: T)
    ensures PopBack(EmplaceBack(v, x)).elems == v.elems
    ensures PopBack(EmplaceBack(v, x)).cap == CapacityForInsert(v)
  {
  }

  /** Resizing keeps the elements below both sizes and value-initialises the rest. */
  lemma ResizeAt<T>(v: VectorValue<T>, n: nat, zero: T, j: nat)
    requires j < n
    ensures |Resize(v, n, zero).elems| == n
    ensures Resize(v, n, zero).elems[j] == if j < |v.elems| then v.elems[j] else zero
  {
  }

  /** Copy assignment yields the source's elements; the capacity never drops
      and becomes the source's size only when the old block was too small. */
  lemma CopyAssignEffect<T>(lhs: VectorValue<T>, rhs: VectorValue<T>)
    ensures CopyAssign(lhs, rhs).elems == rhs.elems
    ensures CopyAssign(lhs, rhs).cap >= lhs.cap
    ensures CopyAssign(lhs, rhs).cap == lhs.cap <==> |rhs.elems| <= lhs.cap
  {
  }

  /** Assigning a well-formed vector to itself changes nothing. */
  lemma SelfCopyAssign<T>(v: VectorValue<T>)
    requires WellFormed(v)
    ensures CopyAssign(v, v) == v
  {
  }

  /** Reserve keeps the elements; it leaves the value unchanged exactly when
      the request does not exceed the size or equals the capacity, and a
      request above the size sets the capacity to the request. (The class
      reallocates for every request above the size, even one equal to the
      capacity.) */
  lemma ReserveEffect<T>(v: VectorValue<T>, k: nat)
    ensures Reserve(v, k).elems == v.elems
    ensures Reserve(v, k) == v <==> (k <= |v.elems| || k == v.cap)
    ensures k > |v.elems| ==> Reserve(v, k).cap == k
  {
  }

  /** A request between the size and the capacity shrinks the block. */
  lemma ReserveCanShrink()
    ensures Reserve(VectorValue([1, 2], 8), 3) == VectorValue([1, 2], 3)
    ensures Resize(VectorValue([1, 2], 8), 3, 0).cap == 3
  {
  }

  /** A worked example: three appends, an insertion in the
      middle, an erasure at the front and a growing resize. */
  lemma Scenario()
    ensures AppendAll(Empty(), [1, 2, 3]) == VectorValue([1, 2, 3], 4)
    ensures Emplace(VectorValue([1, 2, 3], 4), 1, 9) == VectorValue([1, 9, 2, 3], 4)
    ensures Erase(VectorValue([1, 9, 2, 3], 4), 0) == VectorValue([9, 2, 3], 4)
    ensures Resize(VectorValue([9, 2, 3], 4), 5, 0) == VectorValue([9, 2, 3, 0, 0], 5)
  {
  }

  /** A trace of appends and removals from the back. */
  datatype StackOp<T> = Push(x: T) | Pop

  function Run<T>(v: VectorValue<T>, ops: seq<StackOp<T>>): VectorValue<T>
    decreases |ops|
  {
    if ops == [] then v
    else Run(if ops[0].Push? then EmplaceBack(v, ops[0].x) else PopBack(v), ops[1..])
  }

  /** The number of elements a trace leaves, counting a removal from an empty
      vector as doing nothing. */
  function Net<T>(n: nat, ops: seq<StackOp<T>>): nat
    decreases |ops|
  {
    if ops == [] then n
    else if ops[0].Push? then Net(n + 1, ops[1..])
    else Net(if n == 0 then 0 else n - 1, ops[1..])
  }

  /** Any trace keeps the vector well-formed, its size is the net count, and
      its capacity never shrinks. */
  lemma {:induction false} RunSize<T>(v: VectorValue<T>, ops: seq<StackOp<T>>)
    requires WellFormed(v)
    ensures WellFormed(Run(v, ops))
    ensures |Run(v, ops).elems| == Net(|v.elems|, ops)
    ensures Run(v, ops).cap >= v.cap
    decreases |ops|
  {
    if ops != [] {
      var w := if ops[0].Push? then EmplaceBack(v, ops[0].x) else PopBack(v);
      RunSize(w, ops[1..]);
    }
  }

  /** A trace of pushes only leaves the pushed values, in order, after the old ones. */
  lemma {:induction false} RunPushesOnly<T>(v: VectorValue<T>, ops: seq<StackOp<T>>)
    requires forall k :: 0 <= k < |ops| ==> ops[k].Push?
    ensures Run(v, ops).elems == v.elems + seq(|ops|, k requires 0 <= k < |ops| => ops[k].x)
    decreases |ops|
  {
    if ops != [] {
      RunPushesOnly(EmplaceBack(v, ops[0].x), ops[1..]);
      var pushed := seq(|ops|, k requires 0 <= k < |ops| => ops[k].x);
      var rest := seq(|ops| - 1, k requires 0 <= k < |ops| - 1 => ops[1..][k].x);
      assert pushed == [ops[0].x] + rest;
      assert v.elems + [ops[0].x] + rest == v.elems + pushed;
    }
  }
}
