/** Element-lifetime primitives over a block of slots: placement construction,
    destruction, assignment, moving a value out, and the range algorithms the
    vector builds from them (uninitialised copy, move and value construction,
    destruction of a range, and the two shifting moves). Each one states which
    slot states it needs, so a slot is never constructed twice nor destroyed
    while uninitialised. */
module Lifetime {
  import opened RawStorage

  /** Placement construction of `v` in slot `i`, which must be uninitialised. */
  method ConstructAt<T>(a: array<Slot<T>>, i: nat, v: T)
    requires i < a.Length && a[i] == Uninit
    modifies a
    ensures a[i] == Live(v)
    ensures forall k :: 0 <= k < a.Length && k != i ==> a[k] == old(a[k])
  {
    a[i] := Live(v);
  }

  /** Destruction of the element in slot `i`, which must be constructed. */
  method DestroyAt<T>(a: array<Slot<T>>, i: nat)
    requires i < a.Length && a[i].Constructed()
    modifies a
    ensures a[i] == Uninit
    ensures forall k :: 0 <= k < a.Length && k != i ==> a[k] == old(a[k])
  {
    a[i] := Uninit;
  }

  /** Assignment of `v` to the element in slot `i`, which must be constructed. */
  method AssignAt<T>(a: array<Slot<T>>, i: nat, v: T)
    requires i < a.Length && a[i].Constructed()
    modifies a
    ensures a[i] == Live(v)
    ensures forall k :: 0 <= k < a.Length && k != i ==> a[k] == old(a[k])
  {
    a[i] := Live(v);
  }

  /** Moving the value out of the live element in slot `i`; the element stays
      constructed, in its moved-from state. */
  method MoveOut<T>(a: array<Slot<T>>, i: nat) returns (v: T)
    requires i < a.Length && a[i].Live?
    modifies a
    ensures v == old(a[i]).value && a[i] == MovedFrom
    ensures forall k :: 0 <= k < a.Length && k != i ==> a[k] == old(a[k])
  {
    v := a[i].value;
    a[i] := MovedFrom;
  }

  /** Destroys the `n` constructed elements starting at slot `from`. */
  method DestroyN<T>(a: array<Slot<T>>, from: nat, n: nat)
    requires from + n <= a.Length && AllConstructed(a[..], from, from + n)
    modifies a
    ensures AllUninit(a[..], from, from + n)
    ensures forall k :: 0 <= k < a.Length && !(from <= k < from + n) ==> a[k] == old(a[k])
  {
    var i := 0;
    while i < n
      invariant 0 <= i <= n
      invariant forall k :: from <= k < from + i ==> a[k] == Uninit
      invariant forall k :: 0 <= k < a.Length && !(from <= k < from + i) ==> a[k] == old(a[k])
    {
      DestroyAt(a, from + i);
      i := i + 1;
    }
  }

  /** Value-constructs `n` elements equal to `zero` in the uninitialised slots
      starting at `from`. */
  method UninitializedValueConstructN<T>(a: array<Slot<T>>, from: nat, n: nat, zero: T)
    requires from + n <= a.Length && AllUninit(a[..], from, from + n)
    modifies a
    ensures Holds(a[..], from, seq(n, _ => zero))
    ensures forall k :: 0 <= k < a.Length && !(from <= k < from + n) ==> a[k] == old(a[k])
  {
    var i := 0;
    while i < n
      invariant 0 <= i <= n
      invariant forall k :: from <= k < from + i ==> a[k] == Live(zero)
      invariant forall k :: 0 <= k < a.Length && !(from <= k < from + i) ==> a[k] == old(a[k])
    {
      ConstructAt(a, from + i, zero);
      i := i + 1;
    }
  }

  /** Copy-constructs the `n` live elements `vs` found at `src[from..]` into the
      uninitialised slots `dst[to..]`; the source block is left untouched. */
  method UninitializedCopyN<T>(src: array<Slot<T>>, from: nat, n: nat,
                               dst: array<Slot<T>>, to: nat, ghost vs: seq<T>)
    requires src != dst && |vs| == n
    requires from + n <= src.Length && to + n <= dst.Length
    requires Holds(src[..], from, vs) && AllUninit(dst[..], to, to + n)
    modifies dst
    ensures Holds(dst[..], to, vs)
    ensures forall k :: 0 <= k < dst.Length && !(to <= k < to + n) ==> dst[k] == old(dst[k])
  {
    var i := 0;
    while i < n
      invariant 0 <= i <= n
      invariant forall k :: to <= k < to + i ==> dst[k] == Live(vs[k - to])
      invariant forall k :: 0 <= k < dst.Length && !(to <= k < to + i) ==> dst[k] == old(dst[k])
    {
      assert src[from + i] == Live(vs[i]);
      ConstructAt(dst, to + i, src[from + i].value);
      i := i + 1;
    }
  }

  /** Move-constructs the `n` live elements `vs` found at `src[from..]` into the
      uninitialised slots `dst[to..]`; the source elements are left moved-from. */
  method UninitializedMoveN<T>(src: array<Slot<T>>, from: nat, n: nat,
                               dst: array<Slot<T>>, to: nat, ghost vs: seq<T>)
    requires src != dst && |vs| == n
    requires from + n <= src.Length && to + n <= dst.Length
    requires Holds(src[..], from, vs) && AllUninit(dst[..], to, to + n)
    modifies src, dst
    ensures Holds(dst[..], to, vs)
    ensures forall k :: 0 <= k < dst.Length && !(to <= k < to + n) ==> dst[k] == old(dst[k])
    ensures forall k :: from <= k < from + n ==> src[k] == MovedFrom
    ensures forall k :: 0 <= k < src.Length && !(from <= k < from + n) ==> src[k] == old(src[k])
  {
    var i := 0;
    while i < n
      invariant 0 <= i <= n
      invariant forall k :: to <= k < to + i ==> dst[k] == Live(vs[k - to])
      invariant forall k :: 0 <= k < dst.Length && !(to <= k < to + i) ==> dst[k] == old(dst[k])
      invariant forall k :: from <= k < from + i ==> src[k] == MovedFrom
      invariant forall k :: 0 <= k < src.Length && !(from <= k < from + i) ==> src[k] == old(src[k])
    {
      assert src[from + i] == Live(vs[i]);
      var v := MoveOut(src, from + i);
      ConstructAt(dst, to + i, v);
      i := i + 1;
    }
  }

  /** Moves the live elements `vs` of slots [first, last) one slot to the right,
      starting from the back, by move-assignment into [first + 1, last + 1).
      Slot `last` must already be constructed; slot `first` is left constructed. */
  method MoveBackward<T>(a: array<Slot<T>>, first: nat, last: nat, ghost vs: seq<T>)
    requires first <= last < a.Length && |vs| == last - first
    requires Holds(a[..], first, vs) && a[last].Constructed()
    modifies a
    ensures Holds(a[..], first + 1, vs) && a[first].Constructed()
    ensures forall k :: 0 <= k < a.Length && !(first <= k <= last) ==> a[k] == old(a[k])
  {
    var j := last;
    while j > first
      invariant first <= j <= last
      invariant forall k :: j < k <= last ==> a[k] == Live(vs[k - 1 - first])
      invariant forall k :: first <= k < j ==> a[k] == Live(vs[k - first])
      invariant a[j].Constructed()
      invariant forall k :: 0 <= k < a.Length && !(first <= k <= last) ==> a[k] == old(a[k])
    {
      var v := MoveOut(a, j - 1);
      AssignAt(a, j, v);
      j := j - 1;
    }
  }

  /** Moves the live elements `vs` of slots [first, last) one slot to the left,
      from the front, by move-assignment into [first - 1, last - 1).
      Slot `first - 1` must be constructed; slot `last - 1` is left constructed. */
  method MoveForward<T>(a: array<Slot<T>>, first: nat, last: nat, ghost vs: seq<T>)
    requires 1 <= first <= last <= a.Length && |vs| == last - first
    requires a[first - 1].Constructed() && Holds(a[..], first, vs)
    modifies a
    ensures Holds(a[..], first - 1, vs) && a[last - 1].Constructed()
    ensures forall k :: 0 <= k < a.Length && !(first - 1 <= k < last) ==> a[k] == old(a[k])
  {
    var j := first;
    while j < last
      invariant first <= j <= last
      invariant forall k :: first - 1 <= k < j - 1 ==> a[k] == Live(vs[k + 1 - first])
      invariant a[j - 1].Constructed()
      invariant forall k :: j <= k < last ==> a[k] == Live(vs[k - first])
      invariant forall k :: 0 <= k < a.Length && !(first - 1 <= k < last) ==> a[k] == old(a[k])
    {
      var v := MoveOut(a, j);
      AssignAt(a, j - 1, v);
      j := j + 1;
    }
  }
}
