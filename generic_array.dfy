/**
 * generics/src/lib.rs: `DynamicArray<T>`, a growable array over a boxed slice
 * of `Option<T>` slots. `length` slots are in use and the rest hold `None`.
 * The boxed slice is a Dafny `array`. `grow` allocates a larger one and
 * copies the old slots into it.
 */
module GenericArray {
  import opened Wrappers

  /** `MIN_SIZE`: the capacity of a new array. */
  const MinSize: nat := 10

  /** The capacity `grow` picks: one and a half times the old one (`old + (old >> 1)`), or `minCap`
      when that is larger. */
  function GrownCapacity(oldCap: nat, minCap: nat): (r: nat)
    ensures r >= minCap && r >= oldCap + oldCap / 2
    ensures r == oldCap + oldCap / 2 || r == minCap
  {
    if oldCap + oldCap / 2 >= minCap then oldCap + oldCap / 2 else minCap
  }

  class DynamicArray<T> {
    var buf: array<Option<T>>
    var cap: nat
    var length: nat

    /** `length <= cap == buf.len()`, and every slot at or past `length` is `None`. */
    ghost predicate Valid()
      reads this, buf
    {
      length <= cap == buf.Length
      && forall i | length <= i < buf.Length :: buf[i] == None
    }

    /** `new_array()`: ten `None` slots, none in use. */
    constructor NewArray()
      ensures Valid() && fresh(buf)
      ensures length == 0 && cap == MinSize
      ensures buf[..] == seq(MinSize, _ => None)
    {
      buf := new Option<T>[MinSize](_ => None);
      cap := MinSize;
      length := 0;
    }

    /** The fields `clone` builds its copy from. */
    constructor FromParts(buf: array<Option<T>>, cap: nat, length: nat)
      ensures this.buf == buf && this.cap == cap && this.length == length
    {
      this.buf := buf;
      this.cap := cap;
      this.length := length;
    }

    /** `grow(min_cap)`: a fresh buffer of `GrownCapacity(buf.len(), min_cap)` slots. The old slots
        are copied to the front and the new ones are `None`. */
    method Grow(minCap: nat)
      modifies this
      ensures fresh(buf)
      ensures cap == buf.Length == GrownCapacity(old(buf.Length), minCap)
      ensures buf[..old(buf.Length)] == old(buf[..])
      ensures forall i | old(buf.Length) <= i < buf.Length :: buf[i] == None
      ensures length == old(length)
      ensures old(Valid()) ==> Valid()
    {
      var oldCap := buf.Length;
      var newCap := GrownCapacity(oldCap, minCap);
      var current := buf;
      cap := newCap;
      var grown := new Option<T>[newCap](_ => None);
      // `clone_from_slice` of the old slots into the front of the new buffer.
      var i := 0;
      while i < oldCap
        invariant 0 <= i <= oldCap
        invariant forall j | 0 <= j < i :: grown[j] == current[j]
        invariant forall j | i <= j < newCap :: grown[j] == None
        modifies grown
      {
        grown[i] := current[i];
        i := i + 1;
      }
      assert grown[..oldCap] == current[..];
      buf := grown;
    }

    /** `at(index)` and `self[index]`: slot `index` while it is in use, otherwise `None`. Under the
        invariant the `length` guard never hides a stored value, since unused slots are `None`. */
    function Get(index: nat): (r: Option<T>)
      reads this, buf
      requires Valid()
      ensures index < length ==> r == buf[index]
      ensures index < buf.Length ==> r == buf[index]
      ensures index >= length ==> r == None
    {
      if length > index then buf[index] else None
    }

    /** `append(value)`: grows to `GrownCapacity(cap, length + 1)` when full, then writes `Some(value)`
        at `length` and counts it. Slots already in use keep their values. */
    method Append(value: T)
      requires Valid()
      modifies this, buf
      ensures Valid()
      ensures length == old(length) + 1
      ensures old(length) == old(cap) ==> cap == GrownCapacity(old(cap), old(length) + 1) && fresh(buf)
      ensures old(length) < old(cap) ==> cap == old(cap) && buf == old(buf)
      ensures buf[..length] == old(buf[..length]) + [Some(value)]
      ensures Get(old(length)) == Some(value)
      ensures forall i: nat | i < old(length) :: Get(i) == old(Get(i))
    {
      if length == cap {
        Grow(length + 1);
      }
      buf[length] := Some(value);
      length := length + 1;
    }

    /** `clone()`: a new array with its own buffer holding the same slots, capacity and length. */
    method Clone() returns (c: DynamicArray<T>)
      ensures fresh(c) && fresh(c.buf)
      ensures c.buf[..] == buf[..] && c.cap == cap && c.length == length
      ensures Valid() ==> c.Valid()
    {
      var copy := new Option<T>[buf.Length];
      var i := 0;
      while i < buf.Length
        invariant 0 <= i <= buf.Length
        invariant copy[..i] == buf[..i]
      {
        copy[i] := buf[i];
        i := i + 1;
      }
      c := new DynamicArray.FromParts(copy, cap, length);
    }
  }

  /** The test `dynamic_array_clone`: appending to a clone leaves the original as it was. */
  method CloneIsIndependent() returns (a0: Option<real>, a1: Option<real>, b0: Option<real>, b1: Option<real>)
    ensures a0 == Some(3.14) && a1 == None
    ensures b0 == Some(3.14) && b1 == Some(42.0)
  {
    var list := new DynamicArray<real>.NewArray();
    list.Append(3.14);
    var list2 := list.Clone();
    list2.Append(42.0);
    a0 := list.Get(0);
    a1 := list.Get(1);
    b0 := list2.Get(0);
    b1 := list2.Get(1);
  }

  /** The test `dynamic_array_index`, over numbers and over strings. */
  method IndexAfterAppend() returns (n0: Option<real>, s0: Option<string>, s1: Option<string>)
    ensures n0 == Some(3.14)
    ensures s0 == Some("Hello") && s1 == None
  {
    var numbers := new DynamicArray<real>.NewArray();
    numbers.Append(3.14);
    n0 := numbers.Get(0);
    var words := new DynamicArray<string>.NewArray();
    words.Append("Hello");
    s0 := words.Get(0);
    s1 := words.Get(1);
  }

  /** Eleven appends to a new array pass its capacity of ten once: the buffer grows to fifteen. */
  method GrowsOnEleventhAppend() returns (cap: nat, length: nat, last: Option<int>)
    ensures cap == 15 && length == 11 && last == Some(10)
  {
    var list := new DynamicArray<int>.NewArray();
    var k := 0;
    while k < 11
      invariant 0 <= k <= 11
      invariant list.Valid() && fresh(list) && fresh(list.buf)
      invariant list.length == k
      invariant list.cap == if k <= 10 then 10 else 15
      invariant k > 0 ==> list.Get(k - 1) == Some(k - 1)
    {
      list.Append(k);
      k := k + 1;
    }
    cap := list.cap;
    length := list.length;
    last := list.Get(10);
  }
}
