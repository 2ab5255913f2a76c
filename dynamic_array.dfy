/**
 * dynamic-array/src/main.rs: a growable array of `u64` values over a `Vec`.
 * The array keeps its own `cap` field, which the `Vec` only uses as a
 * reservation hint. The `Vec` is a sequence field that `add` and `remove`
 * push to and pop from.
 */
module U64Array {
  import opened Wrappers

  /** Rust's `u64`. */
  newtype U64 = x: int | 0 <= x < 0x1_0000_0000_0000_0000

  /** The values in slots that all hold one. */
  function Unwrapped(slots: seq<Option<U64>>): (r: seq<U64>)
    requires forall i | 0 <= i < |slots| :: slots[i].Some?
    ensures |r| == |slots| && forall i | 0 <= i < |slots| :: slots[i] == Some(r[i])
  {
    seq(|slots|, i requires 0 <= i < |slots| && slots[i].Some? => slots[i].value)
  }

  class DynamicArray {
    var buf: seq<Option<U64>>
    var cap: nat
    var length: nat

    /** `length == buf.len()`, and every slot holds a value. */
    ghost predicate Valid()
      reads this
    {
      length == |buf| && forall i | 0 <= i < |buf| :: buf[i].Some?
    }

    /** The values stored, oldest first. */
    ghost function Values(): seq<U64>
      reads this
      requires Valid()
    {
      Unwrapped(buf)
    }

    /** The capacity bound `add` keeps once the capacity is non-zero. */
    ghost predicate WithinCapacity()
      reads this
    {
      cap > 0 && length <= cap
    }

    /** `new(capacity)`: empty, with the requested capacity. */
    constructor (capacity: nat)
      ensures buf == [] && cap == capacity && length == 0
      ensures Valid() && Values() == []
      ensures capacity > 0 ==> WithinCapacity()
    {
      buf := [];
      cap := capacity;
      length := 0;
    }

    /** `resize()`: doubles `cap`. The `Vec` reservation has no visible effect. */
    method Resize()
      modifies this
      ensures cap == 2 * old(cap)
      ensures buf == old(buf) && length == old(length)
    {
      cap := cap * 2;
    }

    /** `add(element)`: resizes when `length == cap`, then pushes `Some(element)` and counts it.
        A positive capacity keeps up with `length`; a zero capacity stays zero. */
    method Add(element: U64)
      modifies this
      ensures buf == old(buf) + [Some(element)]
      ensures length == old(length) + 1
      ensures cap == if old(length) == old(cap) then 2 * old(cap) else old(cap)
      ensures old(Valid()) ==> Valid() && Values() == old(Values()) + [element]
      ensures old(WithinCapacity()) ==> WithinCapacity()
      ensures old(cap) == 0 ==> cap == 0
    {
      if length == cap {
        Resize();
      }
      buf := buf + [Some(element)];
      length := length + 1;
    }

    /** `remove()`: `None` when `length == 0`. Otherwise it uncounts the last slot and pops it; `cap`
        never shrinks. */
    method Remove() returns (r: Option<U64>)
      modifies this
      ensures cap == old(cap)
      ensures old(length) == 0 ==> r == None && buf == old(buf) && length == 0
      ensures old(length) > 0 ==> length == old(length) - 1
      ensures old(Valid()) && old(length) > 0 ==>
        buf == old(buf)[..old(length) - 1] && r == Some(old(Values())[old(length) - 1])
      ensures old(Valid()) ==> Valid() && Values() == old(Values())[..length]
      ensures old(WithinCapacity()) && length > 0 ==> WithinCapacity()
    {
      if length == 0 {
        r := None;
      } else {
        length := length - 1;
        // `pop().flatten()`: nothing for an empty `Vec`, else the popped slot.
        if |buf| == 0 {
          r := None;
        } else {
          r := buf[|buf| - 1];
          buf := buf[..|buf| - 1];
        }
      }
    }

    /** `get(index)`: the value at `index` while it is stored, otherwise `None`. */
    function Get(index: nat): (r: Option<U64>)
      reads this
      requires Valid()
      ensures index < length <==> r.Some?
      ensures r.Some? ==> r.value == Values()[index]
    {
      if index < length then buf[index] else None
    }
  }

  /** `remove` undoes `add`: it returns the element just added and leaves the contents as they were. */
  method AddThenRemove(a: DynamicArray, element: U64) returns (r: Option<U64>)
    requires a.Valid()
    modifies a
    ensures r == Some(element)
    ensures a.buf == old(a.buf) && a.length == old(a.length)
  {
    a.Add(element);
    r := a.Remove();
  }

  /** `main`: `new(2)` and adding 3, 4 and 5 gives length 3 and `get(1) == Some(4)`; `remove()` gives
      `Some(5)` and leaves length 2. The third add doubles the capacity to 4. */
  method MainExample() returns (len1: nat, at1: Option<U64>, removed: Option<U64>, len2: nat, cap: nat)
    ensures len1 == 3 && at1 == Some(4) && removed == Some(5) && len2 == 2 && cap == 4
  {
    var numbers := new DynamicArray(2);
    numbers.Add(3);
    numbers.Add(4);
    numbers.Add(5);
    len1 := numbers.length;
    at1 := numbers.Get(1);
    removed := numbers.Remove();
    len2 := numbers.length;
    cap := numbers.cap;
  }
}
