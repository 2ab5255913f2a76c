/**
 * testing/src/linked_list.rs: `List<T>`, a generic singly linked first-in
 * first-out list with `head`, `tail` and a `length` counter, and the tests in
 * testing/src/lib.rs. The `Rc<RefCell<Node<T>>>` chain is modelled as the
 * sequence of values from `head` to `tail`.
 */
module TestingList {
  import opened Wrappers

  class List<T> {
    /** The values from `head` along the `next` links to `tail`. */
    var nodes: seq<T>
    /** The value of the node `head` links to, if any. */
    var head: Option<T>
    /** The value of the node `tail` links to, if any. */
    var tail: Option<T>
    var length: nat

    /** `length` counts the nodes, `head` is the first and `tail` the last. */
    ghost predicate Valid()
      reads this
    {
      && length == |nodes|
      && head == (if nodes == [] then None else Some(nodes[0]))
      && tail == (if nodes == [] then None else Some(nodes[|nodes| - 1]))
    }

    /** `new_empty()`. */
    constructor NewEmpty()
      ensures nodes == [] && head == None && tail == None && length == 0
      ensures Valid()
    {
      nodes := [];
      head := None;
      tail := None;
      length := 0;
    }

    /** `append(value)`: the new node goes after the tail, or becomes the head of an empty list. It is
        the new tail and is counted. */
    method Append(value: T)
      requires Valid()
      modifies this
      ensures Valid()
      ensures nodes == old(nodes) + [value]
      ensures length == old(length) + 1
      ensures tail == Some(value)
      ensures head == if old(head) == None then Some(value) else old(head)
    {
      // With a tail the new node is linked after it; without one it becomes the head.
      if tail == None {
        head := Some(value);
      }
      nodes := nodes + [value];
      length := length + 1;
      tail := Some(value);
    }

    /** `pop()`: unlinks the head and returns its value, or `None` on an empty list. The next node
        becomes the head; when there is none, `tail` is cleared too. */
    method Pop() returns (r: Option<T>)
      requires Valid()
      modifies this
      ensures Valid()
      ensures r == old(head)
      ensures old(nodes) == [] ==> nodes == [] && length == 0
      ensures old(nodes) != [] ==> nodes == old(nodes)[1..] && length == old(length) - 1
      ensures head == None <==> tail == None
      ensures head == None <==> length == 0
    {
      match head
      case None =>
        r := None;
      case Some(first) =>
        if |nodes| > 1 {
          head := Some(nodes[1]);
        } else {
          head := None;
          tail := None;
        }
        length := length - 1;
        nodes := nodes[1..];
        r := Some(first);
    }
  }

  /** `test_list_new_empty`: a new list has length 0 and pops `None`. */
  method NewEmptyPopsNothing() returns (len: nat, popped: Option<int>)
    ensures len == 0 && popped == None
  {
    var list := new List<int>.NewEmpty();
    len := list.length;
    popped := list.Pop();
  }

  /** `test_list_append`: five appends give length 5. */
  method FiveAppends() returns (len: nat)
    ensures len == 5
  {
    var list := new List<int>.NewEmpty();
    list.Append(1);
    list.Append(1);
    list.Append(1);
    list.Append(1);
    list.Append(1);
    len := list.length;
  }

  /** `test_list_pop`, for any list: `length` pops return the values in append order, leave length 0,
      and the next pop is `None`. */
  method PopAll<T>(list: List<T>) returns (popped: seq<T>, next: Option<T>)
    requires list.Valid()
    modifies list
    ensures popped == old(list.nodes)
    ensures list.length == 0 && list.head == None && list.tail == None
    ensures next == None
  {
    popped := [];
    var n := list.length;
    var k := 0;
    while k < n
      invariant 0 <= k <= n == |old(list.nodes)|
      invariant list.Valid()
      invariant popped == old(list.nodes)[..k]
      invariant list.nodes == old(list.nodes)[k..]
    {
      var r := list.Pop();
      popped := popped + [r.value];
      k := k + 1;
    }
    next := list.Pop();
  }

  /** `test_list_pop` with values that tell the nodes apart: 1, 2, 3 come back as 1, 2, 3. */
  method FirstInFirstOut() returns (p1: Option<int>, p2: Option<int>, p3: Option<int>, p4: Option<int>, len: nat)
    ensures p1 == Some(1) && p2 == Some(2) && p3 == Some(3) && p4 == None && len == 0
  {
    var list := new List<int>.NewEmpty();
    list.Append(1);
    list.Append(2);
    list.Append(3);
    p1 := list.Pop();
    p2 := list.Pop();
    p3 := list.Pop();
    p4 := list.Pop();
    len := list.length;
  }
}
