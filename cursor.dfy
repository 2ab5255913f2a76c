/**
 * doubly-linked-list/src/main.rs: `ListIterator`, a cursor over doubly linked
 * string nodes. `next` and `next_back` return the value of the current node
 * and move the cursor along that node's `next` or `prev` link. Nodes are
 * objects with value and link fields. The iterator's only state is its
 * `current` field, and neither operation may change a node.
 */
module Cursor {
  import opened Wrappers

  /** `Node`: a value with optional links to the following and the preceding node. */
  class Node {
    var value: string
    var next: Node?
    var prev: Node?

    constructor (value: string)
      ensures this.value == value && next == null && prev == null
    {
      this.value := value;
      next := null;
      prev := null;
    }
  }

  class ListIterator {
    var current: Node?

    /** `ListIterator::new(start_at)`: the cursor starts at `start_at`. */
    constructor New(startAt: Node?)
      ensures current == startAt
    {
      current := startAt;
    }

    /** `next()`: `None` on an empty cursor, which stays empty. Otherwise the value of the current node,
        and the cursor moves to its `next` link. */
    method Next() returns (result: Option<string>)
      modifies this
      ensures old(current) == null ==> result == None && current == null
      ensures old(current) != null ==> result == Some(old(current.value)) && current == old(current.next)
    {
      result := None;
      if current != null {
        result := Some(current.value);
        current := current.next;
      }
    }

    /** `next_back()`: as `next`, but the cursor moves to the `prev` link of the current node. It walks
        back from wherever the cursor is, not from the end of the list. */
    method NextBack() returns (result: Option<string>)
      modifies this
      ensures old(current) == null ==> result == None && current == null
      ensures old(current) != null ==> result == Some(old(current.value)) && current == old(current.prev)
    {
      result := None;
      if current != null {
        result := Some(current.value);
        current := current.prev;
      }
    }
  }

  /** Three linked nodes "a", "b", "c". Going forward from "a" yields all three and then `None`. Going
      back from "b" yields "b", "a" and `None`, so `next_back` retraces from the cursor and never
      reaches "c". The nodes are left as they were built. */
  method WalkBothWays() returns (forward: seq<Option<string>>, backward: seq<Option<string>>)
    ensures forward == [Some("a"), Some("b"), Some("c"), None]
    ensures backward == [Some("b"), Some("a"), None]
  {
    var a := new Node("a");
    var b := new Node("b");
    var c := new Node("c");
    a.next := b;
    b.prev := a;
    b.next := c;
    c.prev := b;

    var it := new ListIterator.New(a);
    var v1 := it.Next();
    var v2 := it.Next();
    var v3 := it.Next();
    var v4 := it.Next();
    forward := [v1, v2, v3, v4];

    var back := new ListIterator.New(b);
    var w1 := back.NextBack();
    var w2 := back.NextBack();
    var w3 := back.NextBack();
    backward := [w1, w2, w3];
  }
}
