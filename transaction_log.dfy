/**
 * linked-list/src/main.rs: `TransactionLog`, a singly linked first-in
 * first-out log of strings with a `length` counter. The chain of
 * `Rc<RefCell<Node>>` links is modelled as the sequence of values met when
 * following `next` from `head`. `head` is its first value and `tail` its last.
 */
module TransactionLogs {
  import opened Wrappers

  class TransactionLog {
    /** The values of the nodes reachable from `head`, in link order. */
    var chain: seq<string>
    /** The value of the node `head` links to, if any. */
    var head: Option<string>
    /** The value of the node `tail` links to, if any. */
    var tail: Option<string>
    var length: nat

    /** `length` counts the nodes reachable from `head`; `head` is the first of them and `tail` the
        last. */
    ghost predicate Valid()
      reads this
    {
      && length == |chain|
      && head == (if chain == [] then None else Some(chain[0]))
      && tail == (if chain == [] then None else Some(chain[|chain| - 1]))
    }

    /** `new_empty()`: no head, no tail, `length == 0`. */
    constructor NewEmpty()
      ensures chain == [] && head == None && tail == None && length == 0
      ensures Valid()
    {
      chain := [];
      head := None;
      tail := None;
      length := 0;
    }

    /** `append(value)`: links a new node after the tail, or makes it the head of an empty log. It
        becomes the tail and is counted. */
    method Append(value: string)
      requires Valid()
      modifies this
      ensures Valid()
      ensures chain == old(chain) + [value]
      ensures length == old(length) + 1
      ensures tail == Some(value)
      ensures head == if old(chain) == [] then Some(value) else old(head)
    {
      // `tail.take()`: an old tail gets the new node as `next`; without one it becomes the head.
      if tail == None {
        head := Some(value);
      }
      chain := chain + [value];
      length := length + 1;
      tail := Some(value);
    }

    /** `pop()`: on an empty log `None`, and nothing changes. Otherwise the head node is unlinked and
        its value returned; the tail goes too when it was the only node. */
    method Pop() returns (r: Option<string>)
      requires Valid()
      modifies this
      ensures Valid()
      ensures r == old(head)
      ensures old(chain) == [] ==> chain == [] && head == None && tail == None && length == 0
      ensures old(chain) != [] ==> chain == old(chain)[1..] && length == old(length) - 1
      ensures chain == [] ==> tail == None
    {
      match head
      case None =>
        r := None;
      case Some(value) =>
        if |chain| > 1 {
          head := Some(chain[1]);
        } else {
          head := None;
          tail := None;
        }
        length := length - 1;
        chain := chain[1..];
        r := Some(value);
    }

    /** `peek()`: the oldest value, without changing the log. */
    function Peek(): (r: Option<string>)
      reads this
      requires Valid()
      ensures r.None? <==> chain == []
      ensures r.Some? ==> r.value == chain[0]
    {
      match head
      case None => None
      case Some(value) => Some(value)
    }

    /** `get_all()`: walks the links from `head` and collects every value, oldest first. */
    method GetAll() returns (result: seq<string>)
      ensures result == chain
    {
      result := [];
      var current := 0;
      while current < |chain|
        invariant 0 <= current <= |chain|
        invariant result == chain[..current]
      {
        result := result + [chain[current]];
        current := current + 1;
      }
    }
  }

  /** `main`: three appends, then a pop. `get_all` lists the log in append order before and after;
      `peek` then shows "World" and `length` is 2. */
  method MainExample() returns (before: seq<string>, after: seq<string>, value: Option<string>, len: nat)
    ensures before == ["Hello", "World", "Rust"]
    ensures after == ["World", "Rust"]
    ensures value == Some("World") && len == 2
  {
    var log := new TransactionLog.NewEmpty();
    log.Append("Hello");
    log.Append("World");
    log.Append("Rust");
    before := log.GetAll();
    var _ := log.Pop();
    after := log.GetAll();
    value := log.Peek();
    len := log.length;
  }
}
