/**
 * binary-search-tree/src/main.rs: an unbalanced binary search tree of `u64`
 * values with a node count. Smaller values go left, equal and larger values
 * right. `BinarySearchTree` is a class whose `add` updates its `root` and
 * `length` fields. The `Option<Box<Node>>` links are the datatype `Tree`, and
 * the in-place `&mut` descent of `add_node` is a function returning the
 * relinked tree.
 */
module Bst {
  import opened Wrappers

  /** `Tree = Option<Box<Node>>`: `Nil` is `None`. */
  datatype Tree = Nil | Node(value: nat, left: Tree, right: Tree)

  /** The values stored in a tree, with repetitions. */
  function Elements(t: Tree): multiset<nat>
  {
    match t
    case Nil => multiset{}
    case Node(v, l, r) => Elements(l) + multiset{v} + Elements(r)
  }

  /** Every value in `t` is below `bound`. */
  predicate AllBelow(t: Tree, bound: nat)
  {
    match t
    case Nil => true
    case Node(v, l, r) => v < bound && AllBelow(l, bound) && AllBelow(r, bound)
  }

  /** Every value in `t` is at least `bound`. */
  predicate AllAtLeast(t: Tree, bound: nat)
  {
    match t
    case Nil => true
    case Node(v, l, r) => v >= bound && AllAtLeast(l, bound) && AllAtLeast(r, bound)
  }

  /** The ordering `add_node` maintains: left subtree below the node, right subtree at or above it. */
  predicate IsBst(t: Tree)
  {
    match t
    case Nil => true
    case Node(v, l, r) => IsBst(l) && IsBst(r) && AllBelow(l, v) && AllAtLeast(r, v)
  }

  /** The bounds speak about the stored values. */
  lemma {:induction false} BoundsAreAboutElements(t: Tree, bound: nat)
    ensures AllBelow(t, bound) <==> forall x | x in Elements(t) :: x < bound
    ensures AllAtLeast(t, bound) <==> forall x | x in Elements(t) :: x >= bound
    decreases t
  {
    match t
    case Nil =>
    case Node(v, l, r) =>
      BoundsAreAboutElements(l, bound);
      BoundsAreAboutElements(r, bound);
      assert forall x :: x in Elements(t) <==> x in Elements(l) || x == v || x in Elements(r);
  }

  /** `add_node(node, new_node)`: descend left when the new value is smaller, otherwise right, and hang
      the new leaf on the first empty link. */
  function AddNode(node: Tree, value: nat): (r: Tree)
    requires node.Node?
    ensures r.Node? && r.value == node.value
    ensures Elements(r) == Elements(node) + multiset{value}
    decreases node
  {
    var leaf := Node(value, Nil, Nil);
    if value < node.value then
      var l := match node.left
        case Nil => leaf
        case Node(_, _, _) => AddNode(node.left, value);
      LeftGrown(node, l, value);
      node.(left := l)
    else
      var r := match node.right
        case Nil => leaf
        case Node(_, _, _) => AddNode(node.right, value);
      RightGrown(node, r, value);
      node.(right := r)
  }

  /** A left subtree that gained `value` gives a tree that gained it. */
  lemma LeftGrown(node: Tree, l: Tree, value: nat)
    requires node.Node? && Elements(l) == Elements(node.left) + multiset{value}
    ensures Elements(node.(left := l)) == Elements(node) + multiset{value}
  {
  }

  /** The same for the right subtree. */
  lemma RightGrown(node: Tree, r: Tree, value: nat)
    requires node.Node? && Elements(r) == Elements(node.right) + multiset{value}
    ensures Elements(node.(right := r)) == Elements(node) + multiset{value}
  {
  }

  /** The tree after `add(value)`: a single leaf under an empty root, else `add_node` from the root. */
  function Inserted(root: Tree, value: nat): (r: Tree)
    ensures Elements(r) == Elements(root) + multiset{value}
  {
    match root
    case Nil => Node(value, Nil, Nil)
    case Node(_, _, _) => AddNode(root, value)
  }

  /** `add_node` keeps a bound exactly when the new value meets it. */
  lemma {:induction false} AddNodeBounds(node: Tree, value: nat, bound: nat)
    requires node.Node?
    ensures AllBelow(AddNode(node, value), bound) <==> AllBelow(node, bound) && value < bound
    ensures AllAtLeast(AddNode(node, value), bound) <==> AllAtLeast(node, bound) && value >= bound
    decreases node
  {
    if value < node.value {
      if node.left.Node? {
        AddNodeBounds(node.left, value, bound);
      }
    } else {
      if node.right.Node? {
        AddNodeBounds(node.right, value, bound);
      }
    }
  }

  /** `add_node` keeps the ordering. */
  lemma {:induction false} AddNodeKeepsBst(node: Tree, value: nat)
    requires node.Node? && IsBst(node)
    ensures IsBst(AddNode(node, value))
    decreases node
  {
    if value < node.value {
      if node.left.Node? {
        AddNodeKeepsBst(node.left, value);
        AddNodeBounds(node.left, value, node.value);
      }
    } else {
      if node.right.Node? {
        AddNodeKeepsBst(node.right, value);
        AddNodeBounds(node.right, value, node.value);
      }
    }
  }

  lemma InsertedKeepsBst(root: Tree, value: nat)
    requires IsBst(root)
    ensures IsBst(Inserted(root, value))
  {
    if root.Node? {
      AddNodeKeepsBst(root, value);
    }
  }

  /** `find_node(node, value)`, extended to an empty link. */
  function FindNode(t: Tree, value: nat): bool
    decreases t
  {
    match t
    case Nil => false
    case Node(v, l, r) =>
      if value == v then true
      else if value < v then FindNode(l, value)
      else FindNode(r, value)
  }

  /** Under the ordering, `find` answers membership exactly. */
  lemma {:induction false} FindNodeIsMembership(t: Tree, value: nat)
    requires IsBst(t)
    ensures FindNode(t, value) <==> value in Elements(t)
    decreases t
  {
    match t
    case Nil =>
    case Node(v, l, r) =>
      FindNodeIsMembership(l, value);
      FindNodeIsMembership(r, value);
      BoundsAreAboutElements(l, v);
      BoundsAreAboutElements(r, v);
  }

  /** A found value is always stored, ordered or not. */
  lemma {:induction false} FindNodeSound(t: Tree, value: nat)
    ensures FindNode(t, value) ==> value in Elements(t)
    decreases t
  {
    match t
    case Nil =>
    case Node(v, l, r) =>
      FindNodeSound(l, value);
      FindNodeSound(r, value);
  }

  /** After `add(v)`, `find(v)` holds, for any tree: `find` retraces the path `add` took. */
  lemma {:induction false} FindAfterAddNode(node: Tree, value: nat)
    requires node.Node?
    ensures FindNode(AddNode(node, value), value)
    decreases node
  {
    if value < node.value {
      if node.left.Node? {
        FindAfterAddNode(node.left, value);
      }
    } else if value != node.value {
      if node.right.Node? {
        FindAfterAddNode(node.right, value);
      }
    }
  }

  /** `find_right_node(node, value)`, extended to an empty link: the value of the right child of the first
      node on the search path that holds `value`. */
  function FindRightNode(t: Tree, value: nat): Option<nat>
    decreases t
  {
    match t
    case Nil => None
    case Node(v, l, r) =>
      if value == v then (if r.Nil? then None else Some(r.value))
      else if value < v then FindRightNode(l, value)
      else FindRightNode(r, value)
  }

  /** The subtree rooted at the first node on the search path for `value` that holds it. */
  function FoundSubtree(t: Tree, value: nat): (r: Option<Tree>)
    ensures r.Some? ==> r.value.Node? && r.value.value == value
    decreases t
  {
    match t
    case Nil => None
    case Node(v, l, r) =>
      if value == v then Some(t)
      else if value < v then FoundSubtree(l, value)
      else FoundSubtree(r, value)
  }

  /** `find_right` is the right child of the node `find` stops at, and nothing when `find` fails or
      that node has no right child. */
  lemma {:induction false} FindRightIsRightChild(t: Tree, value: nat)
    ensures FindNode(t, value) <==> FoundSubtree(t, value).Some?
    ensures FindRightNode(t, value) ==
      (match FoundSubtree(t, value)
       case None => None
       case Some(n) => if n.right.Nil? then None else Some(n.right.value))
    decreases t
  {
    match t
    case Nil =>
    case Node(v, l, r) =>
      FindRightIsRightChild(l, value);
      FindRightIsRightChild(r, value);
  }

  /** In an ordered tree the value `find_right` returns is stored and is at least `value`. */
  lemma {:induction false} FindRightAtLeast(t: Tree, value: nat)
    requires IsBst(t)
    ensures FindRightNode(t, value).Some? ==>
      FindRightNode(t, value).value >= value && FindRightNode(t, value).value in Elements(t)
    decreases t
  {
    match t
    case Nil =>
    case Node(v, l, r) =>
      if value == v {
        if r.Node? {
          assert r.value in Elements(r);
          BoundsAreAboutElements(r, v);
        }
      } else {
        FindRightAtLeast(l, value);
        FindRightAtLeast(r, value);
        BoundsAreAboutElements(l, v);
        BoundsAreAboutElements(r, v);
      }
  }

  /** `BinarySearchTree`. */
  class BinarySearchTree {
    var root: Tree
    var length: nat

    /** The ordering holds and `length` counts the stored values. */
    ghost predicate Valid()
      reads this
    {
      IsBst(root) && length == |Elements(root)|
    }

    /** `new()`: no root and `length == 0`. */
    constructor ()
      ensures root == Nil && length == 0
      ensures Valid()
    {
      root := Nil;
      length := 0;
    }

    /** `add(value)`: `length` goes up by one, duplicates included, and the value is hung on the tree. */
    method Add(value: nat)
      modifies this
      ensures length == old(length) + 1
      ensures root == Inserted(old(root), value)
      ensures IsBst(old(root)) ==> IsBst(root)
      ensures old(Valid()) ==> Valid()
    {
      if IsBst(root) {
        InsertedKeepsBst(root, value);
      }
      length := length + 1;
      var newNode := Node(value, Nil, Nil);
      match root
      case Nil =>
        root := newNode;
      case Node(_, _, _) =>
        root := AddNode(root, value);
    }

    /** `find(value)`: `false` on an empty tree; under the ordering, whether `value` is stored. */
    function Find(value: nat): (found: bool)
      reads this
      ensures root == Nil ==> !found
      ensures IsBst(root) ==> (found <==> value in Elements(root))
    {
      FindNodeIsMembershipIfBst(root, value);
      FindNode(root, value)
    }

    /** `find_right(value)`. */
    function FindRight(value: nat): (r: Option<nat>)
      reads this
      ensures root == Nil ==> r == None
      ensures r.Some? ==> Find(value)
    {
      FindRightIsRightChild(root, value);
      FindRightNode(root, value)
    }
  }

  lemma FindNodeIsMembershipIfBst(t: Tree, value: nat)
    ensures IsBst(t) ==> (FindNode(t, value) <==> value in Elements(t))
  {
    if IsBst(t) {
      FindNodeIsMembership(t, value);
    }
  }

  /** The tree `main` builds by adding 5, 3 and 7. `find(9)` is false, not true as its comment says.
      `find_right(3)` is `None`, not `Some(5)`: the node holding 3 has no right child, and
      `find_right` does not look for the in-order successor. */
  lemma MainExample()
    ensures var t := Inserted(Inserted(Inserted(Nil, 5), 3), 7);
      && t == Node(5, Node(3, Nil, Nil), Node(7, Nil, Nil))
      && FindNode(t, 3) && !FindNode(t, 9)
      && FindRightNode(t, 3) == None && FindRightNode(t, 5) == Some(7)
  {
  }
}
