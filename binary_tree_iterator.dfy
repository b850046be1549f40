/**
 * binary_tree_iterator.c: an in-order (or reverse in-order) walk over a
 * tree that keeps the nodes still to be visited on an explicit stack held
 * in a Buffer. The walk is over the tree as it was when the iterator was
 * made: the stack holds the subtrees themselves.
 */
module BinaryTreeIterator {
  import opened Wrappers
  import opened Comparator
  import opened TreeNodes
  import BT = BinaryTree
  import B = Buffer

  /** `sizeof(struct binary_tree_node *)`: the stack's item size. */
  const PointerSize: nat := 8

  /** The payloads right subtree first: the order of a reverse walk. */
  function RevInOrder(t: Tree): seq<Bytes>
  {
    if t.Nil? then [] else RevInOrder(t.right) + [t.data] + RevInOrder(t.left)
  }

  function Reverse(s: seq<Bytes>): (r: seq<Bytes>)
    ensures |r| == |s|
  {
    if s == [] then [] else Reverse(s[1..]) + [s[0]]
  }

  lemma {:induction false} ReverseConcat(a: seq<Bytes>, b: seq<Bytes>)
    ensures Reverse(a + b) == Reverse(b) + Reverse(a)
  {
    if a == [] {
      assert a + b == b;
    } else {
      assert (a + b)[0] == a[0] && (a + b)[1..] == a[1..] + b;
      ReverseConcat(a[1..], b);
    }
  }

  /** A reverse walk visits the payloads in exactly the opposite order of a forward one. */
  lemma {:induction false} RevInOrderIsReverse(t: Tree)
    ensures RevInOrder(t) == Reverse(InOrder(t))
  {
    if t.Node? {
      RevInOrderIsReverse(t.left);
      RevInOrderIsReverse(t.right);
      ReverseConcat(InOrder(t.left) + [t.data], InOrder(t.right));
      ReverseConcat(InOrder(t.left), [t.data]);
    }
  }

  /** The order a walk in the given direction visits t's payloads in. */
  function Order(t: Tree, reverse: bool): seq<Bytes>
  {
    if reverse then RevInOrder(t) else InOrder(t)
  }

  /**
   * What a stack of entered nodes still has to yield, top (last) first: each
   * node, then the subtree next_node enters after it (children[1] forward,
   * children[0] in reverse).
   */
  function Pending(stack: seq<Tree>, reverse: bool): seq<Bytes>
  {
    if stack == [] then []
    else
      var n := stack[|stack| - 1];
      (if n.Node? then [n.data] + Order(Child(n, !reverse), reverse) else []) + Pending(stack[..|stack| - 1], reverse)
  }

  lemma PendingPush(stack: seq<Tree>, n: Tree, reverse: bool)
    requires n.Node?
    ensures Pending(stack + [n], reverse) == [n.data] + Order(Child(n, !reverse), reverse) + Pending(stack, reverse)
  {
    assert (stack + [n])[..|stack|] == stack;
  }

  /** A node's walk: what enter pushes under it, the node, then what next_node enters. */
  lemma OrderNode(n: Tree, reverse: bool)
    requires n.Node?
    ensures Order(n, reverse) == Order(Child(n, reverse), reverse) + [n.data] + Order(Child(n, !reverse), reverse)
  {
  }

  /** One step of enter: pushing a node and moving to its child leaves the total walk unchanged. */
  lemma EnterStep(stack: seq<Tree>, n: Tree, reverse: bool)
    requires n.Node?
    ensures Order(Child(n, reverse), reverse) + Pending(stack + [n], reverse) == Order(n, reverse) + Pending(stack, reverse)
  {
    PendingPush(stack, n, reverse);
    OrderNode(n, reverse);
    var a, b, c, p := Order(Child(n, reverse), reverse), [n.data], Order(Child(n, !reverse), reverse), Pending(stack, reverse);
    Assoc(a + b, c, p);
    Assoc(a, b, c + p);
    Assoc(b, c, p);
  }

  /** A stack of nodes has nothing pending only when it is empty. */
  lemma PendingEmpty(stack: seq<Tree>, reverse: bool)
    requires forall n | n in stack :: n.Node?
    ensures Pending(stack, reverse) == [] <==> stack == []
  {
  }

  /** struct binary_tree_iterator */
  class Iterator {
    const stack: B.Buffer<Tree>
    const reverse: bool
    ghost var Repr: set<object>

    ghost predicate Valid()
      reads this, Repr
    {
      && this in Repr && stack in Repr && stack.Repr <= Repr && this !in stack.Repr
      && Repr == {this} + stack.Repr
      && stack.Valid()
      && stack.itemSize == PointerSize && stack.allocby == 64
      && (forall n | n in stack.Contents() :: n.Node?)
    }

    /** The payloads the iterator has still to yield, next first. */
    ghost function Remaining(): seq<Bytes>
      reads this, Repr
      requires Valid()
    {
      Pending(stack.Contents(), reverse)
    }

    /** binary_tree_iter_init: a stack of room 64, growing by 64, and the root entered. */
    constructor (tree: BT.BinaryTree, reverse: bool)
      ensures Valid() && fresh(Repr)
      ensures this.reverse == reverse
      ensures Remaining() == Order(tree.root, reverse)
    {
      this.reverse := reverse;
      stack := new B.Buffer<Tree>(PointerSize, 64, 64);
      new;
      Repr := {this} + stack.Repr;
      Enter(tree.root);
    }

    /** buffer_push of one node pointer onto the stack. */
    method PushNode(n: Tree)
      requires Valid() && n.Node?
      modifies Repr
      ensures Valid() && fresh(Repr - old(Repr))
      ensures stack.Contents() == old(stack.Contents()) + [n]
    {
      var _ := stack.Push(Some(n));
      Repr := {this} + stack.Repr;
    }

    /** enter: push the node and its chain of children[0] (children[1] in reverse). */
    method Enter(node: Tree)
      requires Valid()
      modifies Repr
      ensures Valid() && fresh(Repr - old(Repr))
      ensures Remaining() == Order(node, reverse) + old(Remaining())
    {
      var n := node;
      while n.Node?
        invariant Valid() && fresh(Repr - old(Repr))
        invariant Order(n, reverse) + Remaining() == Order(node, reverse) + old(Remaining())
        decreases n
      {
        ghost var s := stack.Contents();
        PushNode(n);
        EnterStep(s, n, reverse);
        n := Child(n, reverse);
      }
    }

    /**
     * binary_tree_iter_next_node: pop the next node, enter the subtree that
     * follows it, and return it; NULL (Nil) when the walk is over.
     */
    method NextNode() returns (node: Tree)
      requires Valid()
      modifies Repr
      ensures Valid() && fresh(Repr - old(Repr))
      ensures old(Remaining()) == [] ==> node.Nil? && Remaining() == []
      ensures old(Remaining()) != [] ==> node.Node? && old(Remaining()) == [node.data] + Remaining()
    {
      PendingEmpty(stack.Contents(), reverse);
      ghost var s := stack.Contents();
      var top := stack.Pop();
      Repr := {this} + stack.Repr;
      if top.None? {
        return Nil;
      }
      node := top.value;
      ghost var below := s[..|s| - 1];
      assert s == below + [node];
      PendingPush(below, node, reverse);
      Assoc([node.data], Order(Child(node, !reverse), reverse), Pending(below, reverse));
      assert Remaining() == Pending(below, reverse);
      Enter(Child(node, !reverse));
    }

    /** binary_tree_iter_next: the next payload and its length; NULL when the walk is over. */
    method Next() returns (data: Option<Bytes>, length: nat)
      requires Valid()
      modifies Repr
      ensures Valid() && fresh(Repr - old(Repr))
      ensures data.None? <==> old(Remaining()) == []
      ensures data.None? ==> Remaining() == [] && length == 0
      ensures data.Some? ==> old(Remaining()) == [data.value] + Remaining() && length == |data.value|
    {
      var node := NextNode();
      if node.Nil? {
        return None, 0;
      }
      return Some(node.data), |node.data|;
    }
  }

  /**
   * The walk the iterator test drives: make an iterator and call next until
   * it returns NULL. Forward it yields the in-order sequence, in reverse
   * that sequence backwards; on a valid tree, forward is strictly increasing.
   */
  method Walk(tree: BT.BinaryTree, reverse: bool) returns (s: seq<Bytes>)
    ensures s == if reverse then Reverse(InOrder(tree.root)) else InOrder(tree.root)
    ensures tree.Valid() && !reverse ==> Sorted(tree.compare, s)
  {
    var it := new Iterator(tree, reverse);
    s := Drain(it);
    RevInOrderIsReverse(tree.root);
  }

  /** The loop of the walk: call next until it returns NULL, collecting the payloads. */
  method Drain(it: Iterator) returns (s: seq<Bytes>)
    requires it.Valid()
    modifies it.Repr
    ensures s == old(it.Remaining())
  {
    s := [];
    while true
      invariant it.Valid() && fresh(it.Repr - old(it.Repr))
      invariant s + it.Remaining() == old(it.Remaining())
      decreases |it.Remaining()|
    {
      var d, _ := it.Next();
      if d.None? {
        break;
      }
      Assoc(s, [d.value], it.Remaining());
      s := s + [d.value];
    }
  }
}
