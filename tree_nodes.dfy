/**
 * The node graph of binary_tree.c as a value: a node owns its two children
 * and its payload bytes. A slot (a `struct binary_tree_node **`) is the path
 * of child links from the tree's root link to it.
 */
module TreeNodes {
  import opened Comparator

  /** `struct binary_tree_node`: children[0], the payload, children[1]; Nil is a NULL link. */
  datatype Tree = Nil | Node(left: Tree, data: Bytes, right: Tree)

  /** A slot: follow children[0] for `false`, children[1] for `true`, starting at the root link. */
  type Path = seq<bool>

  function Child(t: Tree, dir: bool): Tree
    requires t.Node?
  {
    if dir then t.right else t.left
  }

  function WithChild(t: Tree, dir: bool, x: Tree): Tree
    requires t.Node?
  {
    if dir then Node(t.left, t.data, x) else Node(x, t.data, t.right)
  }

  /** Every link on the way to the slot, except the slot itself, holds a node. */
  predicate IsSlot(t: Tree, p: Path)
  {
    p == [] || (t.Node? && IsSlot(Child(t, p[0]), p[1..]))
  }

  /** `*slot`: the subtree the slot holds. */
  function At(t: Tree, p: Path): Tree
    requires IsSlot(t, p)
  {
    if p == [] then t else At(Child(t, p[0]), p[1..])
  }

  /** `*slot = x`: the tree with the slot's link rewritten. */
  function SetAt(t: Tree, p: Path, x: Tree): Tree
    requires IsSlot(t, p)
  {
    if p == [] then x else WithChild(t, p[0], SetAt(Child(t, p[0]), p[1..], x))
  }

  /** The payloads in in-order: left subtree, the node, right subtree. */
  function InOrder(t: Tree): seq<Bytes>
  {
    if t.Nil? then [] else InOrder(t.left) + [t.data] + InOrder(t.right)
  }

  /** The payloads in post-order: the order in which prune destroys nodes. */
  function PostOrder(t: Tree): seq<Bytes>
  {
    if t.Nil? then [] else PostOrder(t.left) + PostOrder(t.right) + [t.data]
  }

  /** The number of nodes. */
  function Count(t: Tree): nat
  {
    if t.Nil? then 0 else Count(t.left) + 1 + Count(t.right)
  }

  /** How many of a node's two child links are non-NULL. */
  function ChildCount(t: Tree): nat
    requires t.Node?
  {
    (if t.left.Node? then 1 else 0) + (if t.right.Node? then 1 else 0)
  }

  lemma {:induction false} CountIsLength(t: Tree)
    ensures Count(t) == |InOrder(t)|
  {
    if t.Node? {
      CountIsLength(t.left);
      CountIsLength(t.right);
    }
  }

  /** Destruction in post-order reaches every node exactly once. */
  lemma {:induction false} PostOrderPermutesInOrder(t: Tree)
    ensures multiset(PostOrder(t)) == multiset(InOrder(t))
  {
    if t.Node? {
      PostOrderPermutesInOrder(t.left);
      PostOrderPermutesInOrder(t.right);
    }
  }

  // ---------------------------------------------------------------------
  // Slots
  // ---------------------------------------------------------------------

  /** The payloads that come before, and after, everything the slot holds. */
  function Before(t: Tree, p: Path): seq<Bytes>
    requires IsSlot(t, p)
  {
    if p == [] then []
    else if p[0] then InOrder(t.left) + [t.data] + Before(t.right, p[1..])
    else Before(t.left, p[1..])
  }

  function After(t: Tree, p: Path): seq<Bytes>
    requires IsSlot(t, p)
  {
    if p == [] then []
    else if p[0] then After(t.right, p[1..])
    else After(t.left, p[1..]) + [t.data] + InOrder(t.right)
  }

  /** Concatenation regrouped; the tree lemmas below regroup through it rather than element by element. */
  lemma Assoc<T>(a: seq<T>, b: seq<T>, c: seq<T>)
    ensures (a + b) + c == a + (b + c)
  {
  }

  /** Rewriting one slot changes the in-order sequence only between Before and After. */
  lemma {:induction false} InOrderAround(t: Tree, p: Path, x: Tree)
    requires IsSlot(t, p)
    ensures InOrder(SetAt(t, p, x)) == Before(t, p) + InOrder(x) + After(t, p)
  {
    if p != [] {
      var c := Child(t, p[0]);
      InOrderAround(c, p[1..], x);
      var b, m, a := Before(c, p[1..]), InOrder(x), After(c, p[1..]);
      if p[0] {
        var l := InOrder(t.left) + [t.data];
        Assoc(l, b + m, a);
        Assoc(l, b, m);
      } else {
        var r := [t.data] + InOrder(t.right);
        Assoc(b + m + a, [t.data], InOrder(t.right));
        Assoc(b + m, a, r);
        Assoc(a, [t.data], InOrder(t.right));
      }
    }
  }

  lemma {:induction false} SetAtSame(t: Tree, p: Path)
    requires IsSlot(t, p)
    ensures SetAt(t, p, At(t, p)) == t
  {
    if p != [] {
      SetAtSame(Child(t, p[0]), p[1..]);
    }
  }

  /** The tree as seen around one of its slots. */
  lemma InOrderAt(t: Tree, p: Path)
    requires IsSlot(t, p)
    ensures InOrder(t) == Before(t, p) + InOrder(At(t, p)) + After(t, p)
  {
    SetAtSame(t, p);
    InOrderAround(t, p, At(t, p));
  }

  /** After `*slot = x` the slot is still a slot, holds x, and sees the same surroundings. */
  lemma {:induction false} SetAtFacts(t: Tree, p: Path, x: Tree)
    requires IsSlot(t, p)
    ensures IsSlot(SetAt(t, p, x), p) && At(SetAt(t, p, x), p) == x
    ensures Before(SetAt(t, p, x), p) == Before(t, p) && After(SetAt(t, p, x), p) == After(t, p)
  {
    if p != [] {
      SetAtFacts(Child(t, p[0]), p[1..], x);
    }
  }

  lemma {:induction false} SlotConcat(t: Tree, p: Path, q: Path)
    requires IsSlot(t, p)
    ensures IsSlot(t, p + q) <==> IsSlot(At(t, p), q)
    ensures IsSlot(t, p + q) ==> At(t, p + q) == At(At(t, p), q)
  {
    if p == [] {
      assert p + q == q;
    } else {
      assert (p + q)[0] == p[0] && (p + q)[1..] == p[1..] + q;
      SlotConcat(Child(t, p[0]), p[1..], q);
    }
  }

  lemma {:induction false} SetAtConcat(t: Tree, p: Path, q: Path, x: Tree)
    requires IsSlot(t, p) && IsSlot(At(t, p), q)
    ensures IsSlot(t, p + q) && SetAt(t, p + q, x) == SetAt(t, p, SetAt(At(t, p), q, x))
  {
    SlotConcat(t, p, q);
    if p == [] {
      assert p + q == q;
    } else {
      assert (p + q)[0] == p[0] && (p + q)[1..] == p[1..] + q;
      SetAtConcat(Child(t, p[0]), p[1..], q, x);
    }
  }

  /** One step down from a slot that holds a node. */
  lemma SlotStep(t: Tree, p: Path, dir: bool)
    requires IsSlot(t, p) && At(t, p).Node?
    ensures IsSlot(t, p + [dir]) && At(t, p + [dir]) == Child(At(t, p), dir)
  {
    SlotConcat(t, p, [dir]);
  }

  /** What lies before and after a slot, one step further down. */
  lemma {:induction false} SlotStepAround(t: Tree, p: Path)
    requires IsSlot(t, p) && At(t, p).Node?
    ensures IsSlot(t, p + [false]) && IsSlot(t, p + [true])
    ensures Before(t, p + [false]) == Before(t, p)
    ensures After(t, p + [false]) == [At(t, p).data] + InOrder(At(t, p).right) + After(t, p)
    ensures Before(t, p + [true]) == Before(t, p) + InOrder(At(t, p).left) + [At(t, p).data]
    ensures After(t, p + [true]) == After(t, p)
  {
    SlotStep(t, p, false);
    SlotStep(t, p, true);
    if p != [] {
      assert (p + [false])[1..] == p[1..] + [false] && (p + [true])[1..] == p[1..] + [true];
      var c, q, n := Child(t, p[0]), p[1..], At(t, p);
      SlotStepAround(c, q);
      if p[0] {
        var l := InOrder(t.left) + [t.data];
        Assoc(l, Before(c, q) + InOrder(n.left), [n.data]);
        Assoc(l, Before(c, q), InOrder(n.left));
      } else {
        var u, a, r := [n.data] + InOrder(n.right), After(c, q), InOrder(t.right);
        Assoc(u + a, [t.data], r);
        Assoc(u, a, [t.data] + r);
        Assoc(a, [t.data], r);
      }
    }
  }

  /** Writing a slot after writing one of its descendants forgets the earlier write. */
  lemma {:induction false} SetAtOverwrite(t: Tree, p: Path, q: Path, x: Tree, y: Tree)
    requires IsSlot(t, p + q)
    ensures IsSlot(t, p) && IsSlot(SetAt(t, p + q, x), p)
    ensures SetAt(SetAt(t, p + q, x), p, y) == SetAt(t, p, y)
  {
    if p == [] {
      assert p + q == q;
    } else {
      assert (p + q)[0] == p[0] && (p + q)[1..] == p[1..] + q;
      SetAtOverwrite(Child(t, p[0]), p[1..], q, x, y);
    }
  }

  /** Rewriting one child link of a slot's node is rewriting the slot with a changed node. */
  lemma SetChild(t: Tree, p: Path, dir: bool, x: Tree)
    requires IsSlot(t, p) && At(t, p).Node?
    ensures IsSlot(t, p + [dir]) && SetAt(t, p + [dir], x) == SetAt(t, p, WithChild(At(t, p), dir, x))
  {
    SetAtConcat(t, p, [dir], x);
  }

  /** A second write of the same slot undoes the first. */
  lemma SetAtTwice(t: Tree, p: Path, x: Tree, y: Tree)
    requires IsSlot(t, p)
    ensures IsSlot(SetAt(t, p, x), p) && SetAt(SetAt(t, p, x), p, y) == SetAt(t, p, y)
  {
    assert p + [] == p;
    SetAtOverwrite(t, p, [], x, y);
  }

  /** A slot holds no more nodes than the whole tree. */
  lemma {:induction false} CountAt(t: Tree, p: Path)
    requires IsSlot(t, p)
    ensures Count(At(t, p)) <= Count(t)
  {
    if p != [] {
      CountAt(Child(t, p[0]), p[1..]);
    }
  }

  /** Writing two sibling slots of the same node commutes with reading the other. */
  lemma SetAtSibling(t: Tree, p: Path, x: Tree)
    requires IsSlot(t, p) && At(t, p).Node?
    ensures IsSlot(t, p + [false]) && IsSlot(SetAt(t, p + [false], x), p + [true])
    ensures At(SetAt(t, p + [false], x), p + [true]) == At(t, p).right
    ensures IsSlot(SetAt(t, p + [false], x), p) && At(SetAt(t, p + [false], x), p).Node?
  {
    SlotStep(t, p, false);
    SetAtConcat(t, p, [false], x);
    var t' := SetAt(t, p + [false], x);
    SetAtFacts(t, p, SetAt(At(t, p), [false], x));
    SlotStep(t', p, true);
  }

  // ---------------------------------------------------------------------
  // Order
  // ---------------------------------------------------------------------

  /**
   * The payload at position i. Sorted is stated over KeyAt rather than over
   * s[i], so that its quantifier is instantiated only where a proof names
   * positions through KeyAt (as SortedAt does) and not at every index into
   * a sequence.
   */
  function KeyAt(s: seq<Bytes>, i: nat): Bytes
    requires i < |s|
  {
    s[i]
  }

  /** Strictly increasing under the comparator. */
  ghost predicate Sorted(cmp: Compare, s: seq<Bytes>)
  {
    forall i, j | 0 <= i < j < |s| :: cmp(KeyAt(s, i), KeyAt(s, j)) < 0
  }

  /** An earlier position of a sorted sequence holds a smaller payload. */
  lemma SortedAt(cmp: Compare, s: seq<Bytes>, i: nat, j: nat)
    requires Sorted(cmp, s) && i < j < |s|
    ensures cmp(s[i], s[j]) < 0
  {
    assert cmp(KeyAt(s, i), KeyAt(s, j)) < 0;
  }

  /** The tree invariant: left subtree less than the node, right subtree greater, at every node. */
  ghost predicate Ordered(cmp: Compare, t: Tree)
  {
    t.Node? ==>
      && Ordered(cmp, t.left)
      && Ordered(cmp, t.right)
      && (forall x | x in InOrder(t.left) :: cmp(x, t.data) < 0)
      && (forall y | y in InOrder(t.right) :: cmp(y, t.data) > 0)
  }

  lemma SortedConcat(cmp: Compare, a: seq<Bytes>, b: seq<Bytes>)
    requires Sorted(cmp, a) && Sorted(cmp, b)
    requires forall x, y | x in a && y in b :: cmp(x, y) < 0
    ensures Sorted(cmp, a + b)
  {
    forall i, j | 0 <= i < j < |a + b| ensures cmp(KeyAt(a + b, i), KeyAt(a + b, j)) < 0 {
      if j < |a| {
        SortedAt(cmp, a, i, j);
      } else if i >= |a| {
        SortedAt(cmp, b, i - |a|, j - |a|);
      } else {
        assert a[i] in a && b[j - |a|] in b;
      }
    }
  }

  lemma SortedSplit(cmp: Compare, a: seq<Bytes>, b: seq<Bytes>)
    requires Sorted(cmp, a + b)
    ensures Sorted(cmp, a) && Sorted(cmp, b)
    ensures forall x, y | x in a && y in b :: cmp(x, y) < 0
  {
    forall i, j | 0 <= i < j < |a| ensures cmp(KeyAt(a, i), KeyAt(a, j)) < 0 {
      SortedAt(cmp, a + b, i, j);
    }
    forall i, j | 0 <= i < j < |b| ensures cmp(KeyAt(b, i), KeyAt(b, j)) < 0 {
      SortedAt(cmp, a + b, |a| + i, |a| + j);
    }
    forall x, y | x in a && y in b ensures cmp(x, y) < 0 {
      var i :| 0 <= i < |a| && a[i] == x;
      var j :| 0 <= j < |b| && b[j] == y;
      SortedAt(cmp, a + b, i, |a| + j);
    }
  }

  /** A sorted sequence stays sorted when one element is taken out. */
  lemma SortedRemove(cmp: Compare, a: seq<Bytes>, d: Bytes, b: seq<Bytes>)
    requires Sorted(cmp, a + [d] + b)
    ensures Sorted(cmp, a + b)
  {
    SortedSplit(cmp, a + [d], b);
    SortedSplit(cmp, a, [d]);
    SortedConcat(cmp, a, b);
  }

  /** ... and when one element is exchanged for an equivalent one. */
  lemma SortedExchange(cmp: Compare, a: seq<Bytes>, d: Bytes, k: Bytes, b: seq<Bytes>)
    requires StrictWeakOrder(cmp) && Sorted(cmp, a + [d] + b) && cmp(d, k) == 0
    ensures Sorted(cmp, a + [k] + b)
  {
    SortedSplit(cmp, a + [d], b);
    SortedSplit(cmp, a, [d]);
    assert d in [d];
    SortedConcat(cmp, a, [k]);
    assert forall x | x in a + [k] :: x in a || x == k;
    SortedConcat(cmp, a + [k], b);
  }

  /** The structural tree invariant and a sorted in-order sequence are the same thing. */
  lemma {:induction false} OrderedIffSorted(cmp: Compare, t: Tree)
    requires StrictWeakOrder(cmp)
    ensures Ordered(cmp, t) <==> Sorted(cmp, InOrder(t))
  {
    if t.Node? {
      OrderedIffSorted(cmp, t.left);
      OrderedIffSorted(cmp, t.right);
      var l, d, r := InOrder(t.left), t.data, InOrder(t.right);
      assert InOrder(t) == l + [d] + r;
      if Ordered(cmp, t) {
        assert d in [d];
        SortedConcat(cmp, l, [d]);
        forall x, y | x in l + [d] && y in r ensures cmp(x, y) < 0 {
          assert cmp(d, y) < 0;
        }
        SortedConcat(cmp, l + [d], r);
      }
      if Sorted(cmp, InOrder(t)) {
        SortedSplit(cmp, l + [d], r);
        SortedSplit(cmp, l, [d]);
        assert d in l + [d];
      }
    }
  }

  // ---------------------------------------------------------------------
  // Search: binary_tree_find
  // ---------------------------------------------------------------------

  /** Some node's payload compares equal to k. */
  ghost predicate Contains(cmp: Compare, t: Tree, k: Bytes)
  {
    exists x :: x in InOrder(t) && cmp(k, x) == 0
  }

  /**
   * The slot binary_tree_find stops at: descend left on a negative
   * comparison, right on a positive one, stop on zero or at a NULL link.
   */
  function FindPath(cmp: Compare, t: Tree, k: Bytes): (p: Path)
    ensures IsSlot(t, p)
    ensures At(t, p).Nil? || cmp(k, At(t, p).data) == 0
  {
    if t.Nil? || cmp(k, t.data) == 0 then []
    else
      var p := [cmp(k, t.data) > 0] + FindPath(cmp, Child(t, cmp(k, t.data) > 0), k);
      assert p[1..] == FindPath(cmp, Child(t, cmp(k, t.data) > 0), k);
      p
  }

  /** One step of the search loop: past a node that does not match, find continues in one child. */
  lemma FindPathStep(cmp: Compare, t: Tree, k: Bytes, p: Path)
    requires IsSlot(t, p) && At(t, p).Node? && cmp(k, At(t, p).data) != 0
    ensures var dir := cmp(k, At(t, p).data) > 0;
      && IsSlot(t, p + [dir]) && At(t, p + [dir]) == Child(At(t, p), dir)
      && p + FindPath(cmp, At(t, p), k) == (p + [dir]) + FindPath(cmp, At(t, p + [dir]), k)
  {
    var n := At(t, p);
    var dir := cmp(k, n.data) > 0;
    SlotStep(t, p, dir);
    var rest := FindPath(cmp, Child(n, dir), k);
    assert FindPath(cmp, n, k) == [dir] + rest;
    Assoc(p, [dir], rest);
  }

  lemma AtDataInOrder(t: Tree, p: Path)
    requires IsSlot(t, p) && At(t, p).Node?
    ensures At(t, p).data in InOrder(t)
  {
    InOrderAt(t, p);
    assert InOrder(At(t, p)) == InOrder(At(t, p).left) + [At(t, p).data] + InOrder(At(t, p).right);
  }

  /** On an ordered tree, find stops at a node exactly when the key is present. */
  lemma {:induction false} FindPathFinds(cmp: Compare, t: Tree, k: Bytes)
    requires StrictWeakOrder(cmp) && Sorted(cmp, InOrder(t))
    ensures At(t, FindPath(cmp, t, k)).Node? <==> Contains(cmp, t, k)
  {
    var p := FindPath(cmp, t, k);
    if At(t, p).Node? {
      AtDataInOrder(t, p);
    } else if t.Node? {
      var l, d, r := InOrder(t.left), t.data, InOrder(t.right);
      assert InOrder(t) == l + [d] + r;
      SortedSplit(cmp, l + [d], r);
      SortedSplit(cmp, l, [d]);
      assert d in l + [d];
      var c := cmp(k, t.data);
      var dir := c > 0;
      assert p == [dir] + FindPath(cmp, Child(t, dir), k);
      assert p[1..] == FindPath(cmp, Child(t, dir), k);
      FindPathFinds(cmp, Child(t, dir), k);
      forall x | x in InOrder(t) ensures cmp(k, x) != 0 {
        if x == d {
        } else if x in l {
          assert cmp(x, d) < 0;
        } else {
          assert x in r && cmp(d, x) < 0;
        }
      }
    }
  }

  /** Every node on the way to slot p sends key k the way p goes. */
  ghost predicate RoutesTo(cmp: Compare, t: Tree, k: Bytes, p: Path)
    requires IsSlot(t, p)
  {
    p == [] ||
    (cmp(k, t.data) != 0 && (cmp(k, t.data) > 0) == p[0] && RoutesTo(cmp, Child(t, p[0]), k, p[1..]))
  }

  /** A key routed to an empty slot is found there. */
  lemma {:induction false} FindPathRoutes(cmp: Compare, t: Tree, k: Bytes, p: Path)
    requires IsSlot(t, p) && RoutesTo(cmp, t, k, p) && At(t, p).Nil?
    ensures FindPath(cmp, t, k) == p
  {
    if p != [] {
      FindPathRoutes(cmp, Child(t, p[0]), k, p[1..]);
      assert p == [p[0]] + p[1..];
    }
  }

  /** Routing to a slot does not look at what the slot holds. */
  lemma {:induction false} RoutesToSetAt(cmp: Compare, t: Tree, k: Bytes, p: Path, x: Tree)
    requires IsSlot(t, p)
    ensures IsSlot(SetAt(t, p, x), p)
    ensures RoutesTo(cmp, SetAt(t, p, x), k, p) == RoutesTo(cmp, t, k, p)
  {
    SetAtFacts(t, p, x);
    if p != [] {
      RoutesToSetAt(cmp, Child(t, p[0]), k, p[1..], x);
    }
  }

  lemma {:induction false} RoutesToConcat(cmp: Compare, t: Tree, k: Bytes, p: Path, q: Path)
    requires IsSlot(t, p) && IsSlot(At(t, p), q)
    ensures IsSlot(t, p + q)
    ensures RoutesTo(cmp, t, k, p + q) <==> RoutesTo(cmp, t, k, p) && RoutesTo(cmp, At(t, p), k, q)
  {
    SlotConcat(t, p, q);
    if p == [] {
      assert p + q == q;
    } else {
      assert (p + q)[0] == p[0] && (p + q)[1..] == p[1..] + q;
      RoutesToConcat(cmp, Child(t, p[0]), k, p[1..], q);
    }
  }

  /** In an ordered tree, every payload below a slot routes to that slot. */
  lemma {:induction false} SubtreeRoutes(cmp: Compare, t: Tree, p: Path, k: Bytes)
    requires StrictWeakOrder(cmp) && Sorted(cmp, InOrder(t))
    requires IsSlot(t, p) && k in InOrder(At(t, p))
    ensures RoutesTo(cmp, t, k, p)
  {
    if p != [] {
      var l, d, r := InOrder(t.left), t.data, InOrder(t.right);
      assert InOrder(t) == l + [d] + r;
      SortedSplit(cmp, l + [d], r);
      SortedSplit(cmp, l, [d]);
      assert d in l + [d] && d in [d];
      if p[0] {
        InOrderAt(t.right, p[1..]);
        assert k in r;
      } else {
        InOrderAt(t.left, p[1..]);
        assert k in l;
      }
      SubtreeRoutes(cmp, Child(t, p[0]), p[1..], k);
    }
  }

  /** The NULL link at the end of the all-right chain. */
  function RightmostSlot(t: Tree): (p: Path)
    ensures IsSlot(t, p) && At(t, p).Nil?
    ensures Before(t, p) == InOrder(t) && After(t, p) == []
  {
    if t.Nil? then []
    else
      var p := [true] + RightmostSlot(t.right);
      assert p[1..] == RightmostSlot(t.right);
      p
  }

  /** A key above every payload of t routes to t's rightmost empty link. */
  lemma {:induction false} AboveRoutesRightmost(cmp: Compare, t: Tree, k: Bytes)
    requires StrictWeakOrder(cmp)
    requires forall x | x in InOrder(t) :: cmp(x, k) < 0
    ensures RoutesTo(cmp, t, k, RightmostSlot(t))
  {
    if t.Node? {
      assert t.data in InOrder(t);
      AboveRoutesRightmost(cmp, t.right, k);
      assert RightmostSlot(t)[1..] == RightmostSlot(t.right);
    }
  }

  // ---------------------------------------------------------------------
  // The mutating operations, as functions of the tree
  // ---------------------------------------------------------------------

  /** binary_tree_insert's effect: attach a fresh leaf at the empty slot find reaches. */
  function InsertKey(cmp: Compare, t: Tree, k: Bytes): Tree
  {
    var p := FindPath(cmp, t, k);
    if At(t, p).Nil? then SetAt(t, p, Node(Nil, k, Nil)) else t
  }

  /** do_insert: attach a whole subtree at the slot find reaches for its root, if empty. */
  function InsertSubtree(cmp: Compare, t: Tree, s: Tree): Tree
  {
    if s.Nil? then t
    else
      var q := FindPath(cmp, t, s.data);
      if At(t, q).Nil? then SetAt(t, q, s) else t
  }

  /**
   * binary_tree_delete's effect: empty the slot, then re-insert the old
   * node's left subtree and then its right subtree, each from the root.
   */
  function DeleteAt(cmp: Compare, t: Tree, p: Path): Tree
    requires IsSlot(t, p)
  {
    var n := At(t, p);
    if n.Nil? then t
    else InsertSubtree(cmp, InsertSubtree(cmp, SetAt(t, p, Nil), n.left), n.right)
  }

  /** binary_tree_replace's effect on the links: the node found gets the new payload, same children. */
  function ReplaceKey(cmp: Compare, t: Tree, k: Bytes): Tree
  {
    var p := FindPath(cmp, t, k);
    var n := At(t, p);
    if n.Nil? then SetAt(t, p, Node(Nil, k, Nil)) else SetAt(t, p, Node(n.left, k, n.right))
  }

  /** R hung on L's rightmost empty link. */
  function Graft(l: Tree, r: Tree): Tree
  {
    SetAt(l, RightmostSlot(l), r)
  }

  lemma GraftInOrder(l: Tree, r: Tree)
    ensures InOrder(Graft(l, r)) == InOrder(l) + InOrder(r)
  {
    InOrderAround(l, RightmostSlot(l), r);
  }

  /** The first re-insertion of delete: the left subtree goes back into the vacated slot. */
  lemma DeleteLeftStep(cmp: Compare, t: Tree, p: Path)
    requires StrictWeakOrder(cmp) && Sorted(cmp, InOrder(t))
    requires IsSlot(t, p) && At(t, p).Node?
    ensures At(t, p).left.Node? ==>
      At(SetAt(t, p, Nil), FindPath(cmp, SetAt(t, p, Nil), At(t, p).left.data)).Nil?
    ensures InsertSubtree(cmp, SetAt(t, p, Nil), At(t, p).left) == SetAt(t, p, At(t, p).left)
  {
    var n := At(t, p);
    var L := n.left;
    var t1 := SetAt(t, p, Nil);
    SetAtFacts(t, p, Nil);
    assert p + [] == p;
    SetAtOverwrite(t, p, [], Nil, L);
    if L.Node? {
      assert L.data in InOrder(n);
      SubtreeRoutes(cmp, t, p, L.data);
      RoutesToSetAt(cmp, t, L.data, p, Nil);
      FindPathRoutes(cmp, t1, L.data, p);
    }
  }

  /** Below a slot of an ordered tree, the left subtree lies wholly below every key of the right one. */
  lemma SubtreeSplit(cmp: Compare, t: Tree, p: Path)
    requires StrictWeakOrder(cmp) && Sorted(cmp, InOrder(t))
    requires IsSlot(t, p) && At(t, p).Node?
    ensures forall x, y | x in InOrder(At(t, p).left) && y in InOrder(At(t, p).right) :: cmp(x, y) < 0
  {
    var n := At(t, p);
    InOrderAt(t, p);
    assert InOrder(n) == InOrder(n.left) + [n.data] + InOrder(n.right);
    assert Before(t, p) + InOrder(n) + After(t, p) == Before(t, p) + (InOrder(n) + After(t, p));
    SortedSplit(cmp, Before(t, p), InOrder(n) + After(t, p));
    SortedSplit(cmp, InOrder(n), After(t, p));
    SortedSplit(cmp, InOrder(n.left) + [n.data], InOrder(n.right));
    assert forall x | x in InOrder(n.left) :: x in InOrder(n.left) + [n.data];
  }

  /** After the first re-insertion, the right subtree's root routes through the left subtree's right spine. */
  lemma RightRootRoutes(cmp: Compare, t: Tree, p: Path)
    requires StrictWeakOrder(cmp) && Sorted(cmp, InOrder(t))
    requires IsSlot(t, p) && At(t, p).Node? && At(t, p).right.Node?
    ensures var L := At(t, p).left;
      IsSlot(SetAt(t, p, L), p + RightmostSlot(L)) &&
      RoutesTo(cmp, SetAt(t, p, L), At(t, p).right.data, p + RightmostSlot(L))
  {
    var n := At(t, p);
    var L, R := n.left, n.right;
    var k := R.data;
    var t2 := SetAt(t, p, L);
    SetAtFacts(t, p, L);
    assert k in InOrder(n);
    SubtreeRoutes(cmp, t, p, k);
    RoutesToSetAt(cmp, t, k, p, L);
    SubtreeSplit(cmp, t, p);
    assert k in InOrder(R);
    AboveRoutesRightmost(cmp, L, k);
    RoutesToConcat(cmp, t2, k, p, RightmostSlot(L));
  }

  /** The second re-insertion of delete: the right subtree goes on the left subtree's rightmost link. */
  lemma DeleteRightStep(cmp: Compare, t: Tree, p: Path)
    requires StrictWeakOrder(cmp) && Sorted(cmp, InOrder(t))
    requires IsSlot(t, p) && At(t, p).Node?
    ensures At(t, p).right.Node? ==>
      At(SetAt(t, p, At(t, p).left), FindPath(cmp, SetAt(t, p, At(t, p).left), At(t, p).right.data)).Nil?
    ensures InsertSubtree(cmp, SetAt(t, p, At(t, p).left), At(t, p).right)
      == SetAt(t, p, Graft(At(t, p).left, At(t, p).right))
  {
    var n := At(t, p);
    var L, R := n.left, n.right;
    var t2 := SetAt(t, p, L);
    SetAtFacts(t, p, L);
    var q := RightmostSlot(L);
    if R.Node? {
      RightRootRoutes(cmp, t, p);
      SlotConcat(t2, p, q);
      FindPathRoutes(cmp, t2, R.data, p + q);
      SetAtConcat(t2, p, q, R);
      assert p + [] == p;
      SetAtOverwrite(t, p, [], L, Graft(L, R));
    } else {
      SetAtSame(L, q);
    }
  }

  /**
   * Deleting by re-insertion lands the left subtree in the vacated slot and
   * the right subtree on the left subtree's rightmost link.
   */
  lemma DeleteAtShape(cmp: Compare, t: Tree, p: Path)
    requires StrictWeakOrder(cmp) && Sorted(cmp, InOrder(t))
    requires IsSlot(t, p) && At(t, p).Node?
    ensures DeleteAt(cmp, t, p) == SetAt(t, p, Graft(At(t, p).left, At(t, p).right))
  {
    DeleteLeftStep(cmp, t, p);
    DeleteRightStep(cmp, t, p);
  }

  // ---------------------------------------------------------------------
  // What the operations do to the in-order sequence
  // ---------------------------------------------------------------------

  /** Where find stops on an empty link, the key routes there. */
  lemma {:induction false} FindPathRoutesTo(cmp: Compare, t: Tree, k: Bytes)
    requires At(t, FindPath(cmp, t, k)).Nil?
    ensures RoutesTo(cmp, t, k, FindPath(cmp, t, k))
  {
    if t.Node? {
      var dir := cmp(k, t.data) > 0;
      assert FindPath(cmp, t, k)[1..] == FindPath(cmp, Child(t, dir), k);
      FindPathRoutesTo(cmp, Child(t, dir), k);
    }
  }

  /** A key routed to a slot lies above everything before the slot and below everything after it. */
  lemma {:induction false} RoutedBetween(cmp: Compare, t: Tree, k: Bytes, p: Path)
    requires StrictWeakOrder(cmp) && Sorted(cmp, InOrder(t))
    requires IsSlot(t, p) && RoutesTo(cmp, t, k, p)
    ensures forall x | x in Before(t, p) :: cmp(x, k) < 0
    ensures forall y | y in After(t, p) :: cmp(k, y) < 0
  {
    if p != [] {
      var l, d, r := InOrder(t.left), t.data, InOrder(t.right);
      assert InOrder(t) == l + [d] + r;
      SortedSplit(cmp, l + [d], r);
      SortedSplit(cmp, l, [d]);
      assert d in [d] && d in l + [d];
      RoutedBetween(cmp, Child(t, p[0]), k, p[1..]);
      if p[0] {
        assert forall x | x in Before(t, p) :: x in l || x == d || x in Before(t.right, p[1..]);
      } else {
        assert forall y | y in After(t, p) :: y in After(t.left, p[1..]) || y == d || y in r;
      }
    }
  }

  /** A key placed between what lies below and what lies above keeps a sequence sorted. */
  lemma SortedInsertBetween(cmp: Compare, a: seq<Bytes>, k: Bytes, b: seq<Bytes>)
    requires StrictWeakOrder(cmp) && Sorted(cmp, a + b)
    requires forall x | x in a :: cmp(x, k) < 0
    requires forall y | y in b :: cmp(k, y) < 0
    ensures Sorted(cmp, a + [k] + b)
  {
    SortedSplit(cmp, a, b);
    SortedConcat(cmp, a, [k]);
    assert forall x | x in a + [k] :: x in a || x == k;
    SortedConcat(cmp, a + [k], b);
  }

  /**
   * Insert into an ordered tree: when the key is absent the in-order sequence
   * gains exactly k, at the position that keeps it sorted; otherwise nothing changes.
   */
  lemma InsertKeyInOrder(cmp: Compare, t: Tree, k: Bytes)
    requires StrictWeakOrder(cmp) && Sorted(cmp, InOrder(t))
    ensures Contains(cmp, t, k) ==> InsertKey(cmp, t, k) == t
    ensures !Contains(cmp, t, k) ==>
      var i := |Before(t, FindPath(cmp, t, k))|;
      && i <= |InOrder(t)|
      && InOrder(InsertKey(cmp, t, k)) == InOrder(t)[..i] + [k] + InOrder(t)[i..]
    ensures Sorted(cmp, InOrder(InsertKey(cmp, t, k)))
    ensures Count(InsertKey(cmp, t, k)) == Count(t) + (if Contains(cmp, t, k) then 0 else 1)
  {
    FindPathFinds(cmp, t, k);
    CountIsLength(t);
    CountIsLength(InsertKey(cmp, t, k));
    if !Contains(cmp, t, k) {
      InsertAbsentInOrder(cmp, t, k);
      var p := FindPath(cmp, t, k);
      var a, b := Before(t, p), After(t, p);
      assert InOrder(t)[..|a|] == a && InOrder(t)[|a|..] == b;
    }
  }

  /** Insert of an absent key: the leaf's payload lands between Before and After of the empty slot find reaches. */
  lemma InsertAbsentInOrder(cmp: Compare, t: Tree, k: Bytes)
    requires StrictWeakOrder(cmp) && Sorted(cmp, InOrder(t))
    requires At(t, FindPath(cmp, t, k)).Nil?
    ensures var p := FindPath(cmp, t, k);
      && InOrder(t) == Before(t, p) + After(t, p)
      && InOrder(InsertKey(cmp, t, k)) == Before(t, p) + [k] + After(t, p)
      && Sorted(cmp, InOrder(InsertKey(cmp, t, k)))
  {
    var p := FindPath(cmp, t, k);
    InOrderAt(t, p);
    InOrderAround(t, p, Node(Nil, k, Nil));
    var a, b := Before(t, p), After(t, p);
    assert InOrder(Node(Nil, k, Nil)) == [k];
    assert InOrder(Nil) == [] && a + [] == a;
    FindPathRoutesTo(cmp, t, k);
    RoutedBetween(cmp, t, k, p);
    SortedInsertBetween(cmp, a, k, b);
  }

  /** Five-way split of a sequence around one element. */
  lemma SplitAround(a: seq<Bytes>, l: seq<Bytes>, d: Bytes, r: seq<Bytes>, b: seq<Bytes>)
    ensures var s, i := a + l + [d] + r + b, |a| + |l|;
      && i < |s| && s[i] == d
      && s[..i] == a + l && s[i + 1..] == r + b
      && s[i := d] == s
  {
    var s, i := a + l + [d] + r + b, |a| + |l|;
    assert s == (a + l) + [d] + (r + b);
    assert s[..i] == a + l;
    assert s[i + 1..] == r + b;
  }

  /** The in-order sequence split at a slot's node. */
  lemma InOrderAtNode(t: Tree, p: Path)
    requires IsSlot(t, p) && At(t, p).Node?
    ensures var n := At(t, p);
      InOrder(t) == Before(t, p) + InOrder(n.left) + [n.data] + InOrder(n.right) + After(t, p)
  {
    var n := At(t, p);
    InOrderAt(t, p);
    var a, l, r := Before(t, p), InOrder(n.left), InOrder(n.right);
    Assoc(a, l + [n.data], r);
    Assoc(a, l, [n.data]);
  }

  /** The index of a slot's node in the in-order sequence: after Before and after the node's left subtree. */
  function NodeIndex(t: Tree, p: Path): (i: nat)
    requires IsSlot(t, p) && At(t, p).Node?
    ensures i < |InOrder(t)| && InOrder(t)[i] == At(t, p).data
    ensures InOrder(t)[..i] == Before(t, p) + InOrder(At(t, p).left)
    ensures InOrder(t)[i + 1..] == InOrder(At(t, p).right) + After(t, p)
  {
    var n := At(t, p);
    InOrderAtNode(t, p);
    SplitAround(Before(t, p), InOrder(n.left), n.data, InOrder(n.right), After(t, p));
    |Before(t, p)| + |InOrder(n.left)|
  }

  lemma ExchangeAround(a: seq<Bytes>, l: seq<Bytes>, d: Bytes, r: seq<Bytes>, b: seq<Bytes>, k: Bytes)
    ensures (a + l + [d] + r + b)[|a| + |l| := k] == a + (l + [k] + r) + b
  {
    var s, i := a + l + [d] + r + b, |a| + |l|;
    var s' := a + (l + [k] + r) + b;
    assert |s[i := k]| == |s'|;
    forall j | 0 <= j < |s'| ensures s[i := k][j] == s'[j] {
      if j < |a| {
      } else if j < i {
        assert s[j] == l[j - |a|] && s'[j] == l[j - |a|];
      } else if j == i {
      } else if j < i + 1 + |r| {
        assert s[j] == r[j - i - 1] && s'[j] == r[j - i - 1];
      } else {
        assert s[j] == b[j - i - 1 - |r|] && s'[j] == b[j - i - 1 - |r|];
      }
    }
  }

  /** Rewriting a node's slot with the same children and another payload. */
  lemma InOrderExchange(t: Tree, p: Path, k: Bytes)
    requires IsSlot(t, p) && At(t, p).Node?
    ensures var n := At(t, p);
      InOrder(SetAt(t, p, Node(n.left, k, n.right))) == InOrder(t)[NodeIndex(t, p) := k]
  {
    var n := At(t, p);
    InOrderAround(t, p, Node(n.left, k, n.right));
    InOrderAtNode(t, p);
    ExchangeAround(Before(t, p), InOrder(n.left), n.data, InOrder(n.right), After(t, p), k);
  }

  /** The node's payload and nothing else leaves the in-order sequence. */
  lemma InOrderDelete(cmp: Compare, t: Tree, p: Path)
    requires StrictWeakOrder(cmp) && Sorted(cmp, InOrder(t))
    requires IsSlot(t, p) && At(t, p).Node?
    ensures var i := NodeIndex(t, p);
      InOrder(DeleteAt(cmp, t, p)) == InOrder(t)[..i] + InOrder(t)[i + 1..]
  {
    var n := At(t, p);
    var i := NodeIndex(t, p);
    DeleteAtShape(cmp, t, p);
    InOrderAround(t, p, Graft(n.left, n.right));
    GraftInOrder(n.left, n.right);
    var a, l, r, b := Before(t, p), InOrder(n.left), InOrder(n.right), After(t, p);
    Assoc(a, l, r + b);
    Assoc(a, l + r, b);
    Assoc(l, r, b);
  }

  /**
   * Delete from an ordered tree: the in-order sequence loses exactly the
   * payload held at the slot and stays sorted.
   */
  lemma DeleteAtInOrder(cmp: Compare, t: Tree, p: Path)
    requires StrictWeakOrder(cmp) && Sorted(cmp, InOrder(t))
    requires IsSlot(t, p) && At(t, p).Node?
    ensures var i := NodeIndex(t, p);
      && i < |InOrder(t)| && InOrder(t)[i] == At(t, p).data
      && InOrder(DeleteAt(cmp, t, p)) == InOrder(t)[..i] + InOrder(t)[i + 1..]
    ensures Sorted(cmp, InOrder(DeleteAt(cmp, t, p)))
    ensures Count(DeleteAt(cmp, t, p)) == Count(t) - 1
  {
    var i := NodeIndex(t, p);
    var s := InOrder(t);
    InOrderDelete(cmp, t, p);
    SplitAt(s, i);
    SortedRemove(cmp, s[..i], s[i], s[i + 1..]);
    CountIsLength(t);
    CountIsLength(DeleteAt(cmp, t, p));
  }

  lemma SplitAt(s: seq<Bytes>, i: nat)
    requires i < |s|
    ensures s == s[..i] + [s[i]] + s[i + 1..]
  {
  }

  lemma SortedDistinct(cmp: Compare, s: seq<Bytes>, i: nat, j: nat)
    requires StrictWeakOrder(cmp) && Sorted(cmp, s)
    requires i < |s| && j < |s| && i != j
    ensures cmp(s[i], s[j]) != 0
  {
    if i < j {
      SortedAt(cmp, s, i, j);
    } else {
      SortedAt(cmp, s, j, i);
    }
  }

  /** Taking one element out of a sorted sequence leaves nothing equivalent to it. */
  lemma SortedRemoveLeavesNoEquivalent(cmp: Compare, s: seq<Bytes>, i: nat, k: Bytes)
    requires StrictWeakOrder(cmp) && Sorted(cmp, s) && i < |s| && cmp(k, s[i]) == 0
    ensures forall x | x in s[..i] + s[i + 1..] :: cmp(k, x) != 0
  {
    var s' := s[..i] + s[i + 1..];
    forall x | x in s' ensures cmp(k, x) != 0 {
      var j :| 0 <= j < |s'| && s'[j] == x;
      var j' := if j < i then j else j + 1;
      assert s'[j] == s[j'];
      SortedDistinct(cmp, s, i, j');
    }
  }

  /** remove(k) = delete(find(k)): afterwards no payload compares equal to k. */
  lemma RemoveKeyAbsent(cmp: Compare, t: Tree, k: Bytes)
    requires StrictWeakOrder(cmp) && Sorted(cmp, InOrder(t))
    ensures !Contains(cmp, DeleteAt(cmp, t, FindPath(cmp, t, k)), k)
  {
    var p := FindPath(cmp, t, k);
    FindPathFinds(cmp, t, k);
    if At(t, p).Node? {
      DeleteAtInOrder(cmp, t, p);
      SortedRemoveLeavesNoEquivalent(cmp, InOrder(t), NodeIndex(t, p), k);
    }
  }

  /** Leaving out a middle run keeps a sequence sorted. */
  lemma SortedDropMiddle(cmp: Compare, x: seq<Bytes>, y: seq<Bytes>, z: seq<Bytes>)
    requires Sorted(cmp, x + y + z)
    ensures Sorted(cmp, x + z)
  {
    var s := x + y + z;
    forall i, j | 0 <= i < j < |x + z| ensures cmp(KeyAt(x + z, i), KeyAt(x + z, j)) < 0 {
      var i' := if i < |x| then i else i + |y|;
      var j' := if j < |x| then j else j + |y|;
      assert (x + z)[i] == s[i'] && (x + z)[j] == s[j'];
      SortedAt(cmp, s, i', j');
    }
  }

  /** Unlinking both children of a node keeps the rest of an ordered tree ordered. */
  lemma SortedUnlinkChildren(cmp: Compare, t: Tree, p: Path)
    requires Sorted(cmp, InOrder(t)) && IsSlot(t, p) && At(t, p).Node?
    ensures Sorted(cmp, InOrder(SetAt(t, p, Node(Nil, At(t, p).data, Nil))))
  {
    var n := At(t, p);
    var a, l, d, r, b := Before(t, p), InOrder(n.left), n.data, InOrder(n.right), After(t, p);
    InOrderAtNode(t, p);
    InOrderAround(t, p, Node(Nil, d, Nil));
    assert InOrder(Node(Nil, d, Nil)) == [d];
    Assoc(a + l + [d], r, b);
    Assoc(a + l, [d], r + b);
    Assoc([d], r, b);
    SortedDropMiddle(cmp, a, l, [d] + r + b);
    Assoc(a + [d], r, b);
    Assoc(a, [d], r + b);
    SortedDropMiddle(cmp, a + [d], r, b);
  }

  /** Exchanging one element for an equivalent one keeps a sequence sorted. */
  lemma SortedUpdate(cmp: Compare, s: seq<Bytes>, i: nat, k: Bytes)
    requires StrictWeakOrder(cmp) && Sorted(cmp, s) && i < |s| && cmp(s[i], k) == 0
    ensures Sorted(cmp, s[i := k])
  {
    assert s == s[..i] + [s[i]] + s[i + 1..];
    assert s[i := k] == s[..i] + [k] + s[i + 1..];
    SortedExchange(cmp, s[..i], s[i], k, s[i + 1..]);
  }

  /**
   * Replace in an ordered tree: when the key is present the payload at its
   * position is exchanged for k and the order is kept; when absent it is an insert.
   */
  lemma ReplaceKeyInOrder(cmp: Compare, t: Tree, k: Bytes)
    requires StrictWeakOrder(cmp) && Sorted(cmp, InOrder(t))
    ensures !Contains(cmp, t, k) ==> ReplaceKey(cmp, t, k) == InsertKey(cmp, t, k)
    ensures Contains(cmp, t, k) ==>
      var p := FindPath(cmp, t, k);
      && At(t, p).Node?
      && cmp(k, InOrder(t)[NodeIndex(t, p)]) == 0
      && InOrder(ReplaceKey(cmp, t, k)) == InOrder(t)[NodeIndex(t, p) := k]
    ensures Sorted(cmp, InOrder(ReplaceKey(cmp, t, k)))
    ensures Count(ReplaceKey(cmp, t, k)) == Count(t) + (if Contains(cmp, t, k) then 0 else 1)
  {
    var p := FindPath(cmp, t, k);
    FindPathFinds(cmp, t, k);
    InsertKeyInOrder(cmp, t, k);
    if Contains(cmp, t, k) {
      InOrderExchange(t, p, k);
      SortedUpdate(cmp, InOrder(t), NodeIndex(t, p), k);
      CountIsLength(t);
      CountIsLength(ReplaceKey(cmp, t, k));
    }
  }
}
