/**
 * binary_tree.c: an unbalanced binary search tree of byte payloads, owned
 * by a handle that counts its nodes. Slots (`struct binary_tree_node **`)
 * are paths from the root link (see TreeNodes); the handle rewrites the
 * links in place, which the class models by reassigning its `root`.
 */
module BinaryTree {
  import opened Wrappers
  import opened Comparator
  import opened TreeNodes

  // ---------------------------------------------------------------------
  // The default comparator
  // ---------------------------------------------------------------------

  /** `binary_tree_default_compare_arg`: how many leading bytes of a payload form its key. */
  type KeyLength = f: Bytes -> nat | forall d :: f(d) <= |d| witness (d: Bytes) => 0

  /** The bytes the default comparator looks at. */
  function Key(d: Bytes, arg: Option<KeyLength>): (k: Bytes)
    ensures k <= d
    ensures arg.None? ==> k == d
  {
    if arg.None? then d else d[..arg.value(d)]
  }

  /**
   * binary_tree_default_compare: compare_lex on the whole payloads, or on
   * the key prefixes the argument selects.
   */
  function DefaultCompare(a: Bytes, b: Bytes, arg: Option<KeyLength>): (r: int)
    ensures r == 0 <==> Key(a, arg) == Key(b, arg)
  {
    CompareLexZeroIff(Key(a, arg), Key(b, arg));
    CompareLex(Key(a, arg), Key(b, arg))
  }

  function DefaultComparator(arg: Option<KeyLength>): Compare
  {
    (a, b) => DefaultCompare(a, b, arg)
  }

  /** The default comparator, with or without a key length, meets the tree's contract. */
  lemma DefaultCompareIsStrictWeakOrder(arg: Option<KeyLength>)
    ensures StrictWeakOrder(DefaultComparator(arg))
  {
    var cmp := DefaultComparator(arg);
    forall a, b ensures cmp(a, b) < 0 <==> cmp(b, a) > 0 {
      CompareLexAntisymmetric(Key(a, arg), Key(b, arg));
    }
    forall a, b, c | cmp(a, b) < 0 && cmp(b, c) < 0 ensures cmp(a, c) < 0 {
      CompareLexTransitive(Key(a, arg), Key(b, arg), Key(c, arg));
    }
  }

  // ---------------------------------------------------------------------
  // In-order traversal with early exit
  // ---------------------------------------------------------------------

  /** The first visitor result that is not NULL, over a sequence of payloads. */
  function FirstSome<R>(s: seq<Bytes>, visit: Bytes -> Option<R>): (r: Option<R>)
  {
    if s == [] then None
    else if visit(s[0]).Some? then visit(s[0])
    else FirstSome(s[1..], visit)
  }

  /** FirstSome is the earliest non-NULL result, and NULL only when every visit is. */
  lemma {:induction false} FirstSomeIsFirst<R>(s: seq<Bytes>, visit: Bytes -> Option<R>)
    ensures FirstSome(s, visit).None? <==> forall i | 0 <= i < |s| :: visit(s[i]).None?
    ensures FirstSome(s, visit).Some? ==>
      exists i | 0 <= i < |s| :: FirstSome(s, visit) == visit(s[i]) && forall j | 0 <= j < i :: visit(s[j]).None?
  {
    if s != [] && visit(s[0]).None? {
      FirstSomeIsFirst(s[1..], visit);
      if FirstSome(s[1..], visit).Some? {
        var i :| 0 <= i < |s[1..]| && FirstSome(s[1..], visit) == visit(s[1..][i])
          && forall j | 0 <= j < i :: visit(s[1..][j]).None?;
        assert FirstSome(s, visit) == visit(s[i + 1]);
        assert forall j | 0 <= j < i + 1 :: visit(s[j]).None? by {
          forall j | 0 < j < i + 1 ensures visit(s[j]).None? {
            assert s[j] == s[1..][j - 1];
          }
        }
      } else {
        forall i | 0 <= i < |s| ensures visit(s[i]).None? {
          if i > 0 { assert s[i] == s[1..][i - 1]; }
        }
      }
    }
  }

  lemma {:induction false} FirstSomeConcat<R>(a: seq<Bytes>, b: seq<Bytes>, visit: Bytes -> Option<R>)
    ensures FirstSome(a + b, visit) == if FirstSome(a, visit).Some? then FirstSome(a, visit) else FirstSome(b, visit)
  {
    if a == [] {
      assert a + b == b;
    } else {
      assert (a + b)[0] == a[0] && (a + b)[1..] == a[1..] + b;
      FirstSomeConcat(a[1..], b, visit);
    }
  }

  /** recurse_iter: left subtree, the node, right subtree, stopping at the first non-NULL result. */
  function RecurseIter<R>(t: Tree, visit: Bytes -> Option<R>): (r: Option<R>)
    ensures r == FirstSome(InOrder(t), visit)
  {
    if t.Nil? then None
    else
      FirstSomeConcat(InOrder(t.left) + [t.data], InOrder(t.right), visit);
      FirstSomeConcat(InOrder(t.left), [t.data], visit);
      var res := RecurseIter(t.left, visit);
      if res.Some? then res
      else if visit(t.data).Some? then visit(t.data)
      else RecurseIter(t.right, visit)
  }

  // ---------------------------------------------------------------------
  // node_data
  // ---------------------------------------------------------------------

  /**
   * node_data as written: it reads `*pos` without checking `pos`, so a NULL
   * slot (None) is a NULL dereference, returned here as None.
   */
  function NodeDataAsWritten(t: Tree, pos: Option<Path>): (r: Option<(Option<Bytes>, nat)>)
    requires pos.Some? ==> IsSlot(t, pos.value)
    ensures r.None? <==> pos.None?
    ensures r.Some? ==> (r.value.0.None? <==> At(t, pos.value).Nil?)
  {
    if pos.None? then None
    else if At(t, pos.value).Nil? then Some((None, 0))
    else Some((Some(At(t, pos.value).data), |At(t, pos.value).data|))
  }

  /** node_data, with a NULL slot read like a NULL link: no payload, length 0. */
  function NodeData(t: Tree, pos: Option<Path>): (r: (Option<Bytes>, nat))
    requires pos.Some? ==> IsSlot(t, pos.value)
    ensures r.0.None? <==> pos.None? || At(t, pos.value).Nil?
    ensures r.0.None? ==> r.1 == 0
    ensures r.0.Some? ==> r.0.value == At(t, pos.value).data && r.1 == |r.0.value|
    ensures pos.Some? ==> NodeDataAsWritten(t, pos) == Some(r)
  {
    if pos.None? || At(t, pos.value).Nil? then (None, 0)
    else (Some(At(t, pos.value).data), |At(t, pos.value).data|)
  }

  // ---------------------------------------------------------------------
  // binary_tree_replace's node count
  // ---------------------------------------------------------------------

  /**
   * The count binary_tree_replace leaves as written when the key is present:
   * one decrement per non-NULL child unlinked, one for the deleted node, and
   * three increments from set_node, which counts even a NULL child.
   */
  function ReplacedSizeAsWritten(size: nat, n: Tree): int
    requires n.Node?
  {
    size - ChildCount(n) - 1 + 3
  }

  /** As written, the count stays right only when the replaced node has two children. */
  lemma ReplacedSizeAsWrittenIsWrong(cmp: Compare, t: Tree, k: Bytes)
    requires StrictWeakOrder(cmp) && Sorted(cmp, InOrder(t)) && Contains(cmp, t, k)
    ensures At(t, FindPath(cmp, t, k)).Node?
    ensures ReplacedSizeAsWritten(Count(t), At(t, FindPath(cmp, t, k))) == Count(ReplaceKey(cmp, t, k))
      <==> ChildCount(At(t, FindPath(cmp, t, k))) == 2
  {
    ReplaceKeyInOrder(cmp, t, k);
  }

  /** Replacing the only payload of a one-node tree leaves a count of 3 for one node. */
  lemma ReplaceLeafMiscounts()
    ensures var t := Node(Nil, [1], Nil);
      && ReplaceKey(CompareLex, t, [1]) == t
      && Count(ReplaceKey(CompareLex, t, [1])) == 1
      && ReplacedSizeAsWritten(Count(t), t) == 3
  {
    var t := Node(Nil, [1], Nil);
    CompareLexZeroIff([1], [1]);
    assert FindPath(CompareLex, t, [1]) == [];
  }

  // ---------------------------------------------------------------------
  // struct binary_tree
  // ---------------------------------------------------------------------

  class BinaryTree {
    var root: Tree
    var size: nat
    const compare: Compare
    /** The payloads handed to the destructor callback so far, in order. */
    ghost var destroyed: seq<Bytes>

    /** The comparator is a strict weak order, the tree is ordered, and size counts its nodes. */
    ghost predicate Valid()
      reads this
    {
      StrictWeakOrder(compare) && Sorted(compare, InOrder(root)) && size == Count(root)
    }

    /** binary_tree_init: an empty tree; with no comparator the default one with `cmparg`. */
    constructor (cmp: Option<Compare>, cmparg: Option<KeyLength>)
      requires cmp.Some? ==> StrictWeakOrder(cmp.value)
      ensures Valid()
      ensures root == Nil && size == 0 && destroyed == []
      ensures compare == if cmp.Some? then cmp.value else DefaultComparator(cmparg)
    {
      root := Nil;
      size := 0;
      var c: Compare := if cmp.Some? then cmp.value else DefaultComparator(cmparg);
      compare := c;
      destroyed := [];
      DefaultCompareIsStrictWeakOrder(cmparg);
    }

    /** binary_tree_size */
    function Size(): (n: nat)
      reads this
      requires Valid()
      ensures n == |InOrder(root)|
    {
      CountIsLength(root);
      size
    }

    /** binary_tree_empty */
    function Empty(): (e: bool)
      reads this
      ensures e <==> InOrder(root) == []
      ensures Valid() ==> (e <==> Size() == 0)
    {
      CountIsLength(root);
      root.Nil?
    }

    /** set_node, counting the node only when it is not NULL. */
    method SetNode(p: Path, n: Tree)
      requires IsSlot(root, p)
      modifies this
      ensures root == SetAt(old(root), p, n)
      ensures size == old(size) + (if n.Node? then 1 else 0)
      ensures destroyed == old(destroyed)
    {
      root := SetAt(root, p, n);
      if n.Node? {
        size := size + 1;
      }
    }

    /** set_node as written: the count goes up even for a NULL node. */
    method SetNodeAsWritten(p: Path, n: Tree)
      requires IsSlot(root, p)
      modifies this
      ensures root == SetAt(old(root), p, n)
      ensures size == old(size) + 1
      ensures destroyed == old(destroyed)
    {
      root := SetAt(root, p, n);
      size := size + 1;
    }

    /** unset_node: empty the slot and hand back what it held. */
    method UnsetNode(p: Path) returns (n: Tree)
      requires IsSlot(root, p) && (At(root, p).Node? ==> size > 0)
      modifies this
      ensures n == old(At(root, p))
      ensures root == SetAt(old(root), p, Nil)
      ensures size == old(size) - (if n.Node? then 1 else 0)
      ensures destroyed == old(destroyed)
    {
      n := At(root, p);
      root := SetAt(root, p, Nil);
      if n.Node? {
        size := size - 1;
      }
    }

    /** do_destroy: unset the slot and pass the node's payload to the destructor. */
    method DoDestroy(p: Path)
      requires IsSlot(root, p) && (At(root, p).Node? ==> size > 0)
      modifies this
      ensures root == SetAt(old(root), p, Nil)
      ensures old(At(root, p)).Nil? ==> size == old(size) && destroyed == old(destroyed)
      ensures old(At(root, p)).Node? ==>
        size == old(size) - 1 && destroyed == old(destroyed) + [old(At(root, p)).data]
    {
      var n := UnsetNode(p);
      if n.Nil? {
        return;
      }
      destroyed := destroyed + [n.data];
    }

    /** binary_tree_find: the slot holding an equal key, or the NULL link where it would go. */
    method Find(k: Bytes) returns (p: Path)
      ensures p == FindPath(compare, root, k)
      ensures IsSlot(root, p) && (At(root, p).Nil? || compare(k, At(root, p).data) == 0)
      ensures Valid() ==> (At(root, p).Node? <==> Contains(compare, root, k))
    {
      p := [];
      var n := root;
      while n.Node?
        invariant IsSlot(root, p) && At(root, p) == n
        invariant FindPath(compare, root, k) == p + FindPath(compare, n, k)
        decreases n
      {
        var c := compare(k, n.data);
        if c == 0 {
          break;
        }
        var dir := c > 0;
        FindPathStep(compare, root, k, p);
        p := p + [dir];
        n := Child(n, dir);
      }
      assert p + [] == p;
      if Valid() {
        FindPathFinds(compare, root, k);
      }
    }

    /** do_insert: hang a detached subtree at the slot found for its root, if that slot is empty. */
    method DoInsert(s: Tree) returns (isNew: bool)
      modifies this
      ensures root == InsertSubtree(compare, old(root), s)
      ensures isNew <==> s.Node? && At(old(root), FindPath(compare, old(root), s.data)).Nil?
      ensures size == old(size) + (if isNew then 1 else 0)
      ensures destroyed == old(destroyed)
    {
      if s.Nil? {
        return false;
      }
      var p := Find(s.data);
      isNew := At(root, p).Nil?;
      if isNew {
        SetNode(p, s);
      }
    }

    /**
     * binary_tree_insert: the slot of the equal key if present, otherwise a
     * new leaf holding a copy of k at the empty slot find reached.
     */
    method Insert(k: Bytes) returns (p: Path, isNew: bool)
      requires Valid()
      modifies this
      ensures Valid() && destroyed == old(destroyed)
      ensures p == FindPath(compare, old(root), k)
      ensures root == InsertKey(compare, old(root), k)
      ensures isNew <==> !Contains(compare, old(root), k)
      ensures IsSlot(root, p) && At(root, p).Node? && compare(k, At(root, p).data) == 0
      ensures isNew ==> At(root, p).data == k && size == old(size) + 1
      ensures !isNew ==> root == old(root) && size == old(size)
      ensures !isNew ==> InOrder(root) == old(InOrder(root))
      ensures isNew ==> exists i | 0 <= i <= |old(InOrder(root))| ::
        InOrder(root) == old(InOrder(root))[..i] + [k] + old(InOrder(root))[i..]
    {
      p := Find(k);
      isNew := At(root, p).Nil?;
      InsertKeyInOrder(compare, root, k);
      ghost var i := |Before(root, p)|;
      if isNew {
        SetAtFacts(root, p, Node(Nil, k, Nil));
        SetNode(p, Node(Nil, k, Nil));
        assert InOrder(root) == old(InOrder(root))[..i] + [k] + old(InOrder(root))[i..];
      }
    }

    /** binary_tree_insert_new: insert, reporting whether the key was absent. */
    method InsertNew(k: Bytes) returns (isNew: bool)
      requires Valid()
      modifies this
      ensures Valid() && destroyed == old(destroyed)
      ensures root == InsertKey(compare, old(root), k)
      ensures isNew <==> !Contains(compare, old(root), k)
      ensures Contains(compare, root, k)
      ensures size == old(size) + (if isNew then 1 else 0)
    {
      var p;
      p, isNew := Insert(k);
      AtDataInOrder(root, p);
      assert StrictWeakOrder(compare);
    }

    /** The two unset_node calls on a node's child links with which delete and replace begin. */
    method UnlinkChildren(p: Path) returns (l: Tree, r: Tree)
      requires IsSlot(root, p) && At(root, p).Node? && size >= Count(At(root, p))
      modifies this
      ensures l == old(At(root, p)).left && r == old(At(root, p)).right
      ensures root == SetAt(old(root), p, Node(Nil, old(At(root, p)).data, Nil))
      ensures size == old(size) - ChildCount(old(At(root, p)))
      ensures destroyed == old(destroyed)
    {
      ghost var t := root;
      var n := At(root, p);
      ghost var n1 := Node(Nil, n.data, n.right);
      SetChild(t, p, false, Nil);
      SlotStep(t, p, false);
      l := UnsetNode(p + [false]);
      SetAtFacts(t, p, n1);
      SetChild(root, p, true, Nil);
      SlotStep(root, p, true);
      SetAtTwice(t, p, n1, Node(Nil, n.data, Nil));
      r := UnsetNode(p + [true]);
    }

    /** The three set_node calls with which replace ends: a new node for k, then its two children. */
    method Relink(p: Path, k: Bytes, l: Tree, r: Tree)
      requires IsSlot(root, p)
      modifies this
      ensures root == SetAt(old(root), p, Node(l, k, r))
      ensures size == old(size) + 1 + (if l.Node? then 1 else 0) + (if r.Node? then 1 else 0)
      ensures destroyed == old(destroyed)
    {
      ghost var t := root;
      SetNode(p, Node(Nil, k, Nil));
      SetAtFacts(t, p, Node(Nil, k, Nil));
      SetChild(root, p, false, l);
      SetAtTwice(t, p, Node(Nil, k, Nil), Node(l, k, Nil));
      SetNode(p + [false], l);
      SetAtFacts(t, p, Node(l, k, Nil));
      SetChild(root, p, true, r);
      SetAtTwice(t, p, Node(l, k, Nil), Node(l, k, r));
      SetNode(p + [true], r);
    }

    /** The same three set_node calls as written: each counts one node, NULL or not. */
    method RelinkAsWritten(p: Path, k: Bytes, l: Tree, r: Tree)
      requires IsSlot(root, p)
      modifies this
      ensures root == SetAt(old(root), p, Node(l, k, r))
      ensures size == old(size) + 3
      ensures destroyed == old(destroyed)
    {
      ghost var t := root;
      SetNodeAsWritten(p, Node(Nil, k, Nil));
      SetAtFacts(t, p, Node(Nil, k, Nil));
      SetChild(root, p, false, l);
      SetAtTwice(t, p, Node(Nil, k, Nil), Node(l, k, Nil));
      SetNodeAsWritten(p + [false], l);
      SetAtFacts(t, p, Node(l, k, Nil));
      SetChild(root, p, true, r);
      SetAtTwice(t, p, Node(l, k, Nil), Node(l, k, r));
      SetNodeAsWritten(p + [true], r);
    }

    /**
     * binary_tree_delete: unlink the node's children, destroy it, and
     * re-insert its left and then its right subtree from the root.
     */
    method Delete(p: Path) returns (deleted: bool)
      requires StrictWeakOrder(compare) && Sorted(compare, InOrder(root))
      requires IsSlot(root, p) && size >= Count(At(root, p))
      modifies this
      ensures root == DeleteAt(compare, old(root), p)
      ensures deleted <==> old(At(root, p)).Node?
      ensures Sorted(compare, InOrder(root))
      ensures !deleted ==> root == old(root) && size == old(size) && destroyed == old(destroyed)
      ensures deleted ==>
        && size == old(size) - 1
        && Count(root) == old(Count(root)) - 1
        && destroyed == old(destroyed) + [old(At(root, p)).data]
        && InOrder(root) == old(InOrder(root)[..NodeIndex(root, p)] + InOrder(root)[NodeIndex(root, p) + 1..])
      ensures old(Valid()) ==> Valid()
    {
      var n := At(root, p);
      if n.Nil? {
        return false;
      }
      ghost var t := root;
      DeleteLeftStep(compare, t, p);
      DeleteRightStep(compare, t, p);
      Reattach(p);
      DeleteAtInOrder(compare, t, p);
      deleted := true;
    }

    /**
     * The pointer work of delete on a node: unlink its children, destroy it,
     * and re-insert the children from the root, each landing on an empty
     * link (which DeleteLeftStep and DeleteRightStep show for an ordered tree).
     */
    method Reattach(p: Path)
      requires IsSlot(root, p) && At(root, p).Node? && size >= Count(At(root, p))
      requires At(root, p).left.Node? ==>
        At(SetAt(root, p, Nil), FindPath(compare, SetAt(root, p, Nil), At(root, p).left.data)).Nil?
      requires InsertSubtree(compare, SetAt(root, p, Nil), At(root, p).left) == SetAt(root, p, At(root, p).left)
      requires At(root, p).right.Node? ==>
        At(SetAt(root, p, At(root, p).left), FindPath(compare, SetAt(root, p, At(root, p).left), At(root, p).right.data)).Nil?
      modifies this
      ensures root == DeleteAt(compare, old(root), p)
      ensures size == old(size) - 1
      ensures destroyed == old(destroyed) + [old(At(root, p)).data]
    {
      ghost var t := root;
      var n := At(root, p);
      var l, r := UnlinkChildren(p);
      SetAtFacts(t, p, Node(Nil, n.data, Nil));
      SetAtTwice(t, p, Node(Nil, n.data, Nil), Nil);
      DoDestroy(p);
      var _ := DoInsert(l);
      var _ := DoInsert(r);
    }

    /** binary_tree_remove: delete at the slot find reaches for k. */
    method Remove(k: Bytes) returns (removed: bool)
      requires Valid()
      modifies this
      ensures Valid()
      ensures root == DeleteAt(compare, old(root), FindPath(compare, old(root), k))
      ensures removed <==> Contains(compare, old(root), k)
      ensures !Contains(compare, root, k)
      ensures !removed ==> root == old(root) && size == old(size) && destroyed == old(destroyed)
      ensures removed ==>
        && size == old(size) - 1
        && destroyed == old(destroyed) + [old(At(root, FindPath(compare, root, k))).data]
    {
      var p := Find(k);
      CountAt(root, p);
      RemoveKeyAbsent(compare, root, k);
      removed := Delete(p);
    }

    /**
     * binary_tree_replace: when k is absent, insert it; when present, destroy
     * the node holding the equal key and put a new node holding k, with the
     * old node's children, in its slot.
     */
    method Replace(k: Bytes) returns (replaced: bool)
      requires Valid()
      modifies this
      ensures Valid()
      ensures root == ReplaceKey(compare, old(root), k)
      ensures replaced <==> Contains(compare, old(root), k)
      ensures replaced <==> old(At(root, FindPath(compare, root, k))).Node?
      ensures !replaced ==> size == old(size) + 1 && destroyed == old(destroyed)
      ensures replaced ==>
        var i := old(NodeIndex(root, FindPath(compare, root, k)));
        && size == old(size)
        && compare(k, old(InOrder(root))[i]) == 0
        && destroyed == old(destroyed) + [old(InOrder(root))[i]]
        && InOrder(root) == old(InOrder(root))[i := k]
    {
      ghost var t := root;
      FindPathFinds(compare, t, k);
      ReplaceKeyInOrder(compare, t, k);
      var p, isNew := Insert(k);
      if isNew {
        return false;
      }
      var n := At(root, p);
      CountAt(t, p);
      var l, r := UnlinkChildren(p);
      SetAtFacts(t, p, Node(Nil, n.data, Nil));
      SortedUnlinkChildren(compare, t, p);
      SetAtTwice(t, p, Node(Nil, n.data, Nil), Nil);
      var _ := Delete(p);
      SetAtTwice(t, p, Nil, Node(l, k, r));
      Relink(p, k, l, r);
      replaced := true;
    }

    /** binary_tree_replace as written: the same links, but set_node counts the NULL children too. */
    method ReplaceAsWritten(k: Bytes) returns (replaced: bool)
      requires Valid()
      modifies this
      ensures root == ReplaceKey(compare, old(root), k)
      ensures replaced <==> Contains(compare, old(root), k)
      ensures replaced <==> old(At(root, FindPath(compare, root, k))).Node?
      ensures !replaced ==> size == old(size) + 1
      ensures replaced ==> size == ReplacedSizeAsWritten(old(size), old(At(root, FindPath(compare, root, k))))
    {
      ghost var t := root;
      FindPathFinds(compare, t, k);
      var p, isNew := Insert(k);
      if isNew {
        return false;
      }
      var n := At(root, p);
      CountAt(t, p);
      var l, r := UnlinkChildren(p);
      SetAtFacts(t, p, Node(Nil, n.data, Nil));
      SortedUnlinkChildren(compare, t, p);
      SetAtTwice(t, p, Node(Nil, n.data, Nil), Nil);
      var _ := Delete(p);
      SetAtTwice(t, p, Nil, Node(l, k, r));
      RelinkAsWritten(p, k, l, r);
      replaced := true;
    }

    /** binary_tree_get: the payload of the node with an equal key, and its length. */
    method Get(k: Bytes) returns (data: Option<Bytes>, length: nat)
      requires Valid()
      ensures data.None? <==> !Contains(compare, root, k)
      ensures data.None? ==> length == 0
      ensures data.Some? ==> data.value in InOrder(root) && compare(k, data.value) == 0 && length == |data.value|
    {
      var p := Find(k);
      data, length := NodeData(root, Some(p)).0, NodeData(root, Some(p)).1;
      if data.Some? {
        AtDataInOrder(root, p);
      }
    }

    /** binary_tree_min_node: the last slot on the all-left chain that holds a node; NULL when empty. */
    method MinNode() returns (p: Option<Path>)
      ensures p.None? <==> root.Nil?
      ensures p.Some? ==> IsSlot(root, p.value) && At(root, p.value).Node? && NodeIndex(root, p.value) == 0
    {
      p := None;
      var q: Path := [];
      while At(root, q).Node?
        invariant IsSlot(root, q) && Before(root, q) == []
        invariant p.None? <==> q == []
        invariant p.Some? ==>
          && IsSlot(root, p.value) && At(root, p.value).Node?
          && Before(root, p.value) == [] && At(root, q) == At(root, p.value).left
        decreases At(root, q)
      {
        p := Some(q);
        SlotStepAround(root, q);
        SlotStep(root, q, false);
        q := q + [false];
      }
    }

    /** binary_tree_max_node: the last slot on the all-right chain that holds a node; NULL when empty. */
    method MaxNode() returns (p: Option<Path>)
      ensures p.None? <==> root.Nil?
      ensures p.Some? ==> IsSlot(root, p.value) && At(root, p.value).Node? && NodeIndex(root, p.value) == |InOrder(root)| - 1
    {
      p := None;
      var q: Path := [];
      while At(root, q).Node?
        invariant IsSlot(root, q) && After(root, q) == []
        invariant p.None? <==> q == []
        invariant p.Some? ==>
          && IsSlot(root, p.value) && At(root, p.value).Node?
          && After(root, p.value) == [] && At(root, q) == At(root, p.value).right
        decreases At(root, q)
      {
        p := Some(q);
        SlotStepAround(root, q);
        SlotStep(root, q, true);
        q := q + [true];
      }
      if p.Some? {
        ghost var i := NodeIndex(root, p.value);
        assert |InOrder(root)[i + 1..]| == 0;
      }
    }

    /** binary_tree_min: the least payload; none when the tree is empty. */
    method Min() returns (data: Option<Bytes>, length: nat)
      requires Valid()
      ensures data.None? <==> root.Nil?
      ensures data.None? ==> length == 0
      ensures data.Some? ==> InOrder(root) != [] && data.value == InOrder(root)[0] && length == |data.value|
      ensures data.Some? ==> forall i | 0 < i < |InOrder(root)| :: compare(data.value, InOrder(root)[i]) < 0
    {
      var p := MinNode();
      data, length := NodeData(root, p).0, NodeData(root, p).1;
      forall i | 0 < i < |InOrder(root)| ensures compare(InOrder(root)[0], InOrder(root)[i]) < 0 {
        SortedAt(compare, InOrder(root), 0, i);
      }
    }

    /**
     * binary_tree_min as written: node_data on the slot min_node returns,
     * which on an empty tree is NULL and is dereferenced (None).
     */
    method MinAsWritten() returns (r: Option<(Option<Bytes>, nat)>)
      ensures r.None? <==> root.Nil?
      ensures r.Some? ==> InOrder(root) != [] && r.value == (Some(InOrder(root)[0]), |InOrder(root)[0]|)
    {
      var p := MinNode();
      r := NodeDataAsWritten(root, p);
    }

    /**
     * binary_tree_max as written: node_data on the slot max_node returns,
     * which on an empty tree is NULL and is dereferenced (None).
     */
    method MaxAsWritten() returns (r: Option<(Option<Bytes>, nat)>)
      ensures r.None? <==> root.Nil?
      ensures r.Some? ==> InOrder(root) != []
      ensures r.Some? ==> r.value == (Some(InOrder(root)[|InOrder(root)| - 1]), |InOrder(root)[|InOrder(root)| - 1]|)
    {
      var p := MaxNode();
      r := NodeDataAsWritten(root, p);
    }

    /** binary_tree_max: the greatest payload; none when the tree is empty. */
    method Max() returns (data: Option<Bytes>, length: nat)
      requires Valid()
      ensures data.None? <==> root.Nil?
      ensures data.None? ==> length == 0
      ensures data.Some? ==> InOrder(root) != [] && data.value == InOrder(root)[|InOrder(root)| - 1] && length == |data.value|
      ensures data.Some? ==> forall i | 0 <= i < |InOrder(root)| - 1 :: compare(InOrder(root)[i], data.value) < 0
    {
      var p := MaxNode();
      data, length := NodeData(root, p).0, NodeData(root, p).1;
      var last := |InOrder(root)| - 1;
      forall i | 0 <= i < last ensures compare(InOrder(root)[i], InOrder(root)[last]) < 0 {
        SortedAt(compare, InOrder(root), i, last);
      }
    }

    /** binary_tree_each: visit payloads in order until a visit returns non-NULL, and return that. */
    function Each<R>(visit: Bytes -> Option<R>): (r: Option<R>)
      reads this
      ensures r == FirstSome(InOrder(root), visit)
    {
      RecurseIter(root, visit)
    }

    /** prune: destroy everything below the slot, children before parents, and empty it. */
    method Prune(p: Path) returns (pruned: bool)
      requires IsSlot(root, p) && size >= Count(At(root, p))
      modifies this
      ensures pruned <==> old(At(root, p)).Node?
      ensures root == SetAt(old(root), p, Nil)
      ensures size == old(size) - Count(old(At(root, p)))
      ensures destroyed == old(destroyed) + PostOrder(old(At(root, p)))
      decreases At(root, p)
    {
      var n := At(root, p);
      if n.Nil? {
        SetAtSame(root, p);
        return false;
      }
      ghost var t, d0 := root, destroyed;
      ghost var n1 := Node(Nil, n.data, n.right);
      ghost var n2 := Node(Nil, n.data, Nil);
      SetChild(t, p, false, Nil);
      SlotStep(t, p, false);
      var _ := Prune(p + [false]);
      SetAtFacts(t, p, n1);
      SetChild(root, p, true, Nil);
      SlotStep(root, p, true);
      SetAtTwice(t, p, n1, n2);
      var _ := Prune(p + [true]);
      SetAtFacts(t, p, n2);
      SetAtTwice(t, p, n2, Nil);
      DoDestroy(p);
      ghost var l, r := PostOrder(n.left), PostOrder(n.right);
      Assoc(d0 + l, r, [n.data]);
      Assoc(d0, l, r + [n.data]);
      Assoc(l, r, [n.data]);
      pruned := true;
    }

    /** binary_tree_clear: destroy every node, in post-order. */
    method Clear()
      requires Valid()
      modifies this
      ensures Valid() && root == Nil && size == 0
      ensures destroyed == old(destroyed) + PostOrder(old(root))
    {
      var _ := Prune([]);
    }

    /** binary_tree_destroy: the same as clear. */
    method Destroy()
      requires Valid()
      modifies this
      ensures Valid() && root == Nil && size == 0
      ensures destroyed == old(destroyed) + PostOrder(old(root))
    {
      var _ := Prune([]);
    }
  }
}
