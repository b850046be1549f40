/**
 * linked_list.c: a circular doubly-linked list reached through a pointer to
 * its head (NULL when empty). The ring is modelled as the sequence of its
 * items read from the head along `next`: `prev` of the head is the last
 * element, so inserting before the head appends to the sequence. Each item
 * is an object of its own, so "which item" is a question of identity.
 */
module LinkedList {
  import opened Wrappers
  import opened Comparator
  import opened Sequences

  /** struct list: one ring element; its payload is copied in when it is made. */
  class Item {
    const data: Bytes

    /** item_alloc */
    constructor (data: Bytes)
      ensures this.data == data
    {
      this.data := data;
    }
  }

  /** The payloads of a run of items, in order. */
  function Datas(s: seq<Item>): seq<Bytes>
  {
    if s == [] then [] else Datas(s[..|s| - 1]) + [s[|s| - 1].data]
  }

  lemma DatasAppend(s: seq<Item>, x: Item)
    ensures Datas(s + [x]) == Datas(s) + [x.data]
  {
    assert (s + [x])[..|s|] == s;
  }

  /** The ring after item_insert_after: the new item follows the head, or is the whole ring. */
  function InsertedAfter(s: seq<Item>, x: Item): seq<Item>
  {
    if s == [] then [x] else [s[0], x] + s[1..]
  }

  /** The ring after item_insert_before: the new item sits before the head, i.e. last. */
  function InsertedBefore(s: seq<Item>, x: Item): seq<Item>
  {
    s + [x]
  }

  /**
   * Inserting after the head keeps the ring free of repeats, keeps the head
   * (or makes the item the head of an empty ring), and removing the item
   * again gives back the ring as it was.
   */
  lemma InsertedAfterUndone(s: seq<Item>, x: Item)
    requires Distinct(s) && x !in s
    ensures Distinct(InsertedAfter(s, x)) && |InsertedAfter(s, x)| == |s| + 1
    ensures InsertedAfter(s, x)[0] == if s == [] then x else s[0]
    ensures RemoveAt(InsertedAfter(s, x), IndexOf(InsertedAfter(s, x), x)) == s
  {
    var r := InsertedAfter(s, x);
    if s == [] {
      assert IndexOf(r, x) == 0;
    } else {
      assert r[1] == x;
      // position j of r holds s[0], x, then s[j - 1]
      forall a, b | 0 <= a < b < |r| ensures At(r, a) != At(r, b) {
        if a != 1 && b != 1 {
          DistinctAt(s, if a == 0 then 0 else a - 1, b - 1);
        } else if a == 1 {
          assert r[b] == s[b - 1];
        } else {
          assert r[a] == s[0];
        }
      }
      IndexOfDistinct(r, 1);
      assert RemoveAt(r, 1) == [s[0]] + s[1..];
    }
  }

  /**
   * Inserting before the head keeps the ring free of repeats, keeps the head,
   * puts the item last, and removing the item again gives back the ring.
   */
  lemma InsertedBeforeUndone(s: seq<Item>, x: Item)
    requires Distinct(s) && x !in s
    ensures Distinct(InsertedBefore(s, x)) && InsertedBefore(s, x)[|s|] == x
    ensures s != [] ==> InsertedBefore(s, x)[0] == s[0]
    ensures RemoveAt(InsertedBefore(s, x), IndexOf(InsertedBefore(s, x), x)) == s
  {
    var r := InsertedBefore(s, x);
    DistinctAppend(s, x);
    IndexOfDistinct(r, |s|);
    assert RemoveAt(r, |s|) == s;
  }

  /** The ring read from position i: what a walk from that item visits, in order. */
  function Ring(s: seq<Item>, i: nat): seq<Item>
    requires i <= |s|
  {
    s[i..] + s[..i]
  }

  /** A walk round the ring from any item visits every item once: the same items, reordered. */
  lemma RingPermutes(s: seq<Item>, i: nat)
    requires i <= |s|
    ensures |Ring(s, i)| == |s| && multiset(Ring(s, i)) == multiset(s)
    ensures forall x :: x in Ring(s, i) <==> x in s
  {
    assert s == s[..i] + s[i..];
  }

  /** Position c of a walk from position i is position i + c of the ring, wrapping round. */
  lemma RingAt(s: seq<Item>, i: nat, c: nat)
    requires i <= |s| && c < |s|
    ensures |Ring(s, i)| == |s| && Ring(s, i)[c] == s[if i + c < |s| then i + c else i + c - |s|]
  {
  }

  /** Every item of the ring is met on a walk from position i. */
  lemma RingFind(s: seq<Item>, i: nat, j: nat) returns (c: nat)
    requires i <= |s| && j < |s|
    ensures c < |Ring(s, i)| && Ring(s, i)[c] == s[j]
  {
    c := if j >= i then j - i else j + |s| - i;
    RingAt(s, i, c);
  }

  /** The position of the first item whose payload satisfies pred; |s| when there is none. */
  function FirstWhere(s: seq<Item>, pred: Bytes -> bool): (c: nat)
    ensures c <= |s|
    ensures c < |s| ==> pred(s[c].data)
    ensures forall j | 0 <= j < c :: !pred(s[j].data)
  {
    if s == [] then 0 else if pred(s[0].data) then 0 else 1 + FirstWhere(s[1..], pred)
  }

  /** The accumulated state of a stateful iterator called on each payload in turn. */
  function Fold<S>(ds: seq<Bytes>, cb: (S, Bytes) -> S, state: S): S
  {
    if ds == [] then state else Fold(ds[1..], cb, cb(state, ds[0]))
  }

  /** A fold over two runs is the fold over the second, started from the fold over the first. */
  lemma {:induction false} FoldConcat<S>(a: seq<Bytes>, b: seq<Bytes>, cb: (S, Bytes) -> S, state: S)
    ensures Fold(a + b, cb, state) == Fold(b, cb, Fold(a, cb, state))
  {
    if a == [] {
      assert a + b == b;
    } else {
      assert (a + b)[0] == a[0] && (a + b)[1..] == a[1..] + b;
      FoldConcat(a[1..], b, cb, cb(state, a[0]));
    }
  }

  /**
   * The payloads a transformer appends to the output list, one call per
   * input payload in order (the callback inserting each of them before the
   * output's head).
   */
  function Expand(ds: seq<Bytes>, cb: Bytes -> seq<Bytes>): seq<Bytes>
  {
    if ds == [] then [] else Expand(ds[..|ds| - 1], cb) + cb(ds[|ds| - 1])
  }

  lemma ExpandStep(ds: seq<Bytes>, n: nat, cb: Bytes -> seq<Bytes>)
    requires n < |ds|
    ensures Expand(ds[..n + 1], cb) == Expand(ds[..n], cb) + cb(ds[n])
  {
    assert ds[..n + 1][..n] == ds[..n];
  }

  /** A transformer that passes each payload through unchanged copies the list. */
  lemma {:induction false} ExpandCopies(ds: seq<Bytes>, cb: Bytes -> seq<Bytes>)
    requires forall d :: cb(d) == [d]
    ensures Expand(ds, cb) == ds
  {
    if ds != [] {
      var n := |ds| - 1;
      ExpandCopies(ds[..n], cb);
      ExpandStep(ds, n, cb);
      assert ds[..n + 1] == ds && ds[..n] + [ds[n]] == ds;
    }
  }

  /** A transformer that drops every payload yields an empty list. */
  lemma {:induction false} ExpandDrops(ds: seq<Bytes>, cb: Bytes -> seq<Bytes>)
    requires forall d :: cb(d) == []
    ensures Expand(ds, cb) == []
  {
    if ds != [] {
      ExpandDrops(ds[..|ds| - 1], cb);
    }
  }

  /** The items whose payload satisfies pred, in their original order. */
  function Kept(s: seq<Item>, pred: Bytes -> bool): seq<Item>
  {
    if s == [] then []
    else Kept(s[..|s| - 1], pred) + (if pred(s[|s| - 1].data) then [s[|s| - 1]] else [])
  }

  /** The items whose payload fails pred, in their original order. */
  function Dropped(s: seq<Item>, pred: Bytes -> bool): seq<Item>
  {
    if s == [] then []
    else Dropped(s[..|s| - 1], pred) + (if pred(s[|s| - 1].data) then [] else [s[|s| - 1]])
  }

  /** An item is kept exactly when it is in the list and its payload satisfies pred. */
  lemma {:induction false} KeptMember(s: seq<Item>, pred: Bytes -> bool, x: Item)
    ensures x in Kept(s, pred) <==> x in s && pred(x.data)
  {
    if s != [] {
      KeptMember(s[..|s| - 1], pred, x);
      assert s == s[..|s| - 1] + [s[|s| - 1]];
    }
  }

  /** When every payload passes, filtering keeps everything and drops nothing. */
  lemma {:induction false} KeptPasses(s: seq<Item>, pred: Bytes -> bool)
    requires forall x | x in s :: pred(x.data)
    ensures Kept(s, pred) == s && Dropped(s, pred) == []
  {
    if s != [] {
      assert s == s[..|s| - 1] + [s[|s| - 1]];
      KeptPasses(s[..|s| - 1], pred);
    }
  }

  /** Every item is either kept or dropped. */
  lemma {:induction false} KeptDroppedCount(s: seq<Item>, pred: Bytes -> bool)
    ensures |Kept(s, pred)| + |Dropped(s, pred)| == |s|
  {
    if s != [] {
      KeptDroppedCount(s[..|s| - 1], pred);
    }
  }

  /** Filtering twice with the same predicate removes nothing more. */
  lemma KeptIdempotent(s: seq<Item>, pred: Bytes -> bool)
    ensures Kept(Kept(s, pred), pred) == Kept(s, pred) && Dropped(Kept(s, pred), pred) == []
  {
    forall x | x in Kept(s, pred)
      ensures pred(x.data)
    {
      KeptMember(s, pred, x);
    }
    KeptPasses(Kept(s, pred), pred);
  }

  /** A pass starts with nothing examined and ends with everything examined. */
  lemma PassBounds(o: seq<Item>, pred: Bytes -> bool)
    ensures o[..0] == [] && Kept(o[..0], pred) + o[0..] == o && Dropped(o[..0], pred) == []
    ensures Kept(o[..|o|], pred) + o[|o|..] == Kept(o, pred) && Dropped(o[..|o|], pred) == Dropped(o, pred)
  {
    assert o[..|o|] == o && Kept(o, pred) + [] == Kept(o, pred);
  }

  /** One more item processed by a single pass of filter. */
  lemma FilterStep(s: seq<Item>, p: nat, pred: Bytes -> bool)
    requires p < |s|
    ensures Kept(s[..p + 1], pred) == Kept(s[..p], pred) + (if pred(s[p].data) then [s[p]] else [])
    ensures pred(s[p].data) ==> Dropped(s[..p + 1], pred) == Dropped(s[..p], pred)
    ensures !pred(s[p].data) ==> Dropped(s[..p + 1], pred) == Dropped(s[..p], pred) + [s[p]]
    ensures (Kept(s[..p], pred) + s[p..])[|Kept(s[..p], pred)|] == s[p]
    ensures |Kept(s[..p + 1], pred)| == |Kept(s[..p], pred)| + if pred(s[p].data) then 1 else 0
    ensures Kept(s[..p + 1], pred) + s[p + 1..] ==
      if pred(s[p].data) then Kept(s[..p], pred) + s[p..]
      else RemoveAt(Kept(s[..p], pred) + s[p..], |Kept(s[..p], pred)|)
  {
    assert s[..p + 1][..p] == s[..p];
    var k := Kept(s[..p], pred);
    assert (k + s[p..])[|k| + 1..] == s[p + 1..];
    assert s[p..] == [s[p]] + s[p + 1..];
    assert k + s[p..] == k + [s[p]] + s[p + 1..];
  }

  /**
   * The number of predicate calls list_filter_s makes as written. After the
   * last ring item is removed, `item` has come round to the head and the
   * loop goes on, because `remove` is still set: every survivor is examined a
   * second time.
   */
  function FilterCallsAsWritten(s: seq<Item>, pred: Bytes -> bool): nat
  {
    |s| + (if s != [] && Kept(s, pred) != [] && !pred(s[|s| - 1].data) then |Kept(s, pred)| else 0)
  }

  /** A ring of three payloads whose last alone is rejected: five predicate calls, not three. */
  lemma FilterSecondLapExample(a: Item, b: Item, c: Item)
    requires a.data == [1] && b.data == [2] && c.data == [3]
    ensures FilterCallsAsWritten([a, b, c], d => d != [3]) == 5
  {
    var pred := (d: Bytes) => d != [3];
    assert [a, b, c][..2] == [a, b] && [a, b][..1] == [a] && [a][..0] == [];
    assert pred(a.data) && pred(b.data) && !pred(c.data) by {
      assert a.data[0] != 3 && b.data[0] != 3;
    }
    assert Kept([a], pred) == [a];
    assert Kept([a, b], pred) == [a, b];
    assert Kept([a, b, c], pred) == [a, b];
  }

  /**
   * Part way through a filtering pass over o: the first q items have been
   * examined, k of them kept (and left in order at the front), those that
   * failed freed after f, and the rest not yet touched.
   */
  ghost predicate InPass(items: seq<Item>, freed: seq<Item>, o: seq<Item>, q: nat, f: seq<Item>, k: nat,
                         pred: Bytes -> bool)
  {
    && q <= |o| && items == Kept(o[..q], pred) + o[q..] && k == |Kept(o[..q], pred)|
    && |items| == k + |o| - q && freed == f + Dropped(o[..q], pred)
  }

  /**
   * The state of list_filter_s's loop, seen as a pass over o that has
   * examined its first q items: a pass over the original ring orig, and then
   * (lap2) a pass over its survivors when the last item of the ring was
   * removed. calls counts the predicate's invocations so far, removed the
   * items removed.
   */
  ghost predicate FilterLoop(items: seq<Item>, freed: seq<Item>, orig: seq<Item>, f0: seq<Item>,
                             o: seq<Item>, q: nat, f: seq<Item>, lap2: bool,
                             k: nat, calls: nat, removed: nat, pred: Bytes -> bool)
  {
    && orig != [] && InPass(items, freed, o, q, f, k, pred)
    && (!lap2 ==> o == orig && f == f0 && calls == q && removed == q - k)
    && (lap2 ==>
          && o == Kept(orig, pred) && o != [] && f == f0 + Dropped(orig, pred) && q == k
          && calls == |orig| + k && !pred(orig[|orig| - 1].data) && removed == |orig| - |o|)
  }

  /**
   * Where list_filter_s stops: at the end of a pass, when the list is NULL
   * or the last item examined was kept. Then exactly the items that pass are
   * left, in order, and the predicate has been called once per item plus,
   * when the last item of the ring was removed, once more per survivor.
   */
  lemma FilterLoopEnd(items: seq<Item>, freed: seq<Item>, orig: seq<Item>, f0: seq<Item>,
                      o: seq<Item>, f: seq<Item>, lap2: bool, k: nat, calls: nat, removed: nat,
                      pred: Bytes -> bool)
    requires FilterLoop(items, freed, orig, f0, o, |o|, f, lap2, k, calls, removed, pred)
    requires items == [] || lap2 || pred(orig[|orig| - 1].data)
    ensures items == Kept(orig, pred) && freed == f0 + Dropped(orig, pred)
    ensures removed == |orig| - |items| && calls == FilterCallsAsWritten(orig, pred)
  {
    PassBounds(o, pred);
    if lap2 {
      KeptIdempotent(orig, pred);
      assert items == o && freed == f + [];
    }
  }

  /**
   * Where list_filter_s goes on past the end of the ring: the last item was
   * removed and some survive, so `item` is the head again and a second pass
   * over the survivors begins.
   */
  lemma FilterLoopSecondLap(items: seq<Item>, freed: seq<Item>, orig: seq<Item>, f0: seq<Item>,
                            k: nat, calls: nat, removed: nat, pred: Bytes -> bool)
    requires FilterLoop(items, freed, orig, f0, orig, |orig|, f0, false, k, calls, removed, pred)
    requires items != [] && !pred(orig[|orig| - 1].data)
    ensures Kept(orig, pred) != []
    ensures FilterLoop(items, freed, orig, f0, Kept(orig, pred), 0, f0 + Dropped(orig, pred), true,
                       0, calls, removed, pred)
  {
    PassBounds(orig, pred);
    PassBounds(Kept(orig, pred), pred);
    assert freed == f0 + Dropped(orig, pred) + [];
  }

  /** struct list **: the handle to a ring, its head first; an empty sequence is NULL. */
  class List {
    var items: seq<Item>
    /** The items handed to free, in order. */
    ghost var freed: seq<Item>

    /** A ring links each item in exactly one place. */
    ghost predicate Valid()
      reads this
    {
      Distinct(items)
    }

    /** A NULL head: the empty list. */
    constructor ()
      ensures Valid() && items == [] && freed == []
    {
      items := [];
      freed := [];
    }

    /** list_empty as written: true when the head is NOT NULL. */
    function EmptyAsWritten(): (e: bool)
      reads this
      ensures e <==> items != []
    {
      items != []
    }

    /** list_empty as its name and the header intend: true when the head is NULL. */
    function Empty(): (e: bool)
      reads this
      ensures e <==> items == []
    {
      items == []
    }

    /** list_length: walk round the ring from the head counting items; 0 for NULL. */
    method Length() returns (n: nat)
      requires Valid()
      ensures n == |items|
    {
      if items == [] {
        return 0;
      }
      n := 0;
      var k := 0;
      while true
        invariant n < |items| && k == n
        decreases |items| - n
      {
        n := n + 1;
        k := if k + 1 == |items| then 0 else k + 1;
        if k == 0 {
          break;
        }
      }
    }

    /** item_insert_after: link an item in right after the head (or as the only item). */
    method ItemInsertAfter(item: Item)
      requires Valid() && item !in items
      modifies this
      ensures Valid() && freed == old(freed)
      ensures items == InsertedAfter(old(items), item)
    {
      InsertedAfterUndone(items, item);
      if items == [] {
        items := [item];
      } else {
        items := [items[0], item] + items[1..];
      }
    }

    /** item_insert_before: link an item in just before the head, i.e. at the end. */
    method ItemInsertBefore(item: Item)
      requires Valid() && item !in items
      modifies this
      ensures Valid() && freed == old(freed)
      ensures items == InsertedBefore(old(items), item)
    {
      InsertedBeforeUndone(items, item);
      items := items + [item];
    }

    /** list_insert_after: a new item holding a copy of data, right after the head. */
    method InsertAfter(data: Bytes) returns (item: Item)
      requires Valid()
      modifies this
      ensures Valid() && fresh(item) && item.data == data && freed == old(freed)
      ensures items == InsertedAfter(old(items), item)
    {
      item := new Item(data);
      ItemInsertAfter(item);
    }

    /** list_insert_before: a new item holding a copy of data, at the end of the ring. */
    method InsertBefore(data: Bytes) returns (item: Item)
      requires Valid()
      modifies this
      ensures Valid() && fresh(item) && item.data == data && freed == old(freed)
      ensures items == InsertedBefore(old(items), item)
    {
      item := new Item(data);
      ItemInsertBefore(item);
    }

    /**
     * item_remove: unlink an item, keeping the others in ring order; the head
     * becomes NULL when the item was alone and moves to the next item when the
     * item was the head.
     */
    method ItemRemove(item: Item)
      requires Valid() && item in items
      modifies this
      ensures Valid() && freed == old(freed)
      ensures items == RemoveAt(old(items), IndexOf(old(items), item))
      ensures item !in items && |items| == |old(items)| - 1
      ensures items == [] <==> old(items) == [item]
      ensures old(items)[0] == item && items != [] ==> items[0] == old(items)[1]
      ensures old(items)[0] != item ==> items[0] == old(items)[0]
    {
      var i := IndexOf(items, item);
      RemoveAtDistinct(items, i);
      items := RemoveAt(items, i);
    }

    /** list_remove: unlink an item and free it. */
    method Remove(item: Item)
      requires Valid() && item in items
      modifies this
      ensures Valid() && freed == old(freed) + [item]
      ensures items == RemoveAt(old(items), IndexOf(old(items), item))
      ensures item !in items && |items| == |old(items)| - 1
    {
      ItemRemove(item);
      freed := freed + [item];
    }

    /** list_destroy: remove the head until the list is NULL; every item is freed in ring order. */
    method Destroy()
      requires Valid()
      modifies this
      ensures Valid() && items == []
      ensures freed == old(freed) + old(items)
    {
      ghost var c := 0;
      while items != []
        invariant Valid() && c <= |old(items)|
        invariant items == old(items)[c..] && freed == old(freed) + old(items)[..c]
        decreases |items|
      {
        assert old(items)[..c + 1] == old(items)[..c] + [items[0]];
        IndexOfDistinct(items, 0);
        Remove(items[0]);
        c := c + 1;
      }
      assert old(items)[..c] == old(items);
    }

    /** list_concatenate: move every item of other, in order, to the end of this list; other becomes NULL. */
    method Concatenate(other: List)
      requires Valid() && other.Valid() && other != this
      requires forall x | x in other.items :: x !in items
      modifies this, other
      ensures Valid() && other.Valid()
      ensures items == old(items) + old(other.items) && other.items == []
      ensures freed == old(freed) && other.freed == old(other.freed)
    {
      ghost var moved := 0;
      ghost var theirs := other.items;
      while other.items != []
        invariant Valid() && other.Valid()
        invariant moved <= |old(other.items)|
        invariant items == old(items) + old(other.items)[..moved]
        invariant other.items == old(other.items)[moved..]
        invariant freed == old(freed) && other.freed == old(other.freed)
        decreases |other.items|
      {
        var x := other.items[0];
        assert x in old(other.items) && x !in old(items);
        assert x !in theirs[..moved] by {
          forall j | 0 <= j < moved ensures theirs[j] != x {
            DistinctAt(theirs, j, moved);
          }
        }
        other.ItemRemove(x);
        ItemInsertBefore(x);
        assert old(other.items)[..moved + 1] == old(other.items)[..moved] + [x];
        moved := moved + 1;
      }
    }

    /**
     * list_each_s: call cb on each payload round the ring from start, threading
     * the state through; returns the number of calls. A NULL start does nothing.
     */
    method EachS<S>(start: Option<Item>, cb: (S, Bytes) -> S, state: S) returns (count: nat, final: S)
      requires Valid()
      requires start.Some? ==> start.value in items
      ensures start.None? ==> count == 0 && final == state
      ensures start.Some? ==>
        && count == |items|
        && final == Fold(Datas(Ring(items, IndexOf(items, start.value))), cb, state)
    {
      if start.None? {
        return 0, state;
      }
      var i := IndexOf(items, start.value);
      ghost var r := Ring(items, i);
      ghost var ds := Datas(r);
      DatasAt(r, 0);
      var k := i;
      count, final := 0, state;
      while true
        invariant count < |items| && k == if i + count < |items| then i + count else i + count - |items|
        invariant Fold(ds[count..], cb, final) == Fold(ds, cb, state)
        decreases |items| - count
      {
        RingAt(items, i, count);
        DatasAt(r, count);
        assert ds[count..][1..] == ds[count + 1..];
        final := cb(final, items[k].data);
        k := if k + 1 == |items| then 0 else k + 1;
        count := count + 1;
        if k == i {
          break;
        }
      }
    }

    /**
     * list_first_s: the first item round the ring from start whose payload
     * satisfies pred; NULL when none does or start is NULL.
     */
    method FirstS(start: Option<Item>, pred: Bytes -> bool) returns (r: Option<Item>)
      requires Valid()
      requires start.Some? ==> start.value in items
      ensures start.None? ==> r.None?
      ensures start.Some? ==>
        var ring := Ring(items, IndexOf(items, start.value));
        var c := FirstWhere(ring, pred);
        r == if c < |ring| then Some(ring[c]) else None
      ensures start.Some? ==> (r.None? <==> forall x | x in items :: !pred(x.data))
      ensures r.Some? ==> r.value in items && pred(r.value.data)
    {
      if start.None? {
        return None;
      }
      var i := IndexOf(items, start.value);
      ghost var ring := Ring(items, i);
      var k := i;
      var count := 0;
      while true
        invariant count < |items| && k == if i + count < |items| then i + count else i + count - |items|
        invariant forall j | 0 <= j < count :: !pred(ring[j].data)
        decreases |items| - count
      {
        RingAt(items, i, count);
        if pred(items[k].data) {
          return Some(items[k]);
        }
        k := if k + 1 == |items| then 0 else k + 1;
        count := count + 1;
        if k == i {
          break;
        }
      }
      assert forall x | x in items :: !pred(x.data) by {
        forall x | x in items ensures !pred(x.data) {
          var j :| 0 <= j < |items| && items[j] == x;
          var c := RingFind(items, i, j);
        }
      }
      return None;
    }

    /**
     * One test of list_filter_s's loop: call pred on the item at position k
     * and, when it fails, remove and free that item.
     */
    method Visit(k: nat, pred: Bytes -> bool) returns (remove: bool)
      requires Valid() && k < |items|
      modifies this
      ensures Valid()
      ensures remove == !pred(old(items)[k].data)
      ensures remove ==> items == RemoveAt(old(items), k) && freed == old(freed) + [old(items)[k]]
      ensures !remove ==> items == old(items) && freed == old(freed)
    {
      var item := items[k];
      remove := !pred(item.data);
      if remove {
        IndexOfDistinct(items, k);
        Remove(item);
      }
    }

    /** The same test, seen from a pass over o: the item examined is the q-th of o. */
    method VisitInPass(ghost o: seq<Item>, ghost q: nat, ghost f: seq<Item>, k: nat, pred: Bytes -> bool)
      returns (remove: bool)
      requires Valid() && InPass(items, freed, o, q, f, k, pred) && q < |o|
      modifies this
      ensures Valid() && remove == !pred(o[q].data)
      ensures InPass(items, freed, o, q + 1, f, if remove then k else k + 1, pred)
      ensures |items| == (if remove then k else k + 1) + |o| - q - 1
    {
      FilterStep(o, q, pred);
      ghost var d := Dropped(o[..q], pred);
      remove := Visit(k, pred);
      if remove {
        assert freed == f + (d + [o[q]]);
      }
    }

    /**
     * One turn of list_filter_s's loop within a pass: test the item, step to
     * its successor (the head's position when it was last), and decide
     * whether to go on: stop when the list is NULL, or when a kept item's
     * successor is the head.
     */
    method FilterTurn(ghost o: seq<Item>, ghost q: nat, ghost f: seq<Item>, k: nat, pred: Bytes -> bool)
      returns (remove: bool, next: nat, stop: bool)
      requires Valid() && InPass(items, freed, o, q, f, k, pred) && q < |o|
      modifies this
      ensures Valid() && remove == !pred(o[q].data)
      ensures InPass(items, freed, o, q + 1, f, if remove then k else k + 1, pred)
      ensures next == if q + 1 < |o| then (if remove then k else k + 1) else 0
      ensures stop <==> q + 1 == |o| && (items == [] || !remove)
    {
      remove := VisitInPass(o, q, f, k, pred);
      next := k;
      if remove {
        if next == |items| {
          next := 0;
        }
      } else {
        next := if next + 1 == |items| then 0 else next + 1;
      }
      stop := !(items != [] && (remove || next != 0));
    }

    /**
     * One turn of list_filter_s's loop as written (FilterTurn), seen from
     * the pass it belongs to: a second pass removes nothing, and the loop
     * stops at the end of a pass unless the last item of the ring was
     * removed and some survive.
     */
    method FilterAsWrittenTurn(ghost orig: seq<Item>, ghost f0: seq<Item>, ghost o: seq<Item>, ghost q: nat,
                               ghost f: seq<Item>, ghost lap2: bool, k: nat, calls: nat, removed: nat,
                               pred: Bytes -> bool)
      returns (next: nat, calls1: nat, removed1: nat, stop: bool, ghost kept: nat)
      requires Valid() && FilterLoop(items, freed, orig, f0, o, q, f, lap2, k, calls, removed, pred) && q < |o|
      modifies this
      ensures Valid() && FilterLoop(items, freed, orig, f0, o, q + 1, f, lap2, kept, calls1, removed1, pred)
      ensures next == if q + 1 < |o| then kept else 0
      ensures stop <==> q + 1 == |o| && (items == [] || lap2 || pred(orig[|orig| - 1].data))
    {
      if lap2 {
        KeptMember(orig, pred, o[q]);
      }
      var remove;
      remove, next, stop := FilterTurn(o, q, f, k, pred);
      kept := if remove then k else k + 1;
      calls1 := calls + 1;
      removed1 := if remove then removed + 1 else removed;
    }

    /**
     * list_filter_s as written: test each item, removing those that fail,
     * until the list is NULL or a kept item's successor is the head. It keeps
     * exactly the items that pass, in order, and returns how many it removed,
     * but when the last item of the ring is removed it tests every survivor a
     * second time (calls counts the predicate's invocations).
     */
    method FilterAsWritten(pred: Bytes -> bool) returns (removed: nat, calls: nat)
      requires Valid()
      modifies this
      ensures Valid()
      ensures items == Kept(old(items), pred) && freed == old(freed) + Dropped(old(items), pred)
      ensures removed == |old(items)| - |items|
      ensures calls == FilterCallsAsWritten(old(items), pred)
    {
      removed, calls := 0, 0;
      if items == [] {
        assert freed + [] == freed;
        return;
      }
      ghost var orig, f0 := items, freed;
      PassBounds(orig, pred);
      assert freed == f0 + [];
      ghost var o, q, f, lap2 := orig, 0, f0, false;
      var k := 0;
      while true
        invariant Valid() && FilterLoop(items, freed, orig, f0, o, q, f, lap2, k, calls, removed, pred) && q < |o|
        decreases (if lap2 then 0 else 1), |o| - q
      {
        var stop;
        ghost var kept;
        k, calls, removed, stop, kept := FilterAsWrittenTurn(orig, f0, o, q, f, lap2, k, calls, removed, pred);
        if stop {
          FilterLoopEnd(items, freed, orig, f0, o, f, lap2, kept, calls, removed, pred);
          break;
        }
        if q + 1 < |o| {
          q := q + 1;
        } else {
          FilterLoopSecondLap(items, freed, orig, f0, kept, calls, removed, pred);
          o, q, f, lap2 := Kept(orig, pred), 0, f0 + Dropped(orig, pred), true;
        }
      }
    }

    /**
     * list_filter_s with its loop bounded to one lap: the same effect, and
     * each item is examined exactly once.
     */
    method Filter(pred: Bytes -> bool) returns (removed: nat, calls: nat)
      requires Valid()
      modifies this
      ensures Valid()
      ensures items == Kept(old(items), pred) && freed == old(freed) + Dropped(old(items), pred)
      ensures removed == |old(items)| - |items|
      ensures calls == |old(items)|
    {
      ghost var orig, f0 := items, freed;
      var n := Length();
      removed, calls := 0, 0;
      var k := 0;
      PassBounds(orig, pred);
      assert freed == f0 + [];
      while calls < n
        invariant Valid() && n == |orig| && calls <= n && InPass(items, freed, orig, calls, f0, k, pred)
        invariant removed == calls - k
        decreases n - calls
      {
        var remove := VisitInPass(orig, calls, f0, k, pred);
        if remove {
          removed := removed + 1;
        } else {
          k := k + 1;
        }
        calls := calls + 1;
      }
      PassBounds(orig, pred);
    }

    /** The calls of a transformer on the output list: append new items holding ds, in order. */
    method AppendAll(ds: seq<Bytes>)
      requires Valid()
      modifies this
      ensures Valid() && freed == old(freed)
      ensures |items| == |old(items)| + |ds| && items[..|old(items)|] == old(items)
      ensures Datas(items) == Datas(old(items)) + ds
      ensures forall x | x in items && x !in old(items) :: fresh(x)
    {
      var j := 0;
      while j < |ds|
        invariant Valid() && freed == old(freed) && j <= |ds|
        invariant |items| == |old(items)| + j && items[..|old(items)|] == old(items)
        invariant Datas(items) == Datas(old(items)) + ds[..j]
        invariant forall x | x in items && x !in old(items) :: fresh(x)
        decreases |ds| - j
      {
        ghost var before := items;
        var item := InsertBefore(ds[j]);
        DatasAppend(before, item);
        assert ds[..j + 1] == ds[..j] + [ds[j]];
        assert items[..|before|] == before;
        j := j + 1;
      }
      assert ds[..j] == ds;
    }

    /**
     * list_map_s: a new list built by calling cb on each payload round the
     * ring from start, each call appending its payloads to the output; this
     * list is left as it was. A NULL start gives a NULL list.
     */
    method MapS(start: Option<Item>, cb: Bytes -> seq<Bytes>) returns (out: List)
      requires Valid()
      requires start.Some? ==> start.value in items
      ensures fresh(out) && out.Valid() && out.freed == []
      ensures start.None? ==> out.items == []
      ensures start.Some? ==> Datas(out.items) == Expand(Datas(Ring(items, IndexOf(items, start.value))), cb)
      ensures forall x | x in out.items :: fresh(x)
    {
      out := new List();
      if start.None? {
        return;
      }
      var ring := items;
      var i := IndexOf(ring, start.value);
      ghost var ds := Datas(Ring(ring, i));
      DatasAt(Ring(ring, i), 0);
      var k := i;
      var count := 0;
      while true
        invariant fresh(out) && out.Valid() && out.freed == []
        invariant count < |ring| && k == if i + count < |ring| then i + count else i + count - |ring|
        invariant Datas(out.items) == Expand(ds[..count], cb)
        invariant forall x | x in out.items :: fresh(x)
        decreases |ring| - count
      {
        RingAt(ring, i, count);
        DatasAt(Ring(ring, i), count);
        ExpandStep(ds, count, cb);
        out.AppendAll(cb(ring[k].data));
        k := if k + 1 == |ring| then 0 else k + 1;
        count := count + 1;
        if k == i {
          break;
        }
      }
      assert ds[..count] == ds;
    }

    /**
     * list_transform_s: call cb on each payload from the head, each call
     * appending its payloads to a new list, and remove and free each item as
     * it is done; the list becomes the new one. Returns the number of items
     * processed.
     */
    method TransformS(cb: Bytes -> seq<Bytes>) returns (count: nat)
      requires Valid()
      modifies this
      ensures Valid() && count == |old(items)|
      ensures Datas(items) == Expand(Datas(old(items)), cb)
      ensures freed == old(freed) + old(items)
      ensures forall x | x in items :: fresh(x)
    {
      var out := new List();
      count := 0;
      while items != []
        invariant Valid() && fresh(out) && out.Valid()
        invariant count <= |old(items)| && items == old(items)[count..]
        invariant Datas(out.items) == Expand(Datas(old(items)[..count]), cb)
        invariant freed == old(freed) + old(items)[..count]
        invariant forall x | x in out.items :: fresh(x)
        decreases |items|
      {
        var x := items[0];
        assert old(items)[..count + 1] == old(items)[..count] + [x];
        DatasAppend(old(items)[..count], x);
        out.AppendAll(cb(x.data));
        IndexOfDistinct(items, 0);
        Remove(x);
        count := count + 1;
      }
      assert old(items)[..count] == old(items);
      items := out.items;
    }
  }

  /** The payload sequence lines up with the items position by position. */
  lemma {:induction false} DatasAt(s: seq<Item>, j: nat)
    requires j < |s|
    ensures |Datas(s)| == |s| && Datas(s)[j] == s[j].data
  {
    if j < |s| - 1 {
      DatasAt(s[..|s| - 1], j);
    } else if j > 0 {
      DatasAt(s[..|s| - 1], 0);
    }
  }
}
