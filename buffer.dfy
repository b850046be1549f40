/**
 * buffer.c: a growable array of fixed-size items. `capacity` counts the
 * items the allocation holds and `length` the items in use; the allocation
 * is replaced, keeping its leading items, whenever the capacity changes.
 */
module Buffer {
  import opened Wrappers

  function Min(a: nat, b: nat): nat
  {
    if a < b then a else b
  }

  /**
   * buffer_realloc's new length as written: when the new capacity is below
   * the length, the length is set to the OLD capacity.
   */
  function ReallocLengthAsWritten(length: nat, oldCapacity: nat, capacity: nat): nat
  {
    if length > capacity then oldCapacity else length
  }

  /** Shrinking a buffer below its length leaves, as written, more items in use than allocated. */
  lemma ReallocShrinkOverruns(length: nat, oldCapacity: nat, capacity: nat)
    requires length <= oldCapacity && capacity < length
    ensures ReallocLengthAsWritten(length, oldCapacity, capacity) > capacity
    ensures Min(length, capacity) == capacity
  {
  }

  /** A buffer of 3 items in 4 slots, reallocated to 2, claims 4 items in 2 slots. */
  lemma ReallocShrinkExample()
    ensures ReallocLengthAsWritten(3, 4, 2) == 4
  {
  }

  class Buffer<T(0)> {
    var data: array<T>
    const itemSize: nat
    var length: nat
    var capacity: nat
    const allocby: nat
    ghost var Repr: set<object>

    ghost predicate Valid()
      reads this, Repr
    {
      Repr == {this, data} && capacity == data.Length && length <= capacity
    }

    /** The items in use, in index order. */
    ghost function Contents(): seq<T>
      reads this, Repr
      requires Valid()
    {
      data[..length]
    }

    /** buffer_init: no items, and room for `capacity` of them. */
    constructor (itemSize: nat, capacity: nat, allocby: nat)
      ensures Valid() && fresh(Repr)
      ensures Contents() == [] && this.capacity == capacity
      ensures this.itemSize == itemSize && this.allocby == allocby
    {
      data := new T[0];
      this.itemSize := itemSize;
      length := 0;
      this.capacity := 0;
      this.allocby := allocby;
      Repr := {this, data};
      new;
      Alloc(capacity);
    }

    /** buffer_alloc: grow to at least `minCapacity`; never shrink. */
    method Alloc(minCapacity: nat)
      requires Valid()
      modifies Repr
      ensures Valid() && fresh(Repr - old(Repr))
      ensures capacity == if minCapacity <= old(capacity) then old(capacity) else minCapacity
      ensures length == old(length) && Contents() == old(Contents())
      ensures data[..old(capacity)] == old(data[..capacity])
    {
      if minCapacity <= capacity {
        return;
      }
      Realloc(minCapacity);
    }

    /**
     * buffer_realloc: move to an allocation of exactly `capacity` items,
     * keeping the leading items; the length is cut to the new capacity.
     */
    method Realloc(capacity: nat)
      requires Valid()
      modifies Repr
      ensures Valid() && fresh(data) && Repr == {this, data}
      ensures this.capacity == capacity
      ensures length == Min(old(length), capacity)
      ensures Contents() == old(Contents())[..length]
      ensures data[..Min(old(this.capacity), capacity)] == old(data[..Min(this.capacity, capacity)])
    {
      if length > capacity {
        length := capacity;
      }
      var a := new T[capacity];
      var kept := Min(this.capacity, capacity);
      forall i | 0 <= i < kept {
        a[i] := data[i];
      }
      data := a;
      this.capacity := capacity;
      Repr := {this, data};
    }

    /**
     * buffer_resize: grow the allocation if needed and set the length. Items
     * kept from before stay; items past the old length are whatever the
     * allocation held.
     */
    method Resize(size: nat)
      requires Valid()
      modifies Repr
      ensures Valid() && fresh(Repr - old(Repr))
      ensures |Contents()| == size
      ensures size <= old(length) ==> Contents() == old(Contents())[..size]
      ensures size > old(length) ==> Contents()[..old(length)] == old(Contents())
      ensures capacity == if size <= old(capacity) then old(capacity) else size
    {
      Alloc(size);
      assert data[..old(length)] == data[..old(capacity)][..old(length)];
      length := size;
      assert Contents()[..Min(size, old(length))] == data[..Min(size, old(length))];
    }

    /** buffer_get: the item at `index`, or NULL past the length. */
    method Get(index: nat) returns (item: Option<T>)
      requires Valid()
      ensures item.Some? <==> index < |Contents()|
      ensures item.Some? ==> item.value == Contents()[index]
    {
      if index >= length {
        return None;
      }
      return Some(data[index]);
    }

    /** buffer_rget: the same as buffer_get, for a read-only buffer. */
    method RGet(index: nat) returns (item: Option<T>)
      requires Valid()
      ensures item.Some? <==> index < |Contents()|
      ensures item.Some? ==> item.value == Contents()[index]
    {
      item := Get(index);
    }

    /** buffer_head: the first item, or NULL when empty. */
    method Head() returns (item: Option<T>)
      requires Valid()
      ensures item.Some? <==> Contents() != []
      ensures item.Some? ==> item.value == Contents()[0]
    {
      if length == 0 {
        return None;
      }
      item := Get(0);
    }

    /** buffer_tail: the last item, or NULL when empty. */
    method Tail() returns (item: Option<T>)
      requires Valid()
      ensures item.Some? <==> Contents() != []
      ensures item.Some? ==> item.value == Contents()[|Contents()| - 1]
    {
      if length == 0 {
        return None;
      }
      item := Get(length - 1);
    }

    /**
     * buffer_push: append one item, growing a full buffer by
     * allocby * item_size items first. With no item given, the new slot
     * keeps whatever the allocation held.
     */
    method Push(item: Option<T>) returns (index: nat)
      requires Valid()
      requires length < capacity || allocby * itemSize > 0
      modifies Repr
      ensures Valid() && fresh(Repr - old(Repr))
      ensures index == old(length)
      ensures |Contents()| == old(|Contents()|) + 1 && Contents()[..index] == old(Contents())
      ensures item.Some? ==> Contents() == old(Contents()) + [item.value]
      ensures capacity == if old(length) == old(capacity) then old(capacity) + allocby * itemSize else old(capacity)
    {
      var i := length;
      if i == capacity {
        Alloc(i + allocby * itemSize);
      }
      length := length + 1;
      if item.Some? {
        data[i] := item.value;
      }
      index := i;
    }

    /** buffer_pop: remove the last item and hand it back; false (None) when empty. */
    method Pop() returns (item: Option<T>)
      requires Valid()
      modifies Repr
      ensures Valid() && fresh(Repr - old(Repr))
      ensures item.None? <==> old(Contents()) == []
      ensures item.None? ==> Contents() == old(Contents())
      ensures item.Some? ==>
        && item.value == old(Contents())[|old(Contents())| - 1]
        && Contents() == old(Contents())[..|old(Contents())| - 1]
      ensures capacity == old(capacity)
    {
      if length == 0 {
        return None;
      }
      item := Tail();
      Resize(length - 1);
    }

    /** buffer_clear: no items; the allocation stays. */
    method Clear()
      requires Valid()
      modifies Repr
      ensures Valid() && fresh(Repr - old(Repr))
      ensures Contents() == [] && capacity == old(capacity)
    {
      Resize(0);
    }

    /** buffer_size */
    function Size(): (n: nat)
      reads this, Repr
      requires Valid()
      ensures n == |Contents()|
    {
      length
    }

    /** buffer_empty */
    function Empty(): (e: bool)
      reads this, Repr
      requires Valid()
      ensures e <==> Contents() == []
    {
      length == 0
    }
  }

  /** buffer_push of an item and then buffer_pop hand the item back and leave the items as they were. */
  method PushPop<T(0)>(b: Buffer<T>, x: T) returns (y: Option<T>)
    requires b.Valid() && (b.length < b.capacity || b.allocby * b.itemSize > 0)
    modifies b.Repr
    ensures b.Valid() && y == Some(x) && b.Contents() == old(b.Contents())
  {
    var _ := b.Push(Some(x));
    y := b.Pop();
  }
}
