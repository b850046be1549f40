/**
 * block_alloc.c: a slab allocator for items of one size. It keeps a list of
 * blocks, head to tail; each block holds MaskWidth item slots and a mask
 * whose bit j is set while slot j is free. A pointer it hands out is modelled
 * as a Handle: the block and the slot index within it.
 */
module BlockAlloc {
  import opened Wrappers
  import opened Sequences

  /** MASK_WIDTH: the bits of a size_t, on a 64-bit target. */
  const MaskWidth: nat := 64

  /** sizeof(struct block_alloc_blk) before its data: mask, prev and next, 8 bytes each. */
  const HeaderSize: nat := 24

  /** MASK_EMPTY: every bit set, so every slot is free. */
  const MaskEmpty: seq<bool> := seq(MaskWidth, _ => true)

  /** MASK_FULL: no bit set, so no slot is free. */
  const MaskFull: seq<bool> := seq(MaskWidth, _ => false)

  /**
   * The lowest-slot scan of block_alloc_new: shift the mask right until its
   * low bit is set, counting the shifts. The mask must have a bit set (the
   * caller never scans a full block), and the slot found is the lowest free
   * one.
   */
  method ScanMask(mask: seq<bool>) returns (slot: nat)
    requires true in mask
    ensures slot < |mask| && mask[slot]
    ensures forall j | 0 <= j < slot :: !mask[j]
  {
    slot := 0;
    while !mask[slot]
      invariant slot < |mask| && true in mask[slot..]
      invariant forall j | 0 <= j < slot :: !mask[j]
      decreases |mask| - slot
    {
      assert mask[slot..] == [mask[slot]] + mask[slot + 1..];
      slot := slot + 1;
    }
  }

  /** The byte offset from a block's start of the item in `slot` (blk->data + item_size * slot). */
  function ItemOffset(itemSize: nat, slot: nat): nat
  {
    HeaderSize + itemSize * slot
  }

  /** The next multiple of a after a * b is at most a * c for any later c. */
  lemma {:induction false} MulGap(a: nat, b: nat, c: nat)
    requires b < c
    ensures a * b + a <= a * c
  {
    if b + 1 < c {
      MulGap(a, b, c - 1);
      assert a * (c - 1) + a == a * c;
    } else {
      assert a * (b + 1) == a * b + a;
    }
  }

  /**
   * The item slots of a block lie one after another between its header and
   * its end (block_size), without overlapping.
   */
  lemma ItemsInBlock(itemSize: nat, slot: nat, other: nat)
    requires slot < other < MaskWidth
    ensures HeaderSize <= ItemOffset(itemSize, slot)
    ensures ItemOffset(itemSize, slot) + itemSize <= ItemOffset(itemSize, other)
    ensures ItemOffset(itemSize, other) + itemSize <= HeaderSize + itemSize * MaskWidth
  {
    MulGap(itemSize, slot, other);
    MulGap(itemSize, other, MaskWidth);
  }

  /**
   * block_alloc_delete's test that an address lies in a block's item area
   * (at or past the header, before block_size) holds for the item in `slot`
   * exactly when the slot is one of the block's and items have a size: with
   * item_size 0 every item sits at block_size and no block matches.
   */
  lemma {:induction false} ItemInBlockIff(itemSize: nat, slot: nat)
    ensures HeaderSize <= ItemOffset(itemSize, slot) < HeaderSize + itemSize * MaskWidth
      <==> 0 < itemSize && slot < MaskWidth
  {
    if slot < MaskWidth {
      MulGap(itemSize, slot, MaskWidth);
    } else if MaskWidth < slot {
      MulGap(itemSize, MaskWidth, slot);
    }
  }

  /**
   * The slot block_alloc_delete computes from an address r bytes into the
   * item in `slot`: (address - (block + header)) / item_size. Every byte of
   * the item gives back its slot.
   */
  lemma SlotOfAddress(itemSize: nat, slot: nat, r: nat)
    requires 0 < itemSize && r < itemSize
    ensures (ItemOffset(itemSize, slot) + r - HeaderSize) / itemSize == slot
  {
    var n := itemSize * slot + r;
    assert ItemOffset(itemSize, slot) + r - HeaderSize == n;
    var q := n / itemSize;
    assert n == itemSize * q + n % itemSize && n % itemSize < itemSize;
    if q < slot {
      MulGap(itemSize, q, slot);
      assert false;
    } else if slot < q {
      MulGap(itemSize, slot, q);
      assert false;
    }
  }

  /**
   * block_delete as written, on the list of blocks (head first) and the
   * position of the block to unlink. On the head it sets head and tail to
   * NULL, which drops every other block; elsewhere it links the block's
   * neighbours to each other, and on a tail that is not the head that writes
   * through its NULL next pointer (None).
   */
  function BlockDeleteAsWritten<T>(blocks: seq<T>, i: nat): Option<seq<T>>
    requires i < |blocks|
  {
    if i == 0 then Some([])
    else if i == |blocks| - 1 then None
    else Some(RemoveAt(blocks, i))
  }

  /**
   * Where block_delete as written unlinks correctly: the only block, or one
   * with neighbours on both sides.
   */
  lemma BlockDeleteAsWrittenInner<T>(blocks: seq<T>, i: nat)
    requires (i == 0 && |blocks| == 1) || 0 < i < |blocks| - 1
    ensures BlockDeleteAsWritten(blocks, i) == Some(RemoveAt(blocks, i))
  {
  }

  /**
   * Emptying the head block while a later block still holds items: as
   * written, block_delete empties the whole list, losing those items' block,
   * and so does any emptied head of two or more blocks.
   */
  lemma BlockDeleteAsWrittenLosesBlocks<T>(blocks: seq<T>)
    requires |blocks| >= 2
    ensures BlockDeleteAsWritten(blocks, 0) == Some([])
    ensures RemoveAt(blocks, 0) == blocks[1..] != []
  {
  }

  /** Emptying the tail block of two or more: as written, block_delete dereferences NULL. */
  lemma BlockDeleteAsWrittenFaults<T>(blocks: seq<T>)
    requires |blocks| >= 2
    ensures BlockDeleteAsWritten(blocks, |blocks| - 1).None?
  {
  }

  /** The set s with h taken out when it is in s and put in when it is not. */
  function Flipped<T>(s: set<T>, h: T): (r: set<T>)
    ensures h in r <==> h !in s
    ensures r - {h} == s - {h}
  {
    if h in s then s - {h} else s + {h}
  }

  /** struct block_alloc_blk: the free mask of one block; prev and next are its place in the allocator's list. */
  class Block {
    /** Bit j (mask[j]) is set while slot j is free. */
    var mask: seq<bool>

    /** The part of block_new that fills the block in: every slot free. */
    constructor ()
      ensures mask == MaskEmpty
    {
      mask := MaskEmpty;
    }
  }

  /** A pointer handed out by block_alloc_new: its block and its slot there. */
  datatype Handle = Handle(block: Block, slot: nat)

  /** struct block_alloc: the list of blocks from head to tail and the item and block sizes. */
  class Allocator {
    var blocks: seq<Block>
    const itemSize: nat
    const blockSize: nat
    /** The blocks given back to free(), in order. */
    ghost var released: seq<Block>

    /**
     * Blocks are sized for MaskWidth items after their header, no block is
     * linked twice, every mask is MaskWidth bits wide, and no block with
     * every slot free is kept (block_alloc_delete frees it).
     */
    ghost predicate Valid()
      reads this, blocks
    {
      && blockSize == HeaderSize + itemSize * MaskWidth
      && Distinct(blocks)
      && forall i | 0 <= i < |blocks| :: |blocks[i].mask| == MaskWidth && blocks[i].mask != MaskEmpty
    }

    /** The slots handed out and not given back, over all blocks. */
    ghost function Allocated(): set<Handle>
      reads this, blocks
    {
      set b, j | b in blocks && 0 <= j < |b.mask| && !b.mask[j] :: Handle(b, j)
    }

    /** A handle is allocated exactly when its block is in the list and its bit is clear. */
    lemma AllocatedMember(h: Handle)
      ensures h in Allocated() <==> h.block in blocks && h.slot < |h.block.mask| && !h.block.mask[h.slot]
    {
      if h.block in blocks && h.slot < |h.block.mask| && !h.block.mask[h.slot] {
        assert Handle(h.block, h.slot) == h;
      }
    }

    /** block_alloc_init: no blocks, and each block sized for MaskWidth items after its header. */
    constructor (itemSize: nat)
      ensures Valid() && blocks == [] && Allocated() == {} && released == []
      ensures this.itemSize == itemSize && blockSize == HeaderSize + itemSize * MaskWidth
    {
      this.itemSize := itemSize;
      blockSize := HeaderSize + itemSize * MaskWidth;
      blocks := [];
      released := [];
    }

    /** block_alloc_destroy: free every block, head to tail. */
    method Destroy()
      modifies this
      ensures released == old(released) + old(blocks) && blocks == old(blocks)
    {
      var i := 0;
      while i < |blocks|
        invariant i <= |blocks| && blocks == old(blocks)
        invariant released == old(released) + blocks[..i]
        decreases |blocks| - i
      {
        released := released + [blocks[i]];
        assert blocks[..i + 1] == blocks[..i] + [blocks[i]];
        i := i + 1;
      }
      assert blocks[..i] == blocks;
    }

    /** block_new: link a new block, every slot free, after the tail (or as the only block). */
    method BlockNew() returns (b: Block)
      requires Distinct(blocks)
      modifies this
      ensures fresh(b) && b.mask == MaskEmpty && Distinct(blocks)
      ensures blocks == old(blocks) + [b] && released == old(released)
      ensures Allocated() == old(Allocated())
    {
      b := new Block();
      DistinctAppend(blocks, b);
      blocks := blocks + [b];
      forall x ensures x in Allocated() <==> x in old(Allocated()) {
        AllocatedMember(x);
        assert Handle(x.block, x.slot) == x;
      }
    }

    /**
     * block_delete, unlinking the block from between its neighbours and
     * freeing it: the other blocks stay, in order, and the tail moves back
     * when the block was the tail (see BlockDeleteAsWritten for the code as
     * written).
     */
    method BlockDelete(b: Block)
      requires Distinct(blocks) && b in blocks
      modifies this
      ensures Distinct(blocks) && blocks == RemoveAt(old(blocks), IndexOf(old(blocks), b))
      ensures forall x :: x in blocks <==> x in old(blocks) && x != b
      ensures released == old(released) + [b]
    {
      var i := IndexOf(blocks, b);
      RemoveAtDistinct(blocks, i);
      blocks := blocks[..i] + blocks[i + 1..];
      released := released + [b];
    }

    /**
     * block_alloc_new: take the lowest free slot of the tail block, first
     * linking a new block when there is none or the tail is full. Free slots
     * of earlier blocks are never reused. The slot was free and is now
     * allocated, and nothing else changes.
     */
    method New() returns (h: Handle)
      requires Valid()
      modifies this, blocks
      ensures Valid() && released == old(released)
      ensures h !in old(Allocated()) && Allocated() == old(Allocated()) + {h}
      ensures h.block == blocks[|blocks| - 1]
      ensures old(blocks) == [] || old(blocks[|blocks| - 1].mask) == MaskFull ==>
        fresh(h.block) && blocks == old(blocks) + [h.block] && h.slot == 0
      ensures old(blocks) != [] && old(blocks[|blocks| - 1].mask) != MaskFull ==>
        blocks == old(blocks) && forall j | 0 <= j < h.slot :: !old(h.block.mask[j])
    {
      var blk: Block;
      if blocks == [] || blocks[|blocks| - 1].mask == MaskFull {
        blk := BlockNew();
        assert blk.mask[0];
      } else {
        blk := blocks[|blocks| - 1];
        assert true in blk.mask by {
          var j :| 0 <= j < |blk.mask| && blk.mask[j] != MaskFull[j];
        }
      }
      h := TakeSlot(blk);
    }

    /**
     * The end of block_alloc_new: clear the lowest set bit of blk's mask and
     * hand out that slot. blk may be a block just linked with every slot free.
     */
    method TakeSlot(blk: Block) returns (h: Handle)
      requires blockSize == HeaderSize + itemSize * MaskWidth
      requires Distinct(blocks) && blk in blocks && true in blk.mask
      requires forall i | 0 <= i < |blocks| ::
        |blocks[i].mask| == MaskWidth && (blocks[i] != blk ==> blocks[i].mask != MaskEmpty)
      modifies blk
      ensures Valid() && h.block == blk
      ensures h !in old(Allocated()) && Allocated() == old(Allocated()) + {h}
      ensures forall j | 0 <= j < h.slot :: !old(blk.mask[j])
      ensures old(blk.mask[0]) ==> h.slot == 0
    {
      var slot := ScanMask(blk.mask);
      blk.mask := blk.mask[slot := !blk.mask[slot]];
      h := Handle(blk, slot);
      forall x ensures x in Allocated() <==> x in old(Allocated()) || x == h {
        AllocatedMember(x);
        assert Handle(x.block, x.slot) == x;
      }
      forall i | 0 <= i < |blocks| ensures |blocks[i].mask| == MaskWidth && blocks[i].mask != MaskEmpty {
        if blocks[i] == blk {
          assert !blk.mask[slot];
        }
      }
    }

    /**
     * block_alloc_delete: find the block whose item area holds the address
     * and flip its bit, freeing the block once every slot is free. Its
     * address test (at or past the header, before block_size) holds for a
     * handle exactly in its own block, when its slot is below MaskWidth and
     * item_size is not 0 (ItemInBlockIff; SlotOfAddress gives the slot back).
     * A handle no block matches is ignored; one already free is flipped back
     * to allocated. An emptied block goes through the corrected BlockDelete,
     * where the C's block_delete loses or faults on some blocks
     * (BlockDeleteAsWrittenLosesBlocks, BlockDeleteAsWrittenFaults).
     */
    method Delete(h: Handle)
      requires Valid()
      modifies this, h.block
      ensures Valid()
      ensures h.block !in old(blocks) || MaskWidth <= h.slot || itemSize == 0 ==>
        blocks == old(blocks) && released == old(released) && h.block.mask == old(h.block.mask)
        && Allocated() == old(Allocated())
      ensures h.block in old(blocks) && h.slot < MaskWidth && 0 < itemSize ==>
        && h.block.mask == old(h.block.mask)[h.slot := !old(h.block.mask[h.slot])]
        && Allocated() == Flipped(old(Allocated()), h)
        && (h.block.mask == MaskEmpty ==>
              blocks == RemoveAt(old(blocks), IndexOf(old(blocks), h.block)) && released == old(released) + [h.block])
        && (h.block.mask != MaskEmpty ==> blocks == old(blocks) && released == old(released))
    {
      ItemInBlockIff(itemSize, h.slot);
      var i := 0;
      while i < |blocks|
        invariant i <= |blocks| && blocks == old(blocks) && h.block.mask == old(h.block.mask)
        invariant h.slot < MaskWidth && 0 < itemSize ==> h.block !in blocks[..i]
        decreases |blocks| - i
      {
        var p := blocks[i];
        if p == h.block && HeaderSize <= ItemOffset(itemSize, h.slot) < blockSize {
          Release(p, h.slot);
          return;
        }
        i := i + 1;
      }
      assert blocks[..i] == blocks;
    }

    /**
     * The end of block_alloc_delete, on the block found: flip the slot's bit
     * and unlink and free the block when that leaves every slot free.
     */
    method Release(b: Block, slot: nat)
      requires Valid() && b in blocks && slot < MaskWidth
      modifies this, b
      ensures Valid()
      ensures b.mask == old(b.mask)[slot := !old(b.mask[slot])]
      ensures Allocated() == Flipped(old(Allocated()), Handle(b, slot))
      ensures b.mask == MaskEmpty ==>
        blocks == RemoveAt(old(blocks), IndexOf(old(blocks), b)) && released == old(released) + [b]
      ensures b.mask != MaskEmpty ==> blocks == old(blocks) && released == old(released)
    {
      b.mask := b.mask[slot := !b.mask[slot]];
      ghost var bs := blocks;
      if b.mask == MaskEmpty {
        BlockDelete(b);
      }
      forall x ensures x in Allocated() <==> x in Flipped(old(Allocated()), Handle(b, slot)) {
        AllocatedMember(x);
        assert Handle(x.block, x.slot) == x;
        if x.block == b && b !in blocks && x.slot < MaskWidth {
          assert b.mask == MaskEmpty && MaskEmpty[x.slot];
        }
      }
      forall i | 0 <= i < |blocks| ensures |blocks[i].mask| == MaskWidth && blocks[i].mask != MaskEmpty {
        assert blocks[i] in bs;
      }
    }
  }
}
