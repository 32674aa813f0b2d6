/** kernel/bitmap.h and kernel/block_bitmap.h: a bit-packed block bitmap, and the set of
    allocated blocks it stands for. */
module Bitmap {
  import opened Types

  /** The byte `1 << k`. */
  function Mask(k: nat): bv8
    requires k < 8
  {
    if k == 0 then 1 else Mask(k - 1) << 1
  }

  lemma MaskIsShift(k: nat)
    requires k < 8
    ensures Mask(k) == (1 as bv8) << k
  {
    MaskValues();
  }

  lemma MaskValues()
    ensures Mask(0) == 1 && Mask(1) == 2 && Mask(2) == 4 && Mask(3) == 8
    ensures Mask(4) == 16 && Mask(5) == 32 && Mask(6) == 64 && Mask(7) == 128
  {
    assert Mask(2) == 4;
    assert Mask(4) == 16;
    assert Mask(6) == 64;
  }

  predicate HasBit(b: bv8, k: nat)
    requires k < 8
  {
    b & Mask(k) != 0
  }

  function WithBit(b: bv8, k: nat): bv8
    requires k < 8
  {
    b | Mask(k)
  }

  function WithoutBit(b: bv8, k: nat): bv8
    requires k < 8
  {
    b & !Mask(k)
  }

  predicate IsSet(bitmap: seq<bv8>, bit: nat)
    requires bit < 8 * |bitmap|
  {
    HasBit(bitmap[bit / 8], bit % 8)
  }

  /** The blocks whose bit is set. */
  function Allocated(bitmap: seq<bv8>): set<nat> {
    set b: nat | b < 8 * |bitmap| && IsSet(bitmap, b)
  }

  /** A block's bit on disk: counted from the low end of each byte. */
  lemma BitPlace(bitmap: seq<bv8>, b: nat)
    requires b < 8 * |bitmap|
    ensures b in Allocated(bitmap) <==> bitmap[b / 8] & ((1 as bv8) << (b % 8)) != 0
  {
    MaskIsShift(b % 8);
  }

  lemma MasksApart(i: nat, j: nat)
    requires i < 8 && j < 8
    ensures Mask(i) != 0
    ensures i != j ==> Mask(i) & Mask(j) == 0
  {
    MaskValues();
  }

  /** Of two masks that are equal or have no bit in common, setting or clearing the one touches
      the other only if they are equal. */
  lemma MaskedBits(b: bv8, m: bv8, n: bv8)
    requires n != 0 && (m == n || m & n == 0)
    ensures (b | m) & n != 0 <==> m == n || b & n != 0
    ensures (b & !m) & n != 0 <==> m != n && b & n != 0
  {
  }

  /** Setting or clearing one bit of a byte leaves the other seven alone. */
  lemma MaskIsolates(b: bv8, i: nat, j: nat)
    requires i < 8 && j < 8
    ensures HasBit(WithBit(b, i), j) <==> i == j || HasBit(b, j)
    ensures HasBit(WithoutBit(b, i), j) <==> i != j && HasBit(b, j)
  {
    MasksApart(i, j);
    MasksApart(j, i);
    MaskedBits(b, Mask(i), Mask(j));
  }

  /** is_block_allocated. */
  predicate IsBlockAllocated(bitmap: array<bv8>, block: nat)
    requires block < 8 * bitmap.Length
    reads bitmap
    ensures IsBlockAllocated(bitmap, block) <==> block in Allocated(bitmap[..])
  {
    assert bitmap[..][block / 8] == bitmap[block / 8];
    HasBit(bitmap[block / 8], block % 8)
  }

  method SetBit(bitmap: array<bv8>, bit: nat)
    requires bit < 8 * bitmap.Length
    modifies bitmap
    ensures Allocated(bitmap[..]) == old(Allocated(bitmap[..])) + {bit}
  {
    ghost var before := bitmap[..];
    bitmap[bit / 8] := WithBit(bitmap[bit / 8], bit % 8);
    assert bitmap[..] == before[bit / 8 := WithBit(before[bit / 8], bit % 8)];
    forall b: nat | b < 8 * |before|
      ensures IsSet(bitmap[..], b) <==> b == bit || IsSet(before, b)
    {
      if b / 8 == bit / 8 {
        MaskIsolates(before[bit / 8], bit % 8, b % 8);
      }
    }
  }

  method ClearBit(bitmap: array<bv8>, bit: nat)
    requires bit < 8 * bitmap.Length
    modifies bitmap
    ensures Allocated(bitmap[..]) == old(Allocated(bitmap[..])) - {bit}
  {
    ghost var before := bitmap[..];
    bitmap[bit / 8] := WithoutBit(bitmap[bit / 8], bit % 8);
    assert bitmap[..] == before[bit / 8 := WithoutBit(before[bit / 8], bit % 8)];
    forall b: nat | b < 8 * |before|
      ensures IsSet(bitmap[..], b) <==> b != bit && IsSet(before, b)
    {
      if b / 8 == bit / 8 {
        MaskIsolates(before[bit / 8], bit % 8, b % 8);
      }
    }
  }

  method SetBits(bitmap: array<bv8>, start: nat, length: nat)
    requires start + length <= 8 * bitmap.Length
    modifies bitmap
    ensures Allocated(bitmap[..]) == old(Allocated(bitmap[..])) + Blocks(Extent(start, length))
  {
    ghost var before := Allocated(bitmap[..]);
    for i := start to start + length
      invariant Allocated(bitmap[..]) == before + Blocks(Extent(start, i - start))
    {
      assert Blocks(Extent(start, i + 1 - start)) == Blocks(Extent(start, i - start)) + {i};
      SetBit(bitmap, i);
    }
  }

  method ClearBits(bitmap: array<bv8>, start: nat, length: nat)
    requires start + length <= 8 * bitmap.Length
    modifies bitmap
    ensures Allocated(bitmap[..]) == old(Allocated(bitmap[..])) - Blocks(Extent(start, length))
  {
    ghost var before := Allocated(bitmap[..]);
    for i := start to start + length
      invariant Allocated(bitmap[..]) == before - Blocks(Extent(start, i - start))
    {
      assert Blocks(Extent(start, i + 1 - start)) == Blocks(Extent(start, i - start)) + {i};
      ClearBit(bitmap, i);
    }
  }

  /** The least free block at or above `lo` and below `hi`, if there is one. */
  function LeastFree(used: set<nat>, lo: nat, hi: nat): (r: Option<nat>)
    ensures r.None? <==> forall b: nat | lo <= b < hi :: b in used
    ensures r.Some? ==>
      && lo <= r.value < hi
      && r.value !in used
      && forall b: nat | lo <= b < r.value :: b in used
    decreases hi - lo
  {
    if lo >= hi then None
    else if lo !in used then Some(lo)
    else LeastFree(used, lo + 1, hi)
  }

  /** find_free_block: -1 exactly when no block of the data region is free. */
  method FindFreeBlock(bitmap: array<bv8>, dataStart: nat, totalBlocks: nat) returns (r: int)
    requires totalBlocks <= 8 * bitmap.Length
    ensures var free := LeastFree(Allocated(bitmap[..]), dataStart, totalBlocks);
            r == if free.Some? then free.value else -1
  {
    ghost var used := Allocated(bitmap[..]);
    var i := dataStart;
    while i < totalBlocks
      invariant dataStart <= i
      invariant LeastFree(used, dataStart, totalBlocks) == LeastFree(used, i, totalBlocks)
    {
      if !IsBlockAllocated(bitmap, i) {
        return i;
      }
      i := i + 1;
    }
    return -1;
  }

  /** The bitmap of a mounted filesystem, with the set it stands for kept beside it. */
  class BlockBitmap {
    const bytes: array<bv8>
    ghost var used: set<nat>

    ghost predicate Valid()
      reads this, bytes
    {
      used == Allocated(bytes[..])
    }

    constructor (bytes: array<bv8>)
      ensures Valid() && this.bytes == bytes && used == Allocated(bytes[..])
    {
      this.bytes := bytes;
      used := Allocated(bytes[..]);
    }

    /** set_blocks_allocated. */
    method SetBlocks(start: nat, length: nat)
      requires Valid() && start + length <= 8 * bytes.Length
      modifies this, bytes
      ensures Valid() && used == old(used) + Blocks(Extent(start, length))
    {
      SetBits(bytes, start, length);
      used := used + Blocks(Extent(start, length));
    }

    /** clear_blocks_allocated. */
    method ClearBlocks(start: nat, length: nat)
      requires Valid() && start + length <= 8 * bytes.Length
      modifies this, bytes
      ensures Valid() && used == old(used) - Blocks(Extent(start, length))
    {
      ClearBits(bytes, start, length);
      used := used - Blocks(Extent(start, length));
    }

    /** find_free_block followed by set_block_allocated, as both its callers combine them. */
    method TakeFreeBlock(dataStart: nat, totalBlocks: nat) returns (block: int)
      requires Valid() && totalBlocks <= 8 * bytes.Length
      modifies this, bytes
      ensures Valid()
      ensures match LeastFree(old(used), dataStart, totalBlocks)
              case None => block == -1 && used == old(used)
              case Some(b) => block == b && used == old(used) + {b}
    {
      block := FindFreeBlock(bytes, dataStart, totalBlocks);
      if block != -1 {
        SetBit(bytes, block);
        used := used + {block};
      }
    }

    /** clear_block_allocated. */
    method ClearBlock(block: nat)
      requires Valid() && block < 8 * bytes.Length
      modifies this, bytes
      ensures Valid() && used == old(used) - {block}
    {
      ClearBit(bytes, block);
      used := used - {block};
    }
  }
}
