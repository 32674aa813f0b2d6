/** kernel/extent_tree.c, the scan of portfs_build_extent_tree: what the loop emits, and
    exactly which free blocks it leaves out. */
module FreeScan {
  import opened Types

  /** The extents the scan still emits from block `i` on, when `length` free blocks right
      before `i` are waiting to be emitted. The block that ends an extent is never counted
      into the next one: that is right for an allocated block, and loses a free block when
      the extent ended because it was full. */
  function Scan(used: set<nat>, i: nat, hi: nat, length: nat): seq<Extent>
    requires length <= i
    decreases hi - i
  {
    if i >= hi then
      Emit(i, length)
    else if i !in used && length < MAX_EXTENT_LENGTH then
      Scan(used, i + 1, hi, length + 1)
    else
      Emit(i, length) + Scan(used, i + 1, hi, 0)
  }

  function Emit(i: nat, length: nat): seq<Extent>
    requires length <= i
  {
    if length > 0 then [Extent(i - length, length)] else []
  }

  /** The first block of the maximal free run, within the region from `lo`, that reaches up
      to `b`. */
  function RunStart(used: set<nat>, lo: nat, b: nat): (s: nat)
    requires lo <= b
    ensures lo <= s <= b
    ensures forall k: nat | s <= k < b :: k !in used
    ensures s == lo || (s - 1) in used
    decreases b
  {
    if b == lo || (b - 1) in used then b else RunStart(used, lo, b - 1)
  }

  ghost predicate FreeBelow(used: set<nat>, i: nat, length: nat) {
    length <= i && length <= MAX_EXTENT_LENGTH && forall b: nat | i - length <= b < i :: b !in used
  }

  /** Emitted extents are free, of legal length, inside the region, and in increasing order. */
  lemma {:induction false} ScanSound(used: set<nat>, i: nat, hi: nat, length: nat)
    requires i <= hi && FreeBelow(used, i, length)
    ensures var s := Scan(used, i, hi, length);
      && (forall e | e in s ::
            && 1 <= e.length <= MAX_EXTENT_LENGTH
            && i - length <= e.start && e.start + e.length <= hi
            && Blocks(e) !! used)
      && forall p, q | 0 <= p < q < |s| :: s[p].start + s[p].length <= s[q].start
    decreases hi - i
  {
    if i < hi {
      if i !in used && length < MAX_EXTENT_LENGTH {
        ScanSound(used, i + 1, hi, length + 1);
      } else {
        ScanSound(used, i + 1, hi, 0);
      }
    }
  }

  ghost predicate Covered(s: seq<Extent>, b: nat) {
    exists e :: e in s && b in Blocks(e)
  }

  /** Block `b` is at offset 1024, 2049, 3074, ... of its free run. */
  predicate Skipped(used: set<nat>, lo: nat, b: nat)
    requires lo <= b
  {
    (b - RunStart(used, lo, b)) % 1025 == 1024
  }

  /** The scan stands at `i` with `length` blocks pending, the pending extent starting at a
      multiple of 1025 blocks into the run. */
  ghost predicate Aligned(used: set<nat>, lo: nat, i: nat, length: nat) {
    && lo + length <= i
    && FreeBelow(used, i, length)
    && RunStart(used, lo, i) <= i - length
    && (i - length - RunStart(used, lo, i)) % 1025 == 0
  }

  lemma AlignedStep(used: set<nat>, lo: nat, i: nat, length: nat)
    requires Aligned(used, lo, i, length)
    ensures i !in used && length < MAX_EXTENT_LENGTH ==> Aligned(used, lo, i + 1, length + 1)
    ensures !(i !in used && length < MAX_EXTENT_LENGTH) ==> Aligned(used, lo, i + 1, 0)
  {
    if i in used {
      assert RunStart(used, lo, i + 1) == i + 1;
    } else {
      assert RunStart(used, lo, i + 1) == RunStart(used, lo, i);
    }
  }

  /** None of the pending blocks is at a skipped offset; a free block met when the pending
      extent is full is at one. */
  lemma AlignedOffsets(used: set<nat>, lo: nat, i: nat, length: nat, b: nat)
    requires Aligned(used, lo, i, length)
    ensures i - length <= b < i ==> !Skipped(used, lo, b)
    ensures length == MAX_EXTENT_LENGTH ==> Skipped(used, lo, i)
  {
    if i - length <= b < i {
      RunStartShared(used, lo, b, i);
      var d := i - length - RunStart(used, lo, i);
      assert (d + (b - (i - length))) % 1025 == b - (i - length);
    }
  }

  /** A free block is missed exactly when it sits at offset 1024, 2049, ... of its run. */
  lemma {:induction false} ScanCovers(used: set<nat>, lo: nat, i: nat, hi: nat, length: nat, b: nat)
    requires i <= hi && Aligned(used, lo, i, length)
    requires i - length <= b < hi && b !in used
    ensures Covered(Scan(used, i, hi, length), b) <==> !Skipped(used, lo, b)
    decreases hi - i
  {
    if i == hi {
      LastCovers(used, lo, hi, length, b);
    } else {
      AlignedStep(used, lo, i, length);
      if i !in used && length < MAX_EXTENT_LENGTH {
        ScanCovers(used, lo, i + 1, hi, length + 1, b);
      } else {
        if b > i {
          ScanCovers(used, lo, i + 1, hi, 0, b);
        }
        EmitCovers(used, lo, i, hi, length, b);
      }
    }
  }

  /** At the end of the region the pending blocks are emitted. */
  lemma LastCovers(used: set<nat>, lo: nat, hi: nat, length: nat, b: nat)
    requires Aligned(used, lo, hi, length) && hi - length <= b < hi
    ensures Covered(Scan(used, hi, hi, length), b) && !Skipped(used, lo, b)
  {
    AlignedOffsets(used, lo, hi, length, b);
    assert Extent(hi - length, length) in Emit(hi, length);
  }

  /** Where an extent is emitted: its blocks are covered, the block it stands at is not, and
      later blocks are left to the rest of the scan. */
  lemma EmitCovers(used: set<nat>, lo: nat, i: nat, hi: nat, length: nat, b: nat)
    requires i < hi && Aligned(used, lo, i, length) && !(i !in used && length < MAX_EXTENT_LENGTH)
    requires i - length <= b && b !in used
    ensures b > i ==> (Covered(Scan(used, i, hi, length), b) <==> Covered(Scan(used, i + 1, hi, 0), b))
    ensures b <= i ==> (Covered(Scan(used, i, hi, length), b) <==> !Skipped(used, lo, b))
  {
    AlignedOffsets(used, lo, i, length, b);
    CoveredConcat(Emit(i, length), Scan(used, i + 1, hi, 0), b);
    ScanSound(used, i + 1, hi, 0);
    assert b < i ==> Extent(i - length, length) in Emit(i, length);
  }

  lemma CoveredConcat(s: seq<Extent>, t: seq<Extent>, b: nat)
    ensures Covered(s + t, b) <==> Covered(s, b) || Covered(t, b)
  {
    forall e | e in s || e in t ensures e in s + t {}
  }

  /** Two free blocks of one run have the same run start. */
  lemma {:induction false} RunStartShared(used: set<nat>, lo: nat, b: nat, i: nat)
    requires lo <= b <= i && RunStart(used, lo, i) <= b
    ensures RunStart(used, lo, b) == RunStart(used, lo, i)
    decreases i
  {
    if b < i {
      RunStartShared(used, lo, b, i - 1);
    }
  }

  /** The whole scan: everything emitted is free and separate, and a free block of the region
      is emitted unless it is one of the skipped 1025th blocks of its run. */
  lemma ScanExact(used: set<nat>, lo: nat, hi: nat)
    requires lo <= hi
    ensures var s := Scan(used, lo, hi, 0);
      && PairwiseApart(s)
      && (forall e | e in s ::
            && 1 <= e.length <= MAX_EXTENT_LENGTH
            && lo <= e.start && e.start + e.length <= hi
            && Blocks(e) !! used)
      && forall b: nat | lo <= b < hi && b !in used ::
           Covered(s, b) <==> !Skipped(used, lo, b)
  {
    ScanSound(used, lo, hi, 0);
    forall b: nat | lo <= b < hi && b !in used
      ensures Covered(Scan(used, lo, hi, 0), b) <==> !Skipped(used, lo, b)
    {
      ScanCovers(used, lo, lo, hi, 0, b);
    }
  }

  /** In an empty data region, as formatting leaves it, every 1025th block is left out. */
  lemma ScanOfFreeRegion(lo: nat, hi: nat, b: nat)
    requires lo <= b < hi
    ensures Covered(Scan({}, lo, hi, 0), b) <==> (b - lo) % 1025 != 1024
  {
    assert RunStart({}, lo, b) == lo;
    assert Skipped({}, lo, b) <==> (b - lo) % 1025 == 1024;
    ScanExact({}, lo, hi);
  }
}
