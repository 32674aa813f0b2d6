/** What portfs_allocate_memory guarantees: conservation on both return codes, the allocation
    bound, the meaning of -ENOSPC, and when the index block is handed out twice. */
module Allocation {
  import opened Types
  import opened Bitmap
  import opened FreeScan
  import opened ExtentOrder
  import opened Greedy
  import opened Translation
  import opened Spec

  /** The free list is strictly ordered, separate, legal and unallocated, and misses exactly the
      skipped blocks of the scan. */
  lemma FreeListFacts(g: Geometry, used: set<nat>)
    requires ValidGeometry(g)
    ensures var free := FreeList(g, used);
      && Ordered(free) && StrictlyOrdered(free)
      && PairwiseApart(free) && Legal(g, free) && BlocksOf(free) !! used
      && forall b: nat | g.dataStart <= b < g.totalBlocks && b !in used ::
           b in BlocksOf(free) <==> !Skipped(used, g.dataStart, b)
  {
    var scan := Scan(used, g.dataStart, g.totalBlocks, 0);
    ScanExact(used, g.dataStart, g.totalBlocks);
    SortAllFacts(scan);
    SortAllApart(scan);
    SortApartStrict(scan);
    forall b: nat ensures b in BlocksOf(SortAll(scan)) <==> Covered(scan, b) {
      if b in BlocksOf(SortAll(scan)) {
        var e :| e in SortAll(scan) && b in Blocks(e);
        assert e in scan;
      }
      if Covered(scan, b) {
        var e :| e in scan && b in Blocks(e);
        assert e in SortAll(scan);
      }
    }
  }

  lemma FreeListHas(g: Geometry, used: set<nat>, e: Extent)
    requires ValidGeometry(g) && e in Scan(used, g.dataStart, g.totalBlocks, 0)
    ensures e in FreeList(g, used)
  {
    SortAllFacts(Scan(used, g.dataStart, g.totalBlocks, 0));
  }

  /** The extents an allocation of `target` blocks takes off the free list. */
  function Taken(g: Geometry, used: set<nat>, s: Slot, target: nat): seq<Extent>
    requires ValidGeometry(g)
  {
    var free := FreeList(g, used);
    free[..TakeCount(free, target, SlotsLeft(g, s))]
  }

  function SlotsLeft(g: Geometry, s: Slot): nat
    requires g.blockSize > 0
  {
    if |s.extents| <= MaxExtents(g) then MaxExtents(g) - |s.extents| else 0
  }

  /** The index block a slot gained between `s` and `s'`, if any. */
  function NewIndex(s: Slot, s': Slot): set<nat> {
    if s'.extentsBlock != s.extentsBlock then {s'.extentsBlock} else {}
  }

  /** `s'` is `s` with extents appended and the index array possibly made present. */
  ghost predicate Grew(s: Slot, s': Slot, more: seq<Extent>) {
    && s' == s.(extents := s.extents + more, hasIndirect := s'.hasIndirect, extentsBlock := s'.extentsBlock)
    && (s.hasIndirect ==> s'.hasIndirect)
  }

  /** A new index block was free, lies in the data region, and is the slot's first. */
  ghost predicate NewIndexWasFree(g: Geometry, used: set<nat>, s: Slot, s': Slot) {
    s'.extentsBlock != s.extentsBlock ==>
      && s.extentsBlock == 0 && !s.hasIndirect
      && g.dataStart <= s'.extentsBlock < g.totalBlocks && s'.extentsBlock !in used
  }

  lemma ReserveFacts(g: Geometry, used: set<nat>, s: Slot, need: bool)
    requires ValidGeometry(g)
    ensures var (used', s') := ReserveIf(need, g, used, s);
      && Grew(s, s', []) && (need ==> s'.hasIndirect)
      && used' == used + NewIndex(s, s') && NewIndexWasFree(g, used, s, s')
  {
    assert s.extents + [] == s.extents;
  }

  ghost predicate Granted(g: Geometry, used: set<nat>, s: Slot, taken: seq<Extent>, r: Grant) {
    && Grew(s, r.slot, taken)
    && r.used == used + BlocksOf(taken) + NewIndex(s, r.slot)
    && NewIndexWasFree(g, used, s, r.slot)
    && (taken != [] && |r.slot.extents| > DIRECT_EXTENTS ==> r.slot.hasIndirect)
  }

  lemma GrantedOne(g: Geometry, used: set<nat>, s: Slot, e: Extent)
    requires ValidGeometry(g)
    ensures Granted(g, used, s, [e], GrabOne(g, used, s, e))
  {
    ReserveFacts(g, used + Blocks(e), s, |s.extents| >= DIRECT_EXTENTS);
    assert BlocksOf([e]) == Blocks(e);
  }

  lemma GrantedNone(g: Geometry, used: set<nat>, s: Slot)
    ensures Granted(g, used, s, [], Grant(used, s, false))
  {
    assert s.extents + [] == s.extents;
  }

  lemma GrantedMore(g: Geometry, used: set<nat>, s: Slot, e: Extent, mid: Grant, taken: seq<Extent>, r: Grant)
    requires Granted(g, used, s, [e], mid) && Granted(g, mid.used, mid.slot, taken, r)
    ensures Granted(g, used, s, [e] + taken, r)
  {
    BlocksOfConcat([e], taken);
    assert s.extents + ([e] + taken) == s.extents + [e] + taken;
    assert taken == [] ==> r.slot.extents == mid.slot.extents;
  }

  lemma GrabStep(g: Geometry, used: set<nat>, s: Slot, nodes: seq<Extent>, k: nat, remaining: nat)
    requires g.blockSize > 0 && k < |nodes| && |s.extents| < MaxExtents(g)
    ensures Grab(g, used, s, nodes[k..], remaining) ==
            var mid := GrabOne(g, used, s, nodes[k]);
            if nodes[k].length >= remaining then mid
            else Grab(g, mid.used, mid.slot, nodes[k + 1..], remaining - nodes[k].length)
  {
    assert nodes[k..][0] == nodes[k] && nodes[k..][1..] == nodes[k + 1..];
  }

  lemma GrabUnfolds(g: Geometry, used: set<nat>, s: Slot, free: seq<Extent>, remaining: nat)
    requires ValidGeometry(g) && free != [] && SlotsLeft(g, s) > 0 && free[0].length < remaining
    ensures var mid, rest, left := GrabOne(g, used, s, free[0]), free[1..], remaining - free[0].length;
      && Grab(g, used, s, free, remaining) == Grab(g, mid.used, mid.slot, rest, left)
      && SlotsLeft(g, mid.slot) == SlotsLeft(g, s) - 1
      && free[..TakeCount(free, remaining, SlotsLeft(g, s))] ==
           [free[0]] + rest[..TakeCount(rest, left, SlotsLeft(g, mid.slot))]
  {
  }

  /** The loop: the extents taken are the first TakeCount of the list; the bits set are theirs
      and the index block's; it succeeds exactly when they hold the blocks wanted. */
  lemma {:induction false} GrabFacts(g: Geometry, used: set<nat>, s: Slot, free: seq<Extent>, remaining: nat)
    requires ValidGeometry(g) && remaining > 0
    ensures var r := Grab(g, used, s, free, remaining);
      var taken := free[..TakeCount(free, remaining, SlotsLeft(g, s))];
      Granted(g, used, s, taken, r) && (r.ok <==> TotalLength(taken) >= remaining)
    decreases |free|
  {
    if free == [] || |s.extents| >= MaxExtents(g) {
      GrantedNone(g, used, s);
      assert free[..0] == [];
    } else {
      var e, rest, mid := free[0], free[1..], GrabOne(g, used, s, free[0]);
      GrantedOne(g, used, s, e);
      if e.length >= remaining {
        TotalLengthPrepend(e, []);
        assert free[..1] == [e] == [e] + [];
      } else {
        GrabFacts(g, mid.used, mid.slot, rest, remaining - e.length);
        GrabUnfolds(g, used, s, free, remaining);
        var taken := rest[..TakeCount(rest, remaining - e.length, SlotsLeft(g, mid.slot))];
        TotalLengthPrepend(e, taken);
        GrantedMore(g, used, s, e, mid, taken, Grab(g, used, s, free, remaining));
      }
    }
  }

  lemma TargetCovers(g: Geometry, bytes: nat)
    requires ValidGeometry(g) && bytes > 0
    ensures Target(g, bytes) * g.blockSize >= bytes && Target(g, bytes) > 0
  {
    var c := (bytes + g.blockSize - 1) / g.blockSize;
    CeilingCovers(bytes, g.blockSize);
    assert Target(g, bytes) >= c;
    MulMono(c, Target(g, bytes), g.blockSize);
  }

  /** The target is the least number of whole blocks that hold the bytes, and half as much again. */
  lemma TargetIsHalfMore(g: Geometry, bytes: nat, c: nat)
    requires ValidGeometry(g) && bytes > 0 && c > 0
    requires (c - 1) * g.blockSize < bytes <= c * g.blockSize
    ensures Target(g, bytes) == c + c / 2
  {
    var n := bytes + g.blockSize - 1;
    QuotientIs(n, g.blockSize, c, n - c * g.blockSize);
  }

  lemma QuotientIs(n: nat, m: nat, q: nat, r: int)
    requires m > 0 && n == q * m + r && 0 <= r < m
    ensures n / m == q
  {
    var q', r' := n / m, n % m;
    assert n == q' * m + r';
    if q' < q {
      MulMono(q' + 1, q, m);
      Distribute(q', 1, m);
    } else if q' > q {
      MulMono(q + 1, q', m);
      Distribute(q, 1, m);
    }
  }

  /** With the 4096-byte blocks the tool formats, the 64-bit arithmetic of the target does not
      wrap for any file offset the kernel can pass. */
  lemma TargetFits64(g: Geometry, bytes: nat)
    requires g.blockSize == 4096 && bytes < 0x8000_0000_0000_0000
    ensures bytes + g.blockSize - 1 < 0x1_0000_0000_0000_0000
    ensures ((bytes + g.blockSize - 1) / g.blockSize) * 1500 < 0x8000_0000_0000_0000
  {
  }

  lemma CeilingCovers(n: nat, m: nat)
    requires m > 0 && n > 0
    ensures ((n + m - 1) / m) * m >= n && (n + m - 1) / m > 0
  {
    var q, r := (n + m - 1) / m, (n + m - 1) % m;
    assert q * m + r == n + m - 1;
    assert q == 0 ==> q * m == 0;
  }

  lemma TakenFacts(g: Geometry, used: set<nat>, s: Slot, target: nat)
    requires ValidGeometry(g)
    ensures var taken := Taken(g, used, s, target);
      && PairwiseApart(taken) && Legal(g, taken) && BlocksOf(taken) !! used
      && |taken| <= SlotsLeft(g, s)
  {
    FreeListFacts(g, used);
    var free, taken := FreeList(g, used), Taken(g, used, s, target);
    assert forall e | e in taken :: e in free;
    assert forall i | 0 <= i < |taken| :: taken[i] == free[i];
  }

  lemma GrantedAfterReserve(g: Geometry, used: set<nat>, s: Slot, mid: Grant, taken: seq<Extent>, r: Grant)
    requires Grew(s, mid.slot, []) && mid.used == used + NewIndex(s, mid.slot)
    requires NewIndexWasFree(g, used, s, mid.slot)
    requires Granted(g, mid.used, mid.slot, taken, r)
    ensures Granted(g, used, s, taken, r)
  {
    assert s.extents + [] == s.extents;
  }

  /** Conservation. Whatever the return code: the new extents were free and are separate from
      each other and legal, the slot's old extents and its other fields are as they were, the
      bits newly set are exactly the new extents' and the new index block's, and the extents
      fit the 4 direct and blockSize/8 indirect places. */
  lemma AllocateConserves(g: Geometry, used: set<nat>, s: Slot, target: nat)
    requires ValidGeometry(g) && target > 0 && |s.extents| <= MaxExtents(g)
    requires |s.extents| > DIRECT_EXTENTS ==> s.hasIndirect
    ensures var r := AllocateBlocks(g, used, s, target);
      var taken := Taken(g, used, s, target);
      && PairwiseApart(taken) && Legal(g, taken) && BlocksOf(taken) !! used
      && Granted(g, used, s, taken, r)
      && |r.slot.extents| <= 4 + g.blockSize / 8
      && (|r.slot.extents| > DIRECT_EXTENTS ==> r.slot.hasIndirect)
      && (r.ok <==> TotalLength(taken) >= target)
  {
    TakenFacts(g, used, s, target);
    var need := |s.extents| >= DIRECT_EXTENTS;
    var (used', s') := ReserveIf(need, g, used, s);
    ReserveFacts(g, used, s, need);
    GrabFacts(g, used', s', FreeList(g, used), target);
    GrantedAfterReserve(g, used, s, Grant(used', s', true), Taken(g, used, s, target),
                        AllocateBlocks(g, used, s, target));
  }

  /** Overshoot: on success the new extents exceed the target by less than one full extent. */
  lemma AllocateOvershoot(g: Geometry, used: set<nat>, s: Slot, target: nat)
    requires ValidGeometry(g) && target > 0 && |s.extents| <= MaxExtents(g)
    requires |s.extents| > DIRECT_EXTENTS ==> s.hasIndirect
    ensures AllocateBlocks(g, used, s, target).ok ==>
      target <= TotalLength(Taken(g, used, s, target)) <= target + MAX_EXTENT_LENGTH - 1
  {
    AllocateConserves(g, used, s, target);
    FreeListFacts(g, used);
    Overshoot(FreeList(g, used), target, SlotsLeft(g, s));
  }

  lemma GrownBytes(g: Geometry, s: Slot, s': Slot, taken: seq<Extent>)
    requires Grew(s, s', taken)
    ensures AllocatedBytes(g, s') == AllocatedBytes(g, s) + TotalLength(taken) * g.blockSize
  {
    TotalLengthConcat(s.extents, taken);
    Distribute(TotalLength(s.extents), TotalLength(taken), g.blockSize);
  }

  lemma GrewBound(g: Geometry, s: Slot, s': Slot, taken: seq<Extent>, target: nat, bytes: nat)
    requires Grew(s, s', taken) && target * g.blockSize >= bytes
    ensures AllocatedBytes(g, s') >= AllocatedBytes(g, s)
    ensures TotalLength(taken) >= target ==> AllocatedBytes(g, s') >= AllocatedBytes(g, s) + bytes
  {
    GrownBytes(g, s, s', taken);
    if TotalLength(taken) >= target {
      MulMono(target, TotalLength(taken), g.blockSize);
    }
  }

  /** On success the allocated bytes grow by at least the bytes asked for; they never shrink. */
  lemma AllocateBound(g: Geometry, used: set<nat>, s: Slot, bytes: nat)
    requires ValidGeometry(g) && bytes > 0 && |s.extents| <= MaxExtents(g)
    requires |s.extents| > DIRECT_EXTENTS ==> s.hasIndirect
    ensures var r := Allocate(g, used, s, bytes);
      && AllocatedBytes(g, r.slot) >= AllocatedBytes(g, s)
      && (r.ok ==> AllocatedBytes(g, r.slot) >= AllocatedBytes(g, s) + bytes)
  {
    TargetCovers(g, bytes);
    var target := Target(g, bytes);
    AllocateConserves(g, used, s, target);
    GrewBound(g, s, AllocateBlocks(g, used, s, target).slot, Taken(g, used, s, target), target, bytes);
  }

  /** The meaning of -ENOSPC: either the file ran out of extent slots, or every free extent was
      handed out and each data block still free is one the scan skips. */
  lemma OutOfSpaceMeans(g: Geometry, used: set<nat>, s: Slot, target: nat, b: nat)
    requires ValidGeometry(g) && target > 0 && |s.extents| <= MaxExtents(g)
    requires |s.extents| > DIRECT_EXTENTS ==> s.hasIndirect
    requires !AllocateBlocks(g, used, s, target).ok
    ensures var r := AllocateBlocks(g, used, s, target);
      |r.slot.extents| < 4 + g.blockSize / 8 ==>
        && Taken(g, used, s, target) == FreeList(g, used)
        && (g.dataStart <= b < g.totalBlocks && b !in r.used ==> Skipped(used, g.dataStart, b))
  {
    var free := FreeList(g, used);
    AllocateConserves(g, used, s, target);
    TakeStops(free, target, SlotsLeft(g, s));
    FreeListFacts(g, used);
  }

  /** Greedy optimality for the allocator: no choice of fewer free extents holds the target. */
  lemma AllocateFewest(g: Geometry, used: set<nat>, s: Slot, target: nat, pick: seq<bool>)
    requires ValidGeometry(g) && target > 0
    requires |pick| == |FreeList(g, used)| && Picked(pick) < |Taken(g, used, s, target)|
    ensures PickedLength(FreeList(g, used), pick) < target
  {
    FreeListFacts(g, used);
    FewerNeverSuffice(FreeList(g, used), target, SlotsLeft(g, s), pick);
  }

  /** The most blocks an allocation for the slot can hand out: those of the first extents of the
      free list, as many as there are places left of the 4 direct ones and the blockSize/8 of the
      index block. */
  function Obtainable(g: Geometry, used: set<nat>, s: Slot): nat
    requires ValidGeometry(g)
  {
    var free, places := FreeList(g, used), 4 + g.blockSize / 8;
    TotalLength(free[..Min(|free|, if |s.extents| <= places then places - |s.extents| else 0)])
  }

  /** An allocation succeeds exactly when that many blocks are enough. */
  lemma AllocateSucceedsIff(g: Geometry, used: set<nat>, s: Slot, target: nat)
    requires ValidGeometry(g) && target > 0 && |s.extents| <= MaxExtents(g)
    requires |s.extents| > DIRECT_EXTENTS ==> s.hasIndirect
    ensures AllocateBlocks(g, used, s, target).ok <==> Obtainable(g, used, s) >= target
  {
    AllocateConserves(g, used, s, target);
    MeetsIff(FreeList(g, used), target, SlotsLeft(g, s));
  }

  // ---------------------------------------------------------------- the index block

  /** Extents handed out before the index block is picked. */
  function TakenBefore(s: Slot): nat {
    if |s.extents| >= DIRECT_EXTENTS then 0 else DIRECT_EXTENTS + 1 - |s.extents|
  }

  lemma {:induction false} GrabPicksIndex(g: Geometry, used: set<nat>, s: Slot, free: seq<Extent>,
                                          remaining: nat, j: nat)
    requires ValidGeometry(g) && remaining > 0
    requires |s.extents| <= DIRECT_EXTENTS && !s.hasIndirect && s.extentsBlock == 0
    requires j == DIRECT_EXTENTS + 1 - |s.extents|
    ensures var k := TakeCount(free, remaining, SlotsLeft(g, s));
      var r := Grab(g, used, s, free, remaining);
      if k < j then r.slot.extentsBlock == 0
      else match LeastFree(used + BlocksOf(free[..j]), g.dataStart, g.totalBlocks)
           case None => r.slot.extentsBlock == 0
           case Some(b) => r.slot.extentsBlock == b
    decreases |free|
  {
    if free != [] {
      var e, rest, mid := free[0], free[1..], GrabOne(g, used, s, free[0]);
      if |s.extents| == DIRECT_EXTENTS {
        assert BlocksOf(free[..1]) == Blocks(e);
        if e.length < remaining {
          IndexStays(g, mid.used, mid.slot, rest, remaining - e.length);
        }
      } else if e.length < remaining {
        assert mid.used == used + Blocks(e) && mid.slot == s.(extents := s.extents + [e]);
        GrabPicksIndex(g, mid.used, mid.slot, rest, remaining - e.length, j - 1);
        GrabUnfolds(g, used, s, free, remaining);
        FirstThenRest(used, free, j);
      }
    }
  }

  lemma FirstThenRest(used: set<nat>, s: seq<Extent>, j: nat)
    requires 0 < j && s != []
    ensures j <= |s| ==> used + Blocks(s[0]) + BlocksOf(s[1..][..j - 1]) == used + BlocksOf(s[..j])
  {
    if j <= |s| {
      BlocksOfFirst(s, j);
    }
  }

  lemma BlocksOfFirst(s: seq<Extent>, j: nat)
    requires 0 < j <= |s|
    ensures BlocksOf(s[..j]) == Blocks(s[0]) + BlocksOf(s[1..][..j - 1])
  {
    assert s[..j] == [s[0]] + s[1..][..j - 1];
    BlocksOfConcat([s[0]], s[1..][..j - 1]);
    assert BlocksOf([s[0]]) == Blocks(s[0]);
  }

  lemma {:induction false} IndexStays(g: Geometry, used: set<nat>, s: Slot, free: seq<Extent>, remaining: nat)
    requires ValidGeometry(g) && s.hasIndirect
    ensures Grab(g, used, s, free, remaining).slot.extentsBlock == s.extentsBlock
    decreases |free|
  {
    if free != [] && |s.extents| < MaxExtents(g) && free[0].length < remaining {
      var mid := GrabOne(g, used, s, free[0]);
      IndexStays(g, mid.used, mid.slot, free[1..], remaining - free[0].length);
    }
  }

  /** The index block is the least block free after the first `j` extents, picked when the loop
      gets that far. */
  lemma IndexPicked(g: Geometry, used: set<nat>, s: Slot, target: nat)
    requires ValidGeometry(g) && target > 0
    requires |s.extents| <= DIRECT_EXTENTS && !s.hasIndirect && s.extentsBlock == 0
    ensures var j, picked := TakenBefore(s), AllocateBlocks(g, used, s, target).slot.extentsBlock;
      if |Taken(g, used, s, target)| < j then picked == 0
      else match LeastFree(used + BlocksOf(FreeList(g, used)[..j]), g.dataStart, g.totalBlocks)
           case None => picked == 0
           case Some(b) => picked == b
  {
    var free, j := FreeList(g, used), TakenBefore(s);
    if j == 0 {
      assert used + BlocksOf(free[..0]) == used;
      var (used', s') := ReserveIf(true, g, used, s);
      IndexStays(g, used', s', free, target);
    } else {
      GrabPicksIndex(g, used, s, free, target, j);
    }
  }

  /** An index block gained by an allocation that takes extents comes with more than four. */
  lemma NewIndexIsLate(g: Geometry, used: set<nat>, s: Slot, target: nat)
    requires ValidGeometry(g) && target > 0 && |s.extents| <= MaxExtents(g)
    requires |s.extents| > DIRECT_EXTENTS ==> s.hasIndirect
    ensures var r := AllocateBlocks(g, used, s, target);
      NewIndex(s, r.slot) != {} && Taken(g, used, s, target) != [] ==> |r.slot.extents| > DIRECT_EXTENTS
  {
    AllocateConserves(g, used, s, target);
    if |s.extents| <= DIRECT_EXTENTS && !s.hasIndirect && s.extentsBlock == 0 {
      IndexPicked(g, used, s, target);
    }
  }

  /** The free list is older than the index block. What can be checked before the call: the slot
      is to get an index block, and the loop goes on to an extent of the free list that covers
      the block it will pick. */
  ghost predicate IndexOverlaps(g: Geometry, used: set<nat>, s: Slot, target: nat)
    requires ValidGeometry(g)
  {
    var free, j := FreeList(g, used), TakenBefore(s);
    && |s.extents| <= DIRECT_EXTENTS && !s.hasIndirect && s.extentsBlock == 0 && j <= |free|
    && match LeastFree(used + BlocksOf(free[..j]), g.dataStart, g.totalBlocks)
       case None => false
       case Some(b) => exists p: nat :: Reaches(free, target, SlotsLeft(g, s), p) && b in Blocks(free[p])
  }

  /** A new index block is handed out as file data as well exactly in that case. */
  lemma IndexBlockSharedIff(g: Geometry, used: set<nat>, s: Slot, target: nat)
    requires ValidGeometry(g) && target > 0 && |s.extents| <= MaxExtents(g)
    requires |s.extents| > DIRECT_EXTENTS ==> s.hasIndirect
    ensures NewIndex(s, AllocateBlocks(g, used, s, target).slot) !! BlocksOf(Taken(g, used, s, target))
            <==> !IndexOverlaps(g, used, s, target)
  {
    AllocateConserves(g, used, s, target);
    if |s.extents| <= DIRECT_EXTENTS && !s.hasIndirect && s.extentsBlock == 0 {
      IndexPicked(g, used, s, target);
      NoBlockZero(g, used, s, target);
      IndexSharedAt(g, used, s, target);
    }
  }

  lemma IndexSharedAt(g: Geometry, used: set<nat>, s: Slot, target: nat)
    requires ValidGeometry(g) && target > 0
    ensures var free, taken, j := FreeList(g, used), Taken(g, used, s, target), TakenBefore(s);
      j <= |free| ==>
        match LeastFree(used + BlocksOf(free[..j]), g.dataStart, g.totalBlocks)
        case None => true
        case Some(b) =>
          (j <= |taken| && b in BlocksOf(taken)) <==>
          exists p: nat :: Reaches(free, target, SlotsLeft(g, s), p) && b in Blocks(free[p])
  {
    var free, taken, j := FreeList(g, used), Taken(g, used, s, target), TakenBefore(s);
    var slots := SlotsLeft(g, s);
    if j <= |free| && LeastFree(used + BlocksOf(free[..j]), g.dataStart, g.totalBlocks).Some? {
      var b := LeastFree(used + BlocksOf(free[..j]), g.dataStart, g.totalBlocks).value;
      forall q: nat | q < j ensures b !in Blocks(free[q]) {
        assert free[..j][q] in free[..j];
      }
      if j <= |taken| && b in BlocksOf(taken) {
        var e :| e in taken && b in Blocks(e);
        var p: nat :| p < |taken| && taken[p] == e;
        TakenIff(free, target, slots, p);
      }
      if p: nat :| Reaches(free, target, slots, p) && b in Blocks(free[p]) {
        TakenIff(free, target, slots, p);
        assert taken[p] == free[p] && free[p] in taken;
      }
    }
  }

  /** Sufficient and easy to see: with fewer than four extents before and at most five after,
      the index block is not file data. */
  lemma IndexBlockOwn(g: Geometry, used: set<nat>, s: Slot, target: nat)
    requires ValidGeometry(g) && target > 0
    requires |s.extents| < DIRECT_EXTENTS && !s.hasIndirect && s.extentsBlock == 0
    requires |AllocateBlocks(g, used, s, target).slot.extents| <= DIRECT_EXTENTS + 1
    ensures AllocateBlocks(g, used, s, target).slot.extentsBlock !in BlocksOf(Taken(g, used, s, target))
  {
    var taken, j := Taken(g, used, s, target), TakenBefore(s);
    AllocateConserves(g, used, s, target);
    NoBlockZero(g, used, s, target);
    IndexPicked(g, used, s, target);
    if j == |taken| {
      assert taken == FreeList(g, used)[..j];
    }
  }

  lemma NoBlockZero(g: Geometry, used: set<nat>, s: Slot, target: nat)
    requires ValidGeometry(g)
    ensures 0 !in BlocksOf(Taken(g, used, s, target))
  {
    FreeListFacts(g, used);
    assert forall e | e in Taken(g, used, s, target) :: LegalExtent(g, e);
  }
}
