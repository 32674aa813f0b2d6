/** Index blocks in a run from a fresh filesystem: a first file whose index block is its own and is
    lost when the file is unlinked, and a second file whose index block is among its data. */
module IndexRuns {
  import opened Types
  import opened Bitmap
  import opened FreeScan
  import opened ExtentOrder
  import opened Greedy
  import opened Names
  import opened Translation
  import opened Spec
  import opened Allocation
  import opened Ownership
  import opened Conservation
  import opened Namespace
  import opened FirstFile

  // ---------------------------------------------------------------- the data region

  /** A data region of one block for the root directory and eight stretches of 1025 blocks, the
      first of which starts at `d`. */
  ghost predicate EightStretches(g: Geometry, d: nat) {
    ValidGeometry(g) && g.blockSize >= 136 && d == g.dataStart + 1 && g.totalBlocks == d + 8 * 1025
  }

  /** The free list while only the root's block is taken: the scan stops after 1024 blocks of each
      stretch and skips the last one. */
  function Bands(d: nat): (r: seq<Extent>)
    ensures |r| == 8 && forall k | 0 <= k < 8 :: r[k] == Extent(d + 1025 * k, 1024)
  {
    seq(8, k requires 0 <= k < 8 => Extent(d + 1025 * k, 1024))
  }

  /** The skipped blocks but the first one. */
  function Gaps(d: nat): (r: seq<Extent>)
    ensures |r| == 7 && forall k | 0 <= k < 7 :: r[k] == Extent(d + 1025 * (k + 1) + 1024, 1)
  {
    seq(7, k requires 0 <= k < 7 => Extent(d + 1025 * (k + 1) + 1024, 1))
  }

  /** What is taken once a file has all eight bands and the first skipped block is its index. */
  function BandsTaken(d: nat): set<nat>
    requires d > 0
  {
    {d - 1} + BlocksOf(Bands(d)) + {d + 1024}
  }

  lemma TakenAt(d: nat, k: nat, r: nat)
    requires d > 0 && k < 8 && r < 1025
    ensures d + 1025 * k + r in BandsTaken(d) <==> r < 1024 || k == 0
  {
    var b := d + 1025 * k + r;
    if r < 1024 {
      assert Bands(d)[k] in Bands(d) && b in Blocks(Bands(d)[k]);
    } else {
      forall e | e in Bands(d) ensures b !in Blocks(e) {
        var m :| 0 <= m < 8 && Bands(d)[m] == e;
      }
    }
  }

  // ---------------------------------------------------------------- the two free lists

  lemma {:induction false} BandsScan(d: nat, i: nat)
    requires d > 0 && i <= 8
    ensures Scan({d - 1}, d + 1025 * i, d + 8 * 1025, 0) == Bands(d)[i..]
    decreases 8 - i
  {
    if i < 8 {
      ScanRuns({d - 1}, d + 1025 * i, d + 8 * 1025, 0, 1024);
      BandsScan(d, i + 1);
      assert Bands(d)[i..] == [Bands(d)[i]] + Bands(d)[i + 1..];
    }
  }

  lemma {:induction false} ScanTaken(used: set<nat>, i: nat, hi: nat, m: nat)
    requires i + m <= hi && forall b: nat | i <= b < i + m :: b in used
    ensures Scan(used, i, hi, 0) == Scan(used, i + m, hi, 0)
    decreases m
  {
    if m > 0 {
      ScanTaken(used, i + 1, hi, m - 1);
      assert Emit(i, 0) == [];
    }
  }

  lemma BandTaken(d: nat, k: nat, from: nat)
    requires d > 0 && k < 8 && from <= 1024
    ensures Scan(BandsTaken(d), d + 1025 * k + from, d + 8 * 1025, 0)
            == Scan(BandsTaken(d), d + 1025 * k + 1024, d + 8 * 1025, 0)
  {
    forall b: nat | d + 1025 * k + from <= b < d + 1025 * k + 1024 ensures b in BandsTaken(d) {
      TakenAt(d, k, b - (d + 1025 * k));
    }
    ScanTaken(BandsTaken(d), d + 1025 * k + from, d + 8 * 1025, 1024 - from);
  }

  lemma {:induction false} GapsScan(d: nat, k: nat)
    requires d > 0 && 1 <= k < 8
    ensures Scan(BandsTaken(d), d + 1025 * k + 1024, d + 8 * 1025, 0) == Gaps(d)[k - 1..]
    decreases 8 - k
  {
    var used, b, hi := BandsTaken(d), d + 1025 * k + 1024, d + 8 * 1025;
    TakenAt(d, k, 1024);
    assert Scan(used, b, hi, 0) == Scan(used, b + 1, hi, 1);
    assert Emit(b + 1, 1) == [Gaps(d)[k - 1]];
    if k < 7 {
      TakenAt(d, k + 1, 0);
      BandTaken(d, k + 1, 1);
      GapsScan(d, k + 1);
    }
    assert Gaps(d)[k - 1..] == [Gaps(d)[k - 1]] + Gaps(d)[k..];
  }

  lemma FirstFreeList(g: Geometry, d: nat)
    requires EightStretches(g, d)
    ensures FreeList(g, {d - 1}) == Bands(d)
  {
    BandsScan(d, 0);
    ScanTaken({d - 1}, d - 1, d + 8 * 1025, 1);
    assert Bands(d)[0..] == Bands(d);
    SortedIsKept(Bands(d));
  }

  lemma SecondScan(d: nat)
    requires d > 0
    ensures Scan(BandsTaken(d), d - 1, d + 8 * 1025, 0) == Gaps(d)
  {
    var used, hi := BandsTaken(d), d + 8 * 1025;
    ScanTaken(used, d - 1, hi, 1);
    BandTaken(d, 0, 0);
    TakenAt(d, 0, 1024);
    ScanTaken(used, d + 1024, hi, 1);
    BandTaken(d, 1, 0);
    GapsScan(d, 1);
    assert Gaps(d)[0..] == Gaps(d);
  }

  lemma SecondFreeList(g: Geometry, d: nat)
    requires EightStretches(g, d)
    ensures FreeList(g, BandsTaken(d)) == Gaps(d)
  {
    SecondScan(d);
    SortedIsKept(Gaps(d));
  }

  lemma {:induction false} UniformLength(s: seq<Extent>, m: nat)
    requires forall e | e in s :: e.length == m
    ensures TotalLength(s) == |s| * m
  {
    if s != [] {
      assert s[|s| - 1] in s;
      UniformLength(s[..|s| - 1], m);
    }
  }

  // ---------------------------------------------------------------- the two allocations

  lemma LeastIs(used: set<nat>, lo: nat, hi: nat, v: nat)
    requires lo <= v < hi && v !in used && forall b: nat | lo <= b < v :: b in used
    ensures LeastFree(used, lo, hi) == Some(v)
  {
    var r := LeastFree(used, lo, hi);
    assert r.Some? && !(r.value < v) && !(v < r.value);
  }

  lemma BandsWanted(g: Geometry, d: nat, s: Slot)
    requires EightStretches(g, d) && s.extents == []
    ensures Taken(g, {d - 1}, s, 7500) == Bands(d) && TotalLength(Bands(d)) == 8192
  {
    FirstFreeList(g, d);
    UniformLength(Bands(d)[..7], 1024);
    UniformLength(Bands(d), 1024);
    TakenIff(Bands(d), 7500, SlotsLeft(g, s), 7);
    assert Bands(d)[..8] == Bands(d);
  }

  lemma FirstSkipped(g: Geometry, d: nat)
    requires EightStretches(g, d)
    ensures LeastFree({d - 1} + BlocksOf(Bands(d)[..5]), g.dataStart, g.totalBlocks) == Some(d + 1024)
  {
    var used := {d - 1} + BlocksOf(Bands(d)[..5]);
    var first := Bands(d)[..5][0];
    assert first in Bands(d)[..5];
    forall b: nat | d - 1 <= b < d + 1024 ensures b in used {
      assert b == d - 1 || b in Blocks(first);
    }
    forall e | e in Bands(d)[..5] ensures d + 1024 !in Blocks(e) {
      var m :| 0 <= m < 5 && Bands(d)[..5][m] == e;
    }
    LeastIs(used, g.dataStart, g.totalBlocks, d + 1024);
  }

  /** The first file takes all eight bands and the first skipped block. */
  lemma BandsAllocated(g: Geometry, d: nat, s: Slot)
    requires EightStretches(g, d) && s.extents == [] && s.extentsBlock == 0 && !s.hasIndirect
    ensures var r := AllocateBlocks(g, {d - 1}, s, 7500);
      r.ok && r.slot == s.(extents := Bands(d), hasIndirect := r.slot.hasIndirect, extentsBlock := d + 1024)
      && r.used == BandsTaken(d)
  {
    BandsWanted(g, d, s);
    FirstFreeList(g, d);
    AllocateConserves(g, {d - 1}, s, 7500);
    IndexPicked(g, {d - 1}, s, 7500);
    FirstSkipped(g, d);
    assert [] + Bands(d) == Bands(d);
  }

  /** The second file needs six of the seven blocks left: its index block is the sixth of them. */
  lemma GapsOverlap(g: Geometry, d: nat, s: Slot)
    requires EightStretches(g, d) && s.extents == [] && s.extentsBlock == 0 && !s.hasIndirect
    ensures IndexOverlaps(g, BandsTaken(d), s, 6)
  {
    SecondFreeList(g, d);
    UniformLength(Gaps(d)[..5], 1);
    SixthGap(g, d);
    assert Reaches(Gaps(d), 6, SlotsLeft(g, s), 5) && Gaps(d)[5].start in Blocks(Gaps(d)[5]);
  }

  lemma SixthGap(g: Geometry, d: nat)
    requires EightStretches(g, d)
    ensures LeastFree(BandsTaken(d) + BlocksOf(Gaps(d)[..5]), g.dataStart, g.totalBlocks) == Some(Gaps(d)[5].start)
  {
    var used := BandsTaken(d) + BlocksOf(Gaps(d)[..5]);
    TakenAt(d, 6, 1024);
    forall e | e in Gaps(d)[..5] ensures Gaps(d)[5].start !in Blocks(e) {
      var m :| 0 <= m < 5 && Gaps(d)[..5][m] == e;
    }
    forall b: nat | d - 1 <= b < Gaps(d)[5].start ensures b in used {
      if b >= d {
        var k, r := (b - d) / 1025, (b - d) % 1025;
        TakenAt(d, k, r);
        if r == 1024 && k > 0 {
          assert Gaps(d)[..5][k - 1] in Gaps(d)[..5] && b in Blocks(Gaps(d)[..5][k - 1]);
        }
      }
    }
    LeastIs(used, g.dataStart, g.totalBlocks, Gaps(d)[5].start);
  }

  // ---------------------------------------------------------------- the run

  lemma TargetOf(g: Geometry, k: nat)
    requires g.blockSize > 0
    ensures Target(g, k * g.blockSize) == k * 1500 / 1000
  {
    var q, n := (k * g.blockSize + g.blockSize - 1) / g.blockSize, k * g.blockSize + g.blockSize - 1;
    assert q * g.blockSize <= n < (q + 1) * g.blockSize by {
      assert n == q * g.blockSize + n % g.blockSize;
      Distribute(q, 1, g.blockSize);
    }
    Distribute(k, 1, g.blockSize);
    if q > k {
      MulMono(k + 1, q, g.blockSize);
    } else if q < k {
      MulMono(q + 1, k, g.blockSize);
    }
  }

  /** The root directory with one entry, and room for another. */
  ghost predicate RootWith(dir: Slot, a: Name) {
    && IsDir(dir.mode) && dir.ino == ROOT_INO && dir.names.Some?
    && DirEntry(a, 2) in dir.names.value && FREE_ENTRY in dir.names.value
    && forall e | e in dir.names.value :: e == DirEntry(a, 2) || e == FREE_ENTRY
  }

  ghost predicate OneFile(g: Geometry, st: State, a: Name, mode: nat) {
    && Inv(g, st) && IndexInv(st) && Lost(st) == {} && |st.table| == g.maxFiles >= 3
    && st.used == {g.dataStart} && RootWith(st.table[0], a)
    && st.table[1] == EMPTY_SLOT.(mode := mode, ino := 2)
    && forall k | 2 <= k < |st.table| :: st.table[k] == EMPTY_SLOT
  }

  lemma FirstCreated(g: Geometry, st: State, a: Name, mode: nat)
    requires Fresh(g, st) && g.maxFiles >= 3 && g.blockSize >= 136
    requires LegalName(a) && IsReg(mode) && mode < 0x1_0000
    ensures Enabled(g, st, Create(0, a, 2, mode)) && OneFile(g, Next(g, st, Create(0, a, 2, mode)), a, mode)
  {
    FreshAccounts(g, st);
    var op, e := Create(0, a, 2, mode), DirEntry(a, 2);
    assert FreeSlotFrom(st.table, 0) == Some(1);
    NextKeepsInv(g, st, op);
    NextAccounts(g, st, op);
    var entries := FreshEntries(g);
    assert entries[0] == FREE_ENTRY && FreeFrom(entries, 0) == Some(0);
    assert AddEntry(entries, e) == entries[0 := e] && entries[0 := e][0] == e && entries[0 := e][1] == FREE_ENTRY;
  }

  /** The first file has the eight bands and an index block of its own. */
  ghost predicate Banded(s: Slot, d: nat) {
    && IsReg(s.mode) && s.ino == 2 && s.extents == Bands(d) && s.extentsBlock == d + 1024
  }

  ghost predicate BigFile(g: Geometry, st: State, d: nat, a: Name) {
    && Inv(g, st) && IndexInv(st) && Lost(st) == {} && |st.table| == g.maxFiles >= 3
    && d > 0 && st.used == BandsTaken(d) && RootWith(st.table[0], a) && Banded(st.table[1], d)
    && forall k | 2 <= k < |st.table| :: st.table[k] == EMPTY_SLOT
  }

  /** Extending an empty file is an allocation. */
  lemma ExtendsEmpty(g: Geometry, st: State, i: nat, k: nat)
    requires Inv(g, st) && |st.table| == g.maxFiles && i < |st.table| && k > 0
    requires IsReg(st.table[i].mode) && st.table[i].extents == [] && st.table[i].size == st.table[i].inodeSize == 0
    ensures k * g.blockSize > 0 && Enabled(g, st, SetSize(i, k * g.blockSize))
    ensures var r := Allocate(g, st.used, st.table[i], k * g.blockSize);
      && Next(g, st, SetSize(i, k * g.blockSize))
         == State(r.used, st.table[i := if r.ok then SizedTo(r.slot, k * g.blockSize) else r.slot], st.store)
      && r == AllocateBlocks(g, st.used, st.table[i], k * 1500 / 1000)
      && Demand(g, st, SetSize(i, k * g.blockSize), i) == k * g.blockSize
      && Target(g, k * g.blockSize) == k * 1500 / 1000
  {
    MulMono(1, k, g.blockSize);
    TargetOf(g, k);
    assert AllocatedBytes(g, st.table[i]) == 0;
  }

  lemma FirstGrown(g: Geometry, st: State, d: nat, a: Name, mode: nat)
    requires EightStretches(g, d) && OneFile(g, st, a, mode) && IsReg(mode)
    ensures Enabled(g, st, SetSize(1, 5000 * g.blockSize))
    ensures BigFile(g, Next(g, st, SetSize(1, 5000 * g.blockSize)), d, a)
  {
    FirstTakes(g, st, d);
    NextKeepsInv(g, st, SetSize(1, 5000 * g.blockSize));
    NextAccounts(g, st, SetSize(1, 5000 * g.blockSize));
  }

  lemma FirstTakes(g: Geometry, st: State, d: nat)
    requires EightStretches(g, d) && Inv(g, st) && |st.table| == g.maxFiles >= 3 && st.used == {g.dataStart}
    requires IsReg(st.table[1].mode) && st.table[1] == EMPTY_SLOT.(mode := st.table[1].mode, ino := 2)
    ensures var op := SetSize(1, 5000 * g.blockSize);
      && Enabled(g, st, op)
      && var st' := Next(g, st, op);
      && st'.used == BandsTaken(d) && Banded(st'.table[1], d) && st'.table == st.table[1 := st'.table[1]]
  {
    ExtendsEmpty(g, st, 1, 5000);
    BandsAllocated(g, d, st.table[1]);
  }

  ghost predicate BothFiles(g: Geometry, st: State, d: nat, a: Name) {
    && Inv(g, st) && IndexInv(st) && Lost(st) == {} && |st.table| == g.maxFiles >= 3
    && d > 0 && st.used == BandsTaken(d) && Banded(st.table[1], d)
    && IsDir(st.table[0].mode) && DirEntry(a, 2) in NamesOf(st.table[0])
    && IsReg(st.table[2].mode) && st.table[2] == EMPTY_SLOT.(mode := st.table[2].mode, ino := 3)
  }

  lemma SecondCreated(g: Geometry, st: State, d: nat, a: Name, b: Name, mode: nat)
    requires EightStretches(g, d) && BigFile(g, st, d, a)
    requires LegalName(a) && LegalName(b) && a != b && IsReg(mode) && mode < 0x1_0000
    ensures Enabled(g, st, Create(0, b, 3, mode)) && BothFiles(g, Next(g, st, Create(0, b, 3, mode)), d, a)
  {
    var op, claimed := Create(0, b, 3, mode), ClaimedFile(EMPTY_SLOT, 3, mode);
    ThirdNumber(st);
    SecondEnabled(g, st, a, b, mode);
    NextKeepsInv(g, st, op);
    NextAccounts(g, st, op);
    ClaimView(g, st, 2, claimed, 0, b);
    SameUsed(g, st, 2, claimed, b);
    EntryKept(st.table[0].names.value, DirEntry(b, 3), DirEntry(a, 2));
  }

  lemma SecondEnabled(g: Geometry, st: State, a: Name, b: Name, mode: nat)
    requires ValidGeometry(g) && |st.table| == g.maxFiles >= 3 && RootWith(st.table[0], a) && NewIno(st, 3)
    requires LegalName(b) && a != b && IsReg(mode) && mode < 0x1_0000
    requires st.table[1].mode != 0 && st.table[2] == EMPTY_SLOT
    ensures Enabled(g, st, Create(0, b, 3, mode)) && FreeSlotFrom(st.table, 0) == Some(2)
  {
    FirstFreeSlot(st.table, 2, 0);
  }

  /** The root is loaded, so the claim takes no block. */
  lemma SameUsed(g: Geometry, st: State, i: nat, claimed: Slot, name: Name)
    requires 0 < i < |st.table| && st.table[0].names.Some?
    ensures Claim(g, st, i, claimed, 0, name).used == st.used
  {
  }

  lemma EntryKept(entries: seq<DirEntry>, e: DirEntry, x: DirEntry)
    requires x in entries && x.ino != 0
    ensures x in AddEntry(entries, e)
  {
    FreeFromFacts(entries, 0);
    var k :| 0 <= k < |entries| && entries[k] == x;
    assert AddEntry(entries, e)[k] == x;
  }

  ghost predicate SecondShares(g: Geometry, st: State, d: nat, a: Name) {
    && Inv(g, st) && IndexInv(st) && Lost(st) == {} && |st.table| == g.maxFiles >= 3
    && Banded(st.table[1], d) && IsDir(st.table[0].mode) && DirEntry(a, 2) in NamesOf(st.table[0])
    && IsReg(st.table[2].mode) && Shares(st.table[2])
  }

  lemma SecondGrown(g: Geometry, st: State, d: nat, a: Name)
    requires EightStretches(g, d) && BothFiles(g, st, d, a)
    ensures Enabled(g, st, SetSize(2, 4 * g.blockSize))
    ensures SecondShares(g, Next(g, st, SetSize(2, 4 * g.blockSize)), d, a)
  {
    var op := SetSize(2, 4 * g.blockSize);
    ExtendsEmpty(g, st, 2, 4);
    NextKeepsInv(g, st, op);
    NextAccounts(g, st, op);
    SecondKept(g, st, op);
    GapsOverlap(g, d, st.table[2]);
    assert Overlaps(g, st, op, 2);
    NextSharesIff(g, st, op, 2);
  }

  lemma SecondKept(g: Geometry, st: State, op: Op)
    requires Inv(g, st) && Enabled(g, st, op) && op.SetSize? && op.slot == 2 && |st.table| >= 3
    ensures var st' := Next(g, st, op);
      && |st'.table| == |st.table| && st'.table[0] == st.table[0] && st'.table[1] == st.table[1]
      && st'.table[2].mode == st.table[2].mode
  {
    FileOpsKeepOthers(g, st, op, 0);
    FileOpsKeepOthers(g, st, op, 1);
    FileOpsKeepGraph(g, st, op, 2);
  }

  /** Unlinking the first file loses its index block. */
  lemma FirstUnlinked(g: Geometry, st: State, d: nat, a: Name)
    requires EightStretches(g, d) && SecondShares(g, st, d, a) && LegalName(a)
    ensures Enabled(g, st, Unlink(0, a, 1))
    ensures Lost(Next(g, st, Unlink(0, a, 1))) == {d + 1024}
  {
    var op := Unlink(0, a, 1);
    assert NamedBy(st, 0, a, 1);
    NextAccounts(g, st, op);
    assert SlotOk(g, st.table[1]);
    BandedGivesUp(st.table[1], d);
  }

  lemma BandedGivesUp(s: Slot, d: nat)
    requires d > 0 && Banded(s, d) && s.dirBlock == 0
    ensures Claimed(s) - Owned(s) == {d + 1024}
  {
    forall e | e in Bands(d) ensures d + 1024 !in Blocks(e) {
      var m :| 0 <= m < 8 && Bands(d)[m] == e;
    }
  }

  /** Create a file and extend it to 5000 blocks, create another and extend it to 4. */
  function TwoFiles(g: Geometry, a: Name, b: Name, mode: nat): seq<Op> {
    [Create(0, a, 2, mode)] + [SetSize(1, 5000 * g.blockSize)] + [Create(0, b, 3, mode)]
      + [SetSize(2, 4 * g.blockSize)]
  }

  lemma TwoFilesRun(g: Geometry, st: State, d: nat, a: Name, b: Name, mode: nat)
    requires Fresh(g, st) && g.maxFiles >= 3 && EightStretches(g, d)
    requires LegalName(a) && LegalName(b) && a != b && IsReg(mode) && mode < 0x1_0000
    ensures Runnable(g, st, TwoFiles(g, a, b, mode))
    ensures SecondShares(g, Run(g, st, TwoFiles(g, a, b, mode)), d, a)
  {
    var create1, create2 := [Create(0, a, 2, mode)], Create(0, b, 3, mode);
    var grow1, grow2 := SetSize(1, 5000 * g.blockSize), SetSize(2, 4 * g.blockSize);
    FirstCreated(g, st, a, mode);
    RunExtends(g, st, [], create1[0]);
    assert [] + create1 == create1;
    FirstGrown(g, Run(g, st, create1), d, a, mode);
    RunExtends(g, st, create1, grow1);
    SecondCreated(g, Run(g, st, create1 + [grow1]), d, a, b, mode);
    RunExtends(g, st, create1 + [grow1], create2);
    SecondGrown(g, Run(g, st, create1 + [grow1] + [create2]), d, a);
    RunExtends(g, st, create1 + [grow1] + [create2], grow2);
  }

  /** In every fresh filesystem with such a data region: after the two files are made, the second
      one's index block is one of its data blocks; the first one's is its own, and stays allocated
      with no slot to account for it when the first file is unlinked. */
  lemma IndexBlockRun(g: Geometry, st: State, d: nat, a: Name, b: Name, mode: nat)
    requires Fresh(g, st) && g.maxFiles >= 3 && EightStretches(g, d)
    requires LegalName(a) && LegalName(b) && a != b && IsReg(mode) && mode < 0x1_0000
    ensures var ops, unlink := TwoFiles(g, a, b, mode), Unlink(0, a, 1);
      && Runnable(g, st, ops) && |Run(g, st, ops).table| >= 3
      && Shares(Run(g, st, ops).table[2])
      && Run(g, st, ops).table[1].extentsBlock == d + 1024 && !Shares(Run(g, st, ops).table[1])
      && Runnable(g, st, ops + [unlink]) && Lost(Run(g, st, ops + [unlink])) == {d + 1024}
  {
    TwoFilesRun(g, st, d, a, b, mode);
    var full := Run(g, st, TwoFiles(g, a, b, mode));
    BandedIsOwn(g, full, d);
    FirstUnlinked(g, full, d, a);
    RunExtends(g, st, TwoFiles(g, a, b, mode), Unlink(0, a, 1));
  }

  lemma BandedIsOwn(g: Geometry, st: State, d: nat)
    requires Inv(g, st) && |st.table| > 1 && Banded(st.table[1], d)
    ensures !Shares(st.table[1])
  {
    assert SlotOk(g, st.table[1]);
    forall e | e in Bands(d) ensures d + 1024 !in Blocks(e) {
      var m :| 0 <= m < 8 && Bands(d)[m] == e;
    }
  }

  /** There are such data regions, for instance with the block size the tool formats. */
  lemma StretchesExist()
    ensures EightStretches(Geometry(4096, 8204, 1, 1, 2, 1, 3, 8), 4)
  {
  }
}
