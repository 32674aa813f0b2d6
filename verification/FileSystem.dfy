/** The kernel module's own code, as methods on the superblock: they work in place on the bitmap
    bytes, the file-table entries and the storage file, and refine the state machine of Spec. */
module FileSystem {
  import opened Types
  import opened Bitmap
  import opened Names
  import opened Translation
  import opened Spec
  import opened Allocation
  import opened Ownership
  import opened Contents
  import opened Storage
  import opened ExtentTree
  import opened Codec

  // ---------------------------------------------------------------- entries in memory

  /** struct filetable_entry, a value in the table: four direct extents, and an indirect array
      when one is present. */
  datatype Entry = Entry(
    ino: nat,
    mode: nat,
    size: nat,
    inodeSize: nat,
    extentCount: nat,
    extentsBlock: nat,
    direct: seq<Extent>,
    indirect: Option<seq<Extent>>,
    dirBlock: nat,
    parentIno: nat,
    names: Option<seq<DirEntry>>)

  const NO_EXTENT := Extent(0, 0)
  const NO_EXTENTS := [NO_EXTENT, NO_EXTENT, NO_EXTENT, NO_EXTENT]
  const ZERO_ENTRY := Entry(0, 0, 0, 0, 0, 0, NO_EXTENTS, None, 0, 0, None)

  ghost predicate Shaped(g: Geometry, e: Entry) {
    && |e.direct| == DIRECT_EXTENTS
    && (e.indirect.Some? ==> |e.indirect.value| == g.blockSize / 8)
    && e.extentCount <= DIRECT_EXTENTS + if e.indirect.Some? then g.blockSize / 8 else 0
  }

  /** get_extent. */
  function GetExtent(e: Entry, i: nat): Extent
    requires |e.direct| == DIRECT_EXTENTS
    requires i >= DIRECT_EXTENTS ==> e.indirect.Some? && i - DIRECT_EXTENTS < |e.indirect.value|
  {
    if i < DIRECT_EXTENTS then e.direct[i] else e.indirect.value[i - DIRECT_EXTENTS]
  }

  /** The extents in use, direct and indirect, as one sequence. */
  function Extents(g: Geometry, e: Entry): (r: seq<Extent>)
    requires Shaped(g, e)
    ensures |r| == e.extentCount
    ensures forall i | 0 <= i < |r| :: r[i] == GetExtent(e, i)
  {
    if e.extentCount <= DIRECT_EXTENTS then e.direct[..e.extentCount]
    else e.direct + e.indirect.value[..e.extentCount - DIRECT_EXTENTS]
  }

  function Abs(g: Geometry, e: Entry): Slot
    requires Shaped(g, e)
  {
    Slot(e.ino, e.mode, e.size, e.inodeSize, Extents(g, e), e.extentsBlock, e.indirect.Some?,
         e.dirBlock, e.parentIno, e.names)
  }

  /** The entry with an extent written into place `i`, as the allocation loop does. */
  function PutExtent(e: Entry, i: nat, x: Extent): Entry
    requires |e.direct| == DIRECT_EXTENTS
    requires i >= DIRECT_EXTENTS ==> e.indirect.Some? && i - DIRECT_EXTENTS < |e.indirect.value|
  {
    if i < DIRECT_EXTENTS then e.(direct := e.direct[i := x])
    else e.(indirect := Some(e.indirect.value[i - DIRECT_EXTENTS := x]))
  }

  /** Writing the place after the last one in use and counting it appends an extent. */
  lemma PutExtentAppends(g: Geometry, e: Entry, x: Extent)
    requires g.blockSize > 0 && Shaped(g, e) && e.extentCount < MaxExtents(g)
    requires e.extentCount >= DIRECT_EXTENTS ==> e.indirect.Some?
    ensures var e' := PutExtent(e, e.extentCount, x).(extentCount := e.extentCount + 1);
      Shaped(g, e') && Abs(g, e') == Abs(g, e).(extents := Extents(g, e) + [x])
  {
    var e' := PutExtent(e, e.extentCount, x).(extentCount := e.extentCount + 1);
    assert Extents(g, e') == Extents(g, e) + [x];
  }

  /** A slot takes no more extents exactly when the four direct places and the whole index array are
      in use. */
  lemma FullIffPlacesUsed(g: Geometry, e: Entry)
    requires g.blockSize >= 8 && Shaped(g, e)
    ensures e.extentCount >= MaxExtents(g)
            <==> e.indirect.Some? && e.extentCount == |e.direct| + |e.indirect.value|
  {
  }

  /** The allocation loop stands at `k`: either it goes on from here to its result, or it has met
      its target and this is the result. */
  ghost predicate Pending(g: Geometry, goal: Grant, used: set<nat>, cur: Slot, nodes: seq<Extent>, k: nat, remaining: int)
    requires g.blockSize > 0 && k <= |nodes|
  {
    if remaining > 0 then goal == Grab(g, used, cur, nodes[k..], remaining) else goal == Grant(used, cur, true)
  }

  lemma PendingStep(g: Geometry, goal: Grant, used: set<nat>, cur: Slot, nodes: seq<Extent>, k: nat, remaining: int)
    requires g.blockSize > 0 && k < |nodes| && remaining > 0 && |cur.extents| < MaxExtents(g)
    requires Pending(g, goal, used, cur, nodes, k, remaining)
    ensures var mid := GrabOne(g, used, cur, nodes[k]);
      mid.ok && Pending(g, goal, mid.used, mid.slot, nodes, k + 1, remaining - nodes[k].length)
  {
    GrabStep(g, used, cur, nodes, k, remaining);
  }

  lemma PendingEnd(g: Geometry, goal: Grant, used: set<nat>, cur: Slot, nodes: seq<Extent>, k: nat, remaining: int)
    requires g.blockSize > 0 && k <= |nodes| && Pending(g, goal, used, cur, nodes, k, remaining)
    requires remaining > 0 ==> k == |nodes| || |cur.extents| >= MaxExtents(g)
    ensures goal == Grant(used, cur, remaining <= 0)
  {
  }

  /** The index array is absent although its block exists: it is read in when next needed. */
  predicate ReloadsIndex(s: Slot) {
    !s.hasIndirect && s.extentsBlock != 0
  }

  lemma ZeroEntryIsEmpty(g: Geometry)
    ensures Shaped(g, ZERO_ENTRY) && Abs(g, ZERO_ENTRY) == EMPTY_SLOT
  {
  }

  /** A root in the first slot of a zeroed table makes a fresh filesystem. */
  lemma RootMakesFresh(g: Geometry, st: State)
    requires ValidGeometry(g) && Holds(g, st.store) && |st.table| == g.maxFiles
    ensures g.maxFiles > 0 && st.used == {} && (forall s | s in st.table :: s == EMPTY_SLOT) ==>
      && FreeSlotFrom(st.table, 0) == Some(0)
      && Fresh(g, st.(table := st.table[0 := st.table[0].(mode := 0x41ED, ino := 1, size := 0, parentIno := 1)]))
  {
    assert forall k | 0 <= k < |st.table| :: st.table[k] in st.table;
  }

  /** The file table, with the slots its entries stand for kept beside it. */
  class FileTable {
    const geo: Geometry
    const entries: array<Entry>
    ghost var slots: seq<Slot>

    ghost predicate Valid()
      reads this, entries
    {
      && |slots| == entries.Length
      && forall i | 0 <= i < entries.Length :: Shaped(geo, entries[i]) && slots[i] == Abs(geo, entries[i])
    }

    constructor (geo: Geometry, entries: array<Entry>)
      requires forall i | 0 <= i < entries.Length :: Shaped(geo, entries[i])
      ensures Valid() && this.geo == geo && this.entries == entries
    {
      this.geo := geo;
      this.entries := entries;
      slots := seq(entries.Length, i requires 0 <= i < entries.Length && Shaped(geo, entries[i]) reads entries =>
                     Abs(geo, entries[i]));
    }

    /** Assigning an entry in place. */
    method Set(i: nat, e: Entry)
      requires Valid() && i < entries.Length && Shaped(geo, e)
      modifies this, entries
      ensures Valid() && entries[i] == e && slots == old(slots)[i := Abs(geo, e)]
      ensures forall k | 0 <= k < entries.Length && k != i :: entries[k] == old(entries[k])
    {
      entries[i] := e;
      slots := slots[i := Abs(geo, e)];
    }
  }

  // ---------------------------------------------------------------- the superblock

  class Superblock {
    const geo: Geometry
    const bitmap: BlockBitmap
    const filetable: FileTable
    const storage: StorageFile

    constructor (geo: Geometry, bitmap: BlockBitmap, filetable: FileTable, storage: StorageFile)
      ensures this.geo == geo && this.bitmap == bitmap
      ensures this.filetable == filetable && this.storage == storage
    {
      this.geo := geo;
      this.bitmap := bitmap;
      this.filetable := filetable;
      this.storage := storage;
    }

    ghost predicate Valid()
      reads this, bitmap, bitmap.bytes, filetable, filetable.entries, storage`bytes
    {
      && ValidGeometry(geo)
      && bitmap.Valid() && geo.totalBlocks <= 8 * bitmap.bytes.Length
      && filetable.Valid() && filetable.geo == geo && filetable.entries.Length == geo.maxFiles
      && bitmap.bytes as object != filetable.entries as object
      && Holds(geo, storage.bytes)
    }

    /** The state the methods refine. */
    ghost function View(): State
      reads this, bitmap, filetable, storage`bytes
    {
      State(bitmap.used, filetable.slots, storage.bytes)
    }

    // -------------------------------------------------------------- kernel/super.c

    /** The part of portfs_fill_super that makes the root directory when the table has none: it
        takes the first free slot. */
    method MakeRoot() returns (rc: int)
      requires Valid()
      modifies filetable, filetable.entries
      ensures Valid()
      ensures match FreeSlotFrom(old(View()).table, 0)
              case None => rc == -ENOSPC && View() == old(View())
              case Some(i) =>
                rc == 0 && View() == old(View()).(table := old(View()).table[i := old(View()).table[i].(
                  mode := 0x4000 + 0x1ED, ino := 1, size := 0, parentIno := 1)])
      ensures old(geo.maxFiles > 0 && View().used == {} && forall s | s in View().table :: s == EMPTY_SLOT) ==>
                rc == 0 && Fresh(geo, View())
    {
      RootMakesFresh(geo, View());
      var found := FindFreeFileEntry();
      if found.None? {
        return -ENOSPC;
      }
      var i := found.value;
      var e := filetable.entries[i].(mode := S_IFDIR + 0x1ED, ino := ROOT_INO, size := 0, parentIno := ROOT_INO);
      assert Extents(geo, e) == Extents(geo, filetable.entries[i]);
      filetable.Set(i, e);
      return 0;
    }

    // -------------------------------------------------------------- kernel/extent_alloc.c

    /** The index array as a read of its block leaves it: what was read, over zeros. */
    ghost predicate IndexRead(index: seq<Extent>, base: nat, got: seq<byte>)
      requires geo.blockSize > 0
      reads storage`bytes
    {
      && |got| <= geo.blockSize
      && (got != [] ==> base + |got| <= |storage.bytes| && got == storage.bytes[base..base + |got|])
      && index == RawExtents(got + seq(geo.blockSize - |got|, _ => 0 as byte), geo.blockSize / 8)
    }

    /** portfs_alloc_indirect_extents. Without a free block, and after a read that fell short, the
        array is present all the same. */
    method AllocIndirectExtents(i: nat) returns (rc: int, ghost got: seq<byte>)
      requires Valid() && i < filetable.entries.Length
      modifies bitmap, bitmap.bytes, filetable, filetable.entries, storage`faults
      ensures Valid()
      ensures var e, e' := old(filetable.entries[i]), filetable.entries[i];
        var base := Mul32(e.extentsBlock, geo.blockSize);
        && e' == e.(indirect := e'.indirect, extentsBlock := e'.extentsBlock)
        && (e.indirect.Some? ==> e' == e && rc == 0)
        && (e.indirect.None? && e.extentsBlock == 0 ==>
              && e'.indirect == Some(seq(geo.blockSize / 8, _ => NO_EXTENT))
              && rc == if e'.extentsBlock == 0 then -ENOSPC else 0)
        && (e.indirect.None? && e.extentsBlock != 0 ==>
              && e'.indirect.Some? && IndexRead(e'.indirect.value, base, got)
              && rc == (if |got| == geo.blockSize then 0 else -EIO)
              && (rc == 0 <==> base + geo.blockSize <= |storage.bytes| && storage.faults == old(storage.faults)))
      ensures storage.faults >= old(storage.faults)
      ensures !ReloadsIndex(old(filetable.slots[i])) ==> storage.faults == old(storage.faults)
      ensures View() ==
        var (used, s) := Reserve(geo, old(View()).used, old(View()).table[i]);
        State(used, old(View()).table[i := s], old(View()).store)
    {
      rc, got := 0, [];
      var e := filetable.entries[i];
      if e.indirect.None? {
        var zeros := seq(geo.blockSize / 8, _ => NO_EXTENT);
        var e' := e.(indirect := Some(zeros));
        if e.extentsBlock == 0 {
          var block := bitmap.TakeFreeBlock(geo.dataStart, geo.totalBlocks);
          if block == -1 {
            rc := -ENOSPC;
          } else {
            e' := e'.(extentsBlock := block);
          }
        } else {
          var n, data := storage.Read(Mul32(e.extentsBlock, geo.blockSize), geo.blockSize);
          got := data;
          var buffer := data + seq(geo.blockSize - |data|, _ => 0 as byte);
          e' := e'.(indirect := Some(RawExtents(buffer, geo.blockSize / 8)));
          if n != geo.blockSize {
            rc := -EIO;
          }
        }
        filetable.Set(i, e');
      } else {
        assert filetable.slots[i := filetable.slots[i]] == filetable.slots;
      }
    }

    /** The entry as the allocation loop sees it: `idx` extents in use, ahead of the entry's own
        count; the other slots are those of `slots0`. */
    ghost predicate Counting(i: nat, idx: nat, slots0: seq<Slot>, cur: Slot)
      requires Valid()
      reads this, bitmap, bitmap.bytes, filetable, filetable.entries, storage`bytes
    {
      && i < filetable.entries.Length == |slots0| && filetable.entries[i].extentCount <= idx
      && Shaped(geo, filetable.entries[i].(extentCount := idx))
      && cur == Abs(geo, filetable.entries[i].(extentCount := idx))
      && filetable.slots == slots0[i := filetable.slots[i]]
    }

    /** Writing an extent into the place after the last one counted. */
    method PutNext(i: nat, idx: nat, e: Extent, ghost slots0: seq<Slot>, ghost cur: Slot) returns (ghost next: Slot)
      requires Valid() && Counting(i, idx, slots0, cur) && idx < MaxExtents(geo)
      requires idx >= DIRECT_EXTENTS ==> filetable.entries[i].indirect.Some?
      modifies filetable, filetable.entries
      ensures Valid() && Counting(i, idx + 1, slots0, next) && next == cur.(extents := cur.extents + [e])
    {
      PutExtentAppends(geo, filetable.entries[i].(extentCount := idx), e);
      filetable.Set(i, PutExtent(filetable.entries[i], idx, e));
      next := Abs(geo, filetable.entries[i].(extentCount := idx + 1));
    }

    /** One round of the allocation loop. */
    method TakeExtent(i: nat, idx: nat, e: Extent, ghost slots0: seq<Slot>, ghost cur: Slot)
      returns (ghost next: Slot)
      requires Valid() && Counting(i, idx, slots0, cur)
      requires idx < MaxExtents(geo) && e.start + e.length <= geo.totalBlocks
      modifies bitmap, bitmap.bytes, filetable, filetable.entries, storage`faults
      ensures Valid() && Counting(i, idx + 1, slots0, next)
      ensures Grant(bitmap.used, next, true) == GrabOne(geo, old(bitmap.used), cur, e)
      ensures storage.faults >= old(storage.faults)
      ensures !ReloadsIndex(cur) ==> !ReloadsIndex(next) && storage.faults == old(storage.faults)
    {
      ghost var before := filetable.slots[i];
      bitmap.SetBlocks(e.start, e.length);
      if idx >= DIRECT_EXTENTS && filetable.entries[i].indirect.None? {
        var _, _ := AllocIndirectExtents(i);
        assert Extents(geo, filetable.entries[i].(extentCount := idx)) == cur.extents;
      }
      next := PutNext(i, idx, e, slots0, Abs(geo, filetable.entries[i].(extentCount := idx)));
    }

    /** portfs_allocate_memory's loop over the free extents. */
    method GrabLoop(i: nat, nodes: seq<Extent>, blocks: nat) returns (idx: nat, remaining: int, ghost cur: Slot)
      requires Valid() && i < filetable.entries.Length && blocks > 0 && Legal(geo, nodes)
      modifies bitmap, bitmap.bytes, filetable, filetable.entries, storage`faults
      ensures Valid() && Counting(i, idx, old(filetable.slots), cur)
      ensures Grab(geo, old(bitmap.used), Abs(geo, old(filetable.entries[i])), nodes, blocks)
              == Grant(bitmap.used, cur, remaining <= 0)
      ensures storage.faults >= old(storage.faults)
      ensures !ReloadsIndex(old(filetable.slots[i])) ==> storage.faults == old(storage.faults)
    {
      ghost var slots0 := filetable.slots;
      idx, remaining, cur := filetable.entries[i].extentCount, blocks, filetable.slots[i];
      assert filetable.entries[i].(extentCount := idx) == filetable.entries[i];
      assert nodes[0..] == nodes && slots0[i := slots0[i]] == slots0;
      ghost var goal := Grab(geo, bitmap.used, cur, nodes, blocks);
      var k := 0;
      while k < |nodes| && idx < MaxExtents(geo) && remaining > 0
        invariant Valid() && k <= |nodes| && Counting(i, idx, slots0, cur)
        invariant Pending(geo, goal, bitmap.used, cur, nodes, k, remaining)
        invariant storage.faults >= old(storage.faults)
        invariant !ReloadsIndex(slots0[i]) ==> !ReloadsIndex(cur) && storage.faults == old(storage.faults)
      {
        assert nodes[k] in nodes && LegalExtent(geo, nodes[k]);
        PendingStep(geo, goal, bitmap.used, cur, nodes, k, remaining);
        cur := TakeExtent(i, idx, nodes[k], slots0, cur);
        idx, remaining, k := idx + 1, remaining - nodes[k].length, k + 1;
      }
      PendingEnd(geo, goal, bitmap.used, cur, nodes, k, remaining);
    }

    /** The loop, and the commit of its count. */
    method TakeExtents(i: nat, nodes: seq<Extent>, blocks: nat) returns (rc: int)
      requires Valid() && i < filetable.entries.Length && blocks > 0 && Legal(geo, nodes)
      modifies bitmap, bitmap.bytes, filetable, filetable.entries, storage`faults
      ensures Valid()
      ensures var r := Grab(geo, old(bitmap.used), Abs(geo, old(filetable.entries[i])), nodes, blocks);
        && bitmap.used == r.used && filetable.slots == old(filetable.slots)[i := r.slot]
        && rc == if r.ok then 0 else -ENOSPC
      ensures storage.faults >= old(storage.faults)
      ensures !ReloadsIndex(old(filetable.slots[i])) ==> storage.faults == old(storage.faults)
    {
      ghost var slots0 := filetable.slots;
      var idx, remaining;
      ghost var cur;
      idx, remaining, cur := GrabLoop(i, nodes, blocks);
      SetTwice(slots0, i, filetable.slots[i], cur);
      filetable.Set(i, filetable.entries[i].(extentCount := idx));
      rc := if remaining <= 0 then 0 else -ENOSPC;
    }

    /** portfs_allocate_memory. */
    method AllocateMemory(i: nat, bytesToAllocate: nat) returns (rc: int)
      requires Valid() && i < filetable.entries.Length
      modifies bitmap, bitmap.bytes, filetable, filetable.entries, storage`faults
      ensures Valid()
      ensures bytesToAllocate == 0 ==> rc == -EINVAL && View() == old(View())
      ensures bytesToAllocate > 0 ==>
        var r := Allocate(geo, old(View()).used, old(View()).table[i], bytesToAllocate);
        && View() == State(r.used, old(View()).table[i := r.slot], old(View()).store)
        && rc == if r.ok then 0 else -ENOSPC
      ensures storage.faults >= old(storage.faults)
      ensures !ReloadsIndex(old(filetable.slots[i])) ==> storage.faults == old(storage.faults)
    {
      if bytesToAllocate == 0 {
        return -EINVAL;
      }
      TargetCovers(geo, bytesToAllocate);
      FreeListFacts(geo, bitmap.used);
      var blocks := (bytesToAllocate + geo.blockSize - 1) / geo.blockSize;
      blocks := blocks * 1500 / 1000;
      assert blocks == Target(geo, bytesToAllocate);
      var tree := new FreeExtentTree();
      tree.Build(bitmap.bytes, geo.dataStart, geo.totalBlocks);
      var nodes := InOrder(tree.root);
      assert nodes == FreeList(geo, bitmap.used);
      if filetable.entries[i].extentCount >= DIRECT_EXTENTS {
        var _, _ := AllocIndirectExtents(i);
      }
      rc := TakeExtents(i, nodes, blocks);
      var _ := tree.Destroy();
    }

    /** portfs_get_allocated_size. */
    method GetAllocatedSize(e: Entry) returns (size: nat)
      requires geo.blockSize > 0 && Shaped(geo, e)
      ensures size == AllocatedBytes(geo, Abs(geo, e))
    {
      var total := 0;
      for i := 0 to e.extentCount
        invariant total == TotalLength(Extents(geo, e)[..i])
      {
        assert Extents(geo, e)[..i + 1][..i] == Extents(geo, e)[..i];
        total := total + GetExtent(e, i).length;
      }
      assert Extents(geo, e)[..e.extentCount] == Extents(geo, e);
      size := total * geo.blockSize;
    }

    // -------------------------------------------------------------- kernel/file.c

    /** portfs_calc_global_offset. */
    method CalcGlobalOffset(e: Entry, localOffset: nat) returns (r: int)
      requires geo.blockSize > 0 && Shaped(geo, e)
      ensures r == GlobalOffset(geo, Extents(geo, e), localOffset)
    {
      ghost var s := Extents(geo, e);
      var remaining: nat := localOffset;
      for i := 0 to e.extentCount
        invariant GlobalOffset(geo, s, localOffset) == GlobalOffset(geo, s[i..], remaining)
      {
        var ext := GetExtent(e, i);
        assert s[i..][0] == ext && s[i..][1..] == s[i + 1..];
        var size := Mul32(ext.length, geo.blockSize);
        if remaining < size {
          return Mul32(ext.start, geo.blockSize) + remaining;
        }
        remaining := remaining - size;
      }
      return -EFAULT;
    }

    /** portfs_calc_available_bytes. */
    method CalcAvailableBytes(e: Entry, localOffset: nat) returns (r: int)
      requires geo.blockSize > 0 && Shaped(geo, e)
      ensures r == AvailableBytes(geo, Extents(geo, e), localOffset, 0)
    {
      ghost var s := Extents(geo, e);
      var reach: nat := 0;
      for i := 0 to e.extentCount
        invariant AvailableBytes(geo, s, localOffset, 0) == AvailableBytes(geo, s[i..], localOffset, reach)
      {
        var ext := GetExtent(e, i);
        assert s[i..][0] == ext && s[i..][1..] == s[i + 1..];
        reach := reach + Mul32(ext.length, geo.blockSize);
        if reach > localOffset {
          return reach - localOffset;
        }
      }
      return -EFAULT;
    }

    /** One round of the read loop: a storage read of as much as the extent has. */
    method ReadChunk(e: Entry, at: nat, want: nat) returns (n: nat, bytesRead: int, chunk: seq<byte>)
      requires Valid() && Addressable(geo) && Shaped(geo, e) && Legal(geo, Extents(geo, e))
      requires 0 < want && at + want <= TotalBytes(geo, Extents(geo, e))
      modifies storage`faults
      ensures 0 < n <= want
      ensures storage.faults == old(storage.faults) + if bytesRead == n then 0 else 1
      ensures |FileBytes(geo, Extents(geo, e), storage.bytes)| == TotalBytes(geo, Extents(geo, e))
      ensures bytesRead == n ==> chunk == FileBytes(geo, Extents(geo, e), storage.bytes)[at..at + n]
    {
      ghost var s := Extents(geo, e);
      FileBytesLength(geo, s, storage.bytes);
      AvailableIsContiguous(geo, s, at, 0);
      var globalOffset := CalcGlobalOffset(e, at);
      var available := CalcAvailableBytes(e, at);
      n := Min(want, available);
      ChunkRead(geo, s, storage.bytes, at, n);
      bytesRead, chunk := storage.Read(globalOffset, n);
    }

    /** The loop of portfs_file_read: extent by extent, at least one byte a round. */
    method ReadLoop(e: Entry, pos: nat, count: nat) returns (rc: int, kbuf: seq<byte>)
      requires Valid() && Addressable(geo) && Shaped(geo, e) && Legal(geo, Extents(geo, e))
      requires pos + count <= TotalBytes(geo, Extents(geo, e))
      modifies storage`faults
      ensures rc == count || rc == -EIO
      ensures storage.faults >= old(storage.faults) && (rc == count <==> storage.faults == old(storage.faults))
      ensures |FileBytes(geo, Extents(geo, e), storage.bytes)| == TotalBytes(geo, Extents(geo, e))
      ensures rc == count ==> kbuf == FileBytes(geo, Extents(geo, e), storage.bytes)[pos..pos + count]
      ensures rc == -EIO ==> |kbuf| < count
    {
      ghost var f := FileBytes(geo, Extents(geo, e), storage.bytes);
      FileBytesLength(geo, Extents(geo, e), storage.bytes);
      kbuf := [];
      while |kbuf| < count
        invariant |kbuf| <= count && kbuf == f[pos..pos + |kbuf|]
        invariant storage.faults == old(storage.faults)
        decreases count - |kbuf|
      {
        var n, bytesRead, chunk := ReadChunk(e, pos + |kbuf|, count - |kbuf|);
        if bytesRead != n {
          return -EIO, kbuf;
        }
        assert f[pos..pos + |kbuf|] + f[pos + |kbuf|..pos + |kbuf| + n] == f[pos..pos + |kbuf| + n];
        kbuf := kbuf + chunk;
      }
      rc := count;
    }

    /** The index block reserved by a read of a file with four or more extents. */
    method ReserveForRead(i: nat)
      requires Valid() && i < filetable.entries.Length
      modifies bitmap, bitmap.bytes, filetable, filetable.entries, storage`faults
      ensures Valid()
      ensures View() == ReservedForRead(geo, old(View()), i)
      ensures filetable.slots[i].extents == old(filetable.slots[i]).extents
      ensures storage.faults >= old(storage.faults)
      ensures !ReloadsIndex(old(filetable.slots[i])) ==> storage.faults == old(storage.faults)
    {
      if filetable.entries[i].extentCount >= DIRECT_EXTENTS && filetable.entries[i].indirect.None? {
        var _, _ := AllocIndirectExtents(i);
      } else {
        assert filetable.slots[i := filetable.slots[i]] == filetable.slots;
      }
    }

    /** The loop on a file's slot: it delivers content. */
    method ReadContent(i: nat, pos: nat, count: nat) returns (rc: int, kbuf: seq<byte>)
      requires Valid() && Inv(geo, View()) && Addressable(geo) && FileSlot(geo, View(), i)
      requires pos + count <= View().table[i].size
      modifies storage`faults
      ensures rc == count || rc == -EIO
      ensures storage.faults >= old(storage.faults) && (rc == count <==> storage.faults == old(storage.faults))
      ensures |Content(geo, View(), i)| == View().table[i].size
      ensures rc == count ==> kbuf == Content(geo, View(), i)[pos..pos + count]
      ensures rc == -EIO ==> |kbuf| < count
    {
      assert SlotOk(geo, filetable.slots[i]);
      TotalBytesIsLength(geo, filetable.slots[i].extents);
      rc, kbuf := ReadLoop(filetable.entries[i], pos, count);
    }

    /** The part of portfs_file_read after its checks: `n` bytes at `pos`, all within the file. */
    method ReadWithin(i: nat, pos: nat, n: nat) returns (rc: int, data: seq<byte>)
      requires Valid() && Inv(geo, View()) && Addressable(geo) && FileSlot(geo, View(), i)
      requires pos + n <= View().table[i].size
      modifies bitmap, bitmap.bytes, filetable, filetable.entries, storage`faults
      ensures Valid() && View() == ReservedForRead(geo, old(View()), i)
      ensures pos + n <= |Content(geo, old(View()), i)|
      ensures rc == n || rc == -EIO
      ensures rc == n ==> data == Content(geo, old(View()), i)[pos..pos + n]
      ensures rc == -EIO ==> |data| < n
      ensures storage.faults >= old(storage.faults)
      ensures storage.faults == old(storage.faults) ==> rc == n
      ensures rc == n && !ReloadsIndex(old(View()).table[i]) ==> storage.faults == old(storage.faults)
    {
      ReservedKeepsContent(geo, View(), i);
      ReserveForRead(i);
      rc, data := ReadContent(i, pos, n);
    }

    /** portfs_file_read. Reading a file with four or more extents may reserve its index block, or
        read it in, in which case a fault there goes unnoticed. */
    method FileRead(i: nat, pos: nat, count: nat) returns (rc: int, data: seq<byte>, newPos: nat)
      requires Valid() && Inv(geo, View()) && Addressable(geo) && FileSlot(geo, View(), i)
      modifies bitmap, bitmap.bytes, filetable, filetable.entries, storage`faults
      ensures Valid() && Inv(geo, View()) && View() == Next(geo, old(View()), Op.Read(i, pos, count))
      ensures var c := Content(geo, old(View()), i);
        var n := if pos >= |c| then 0 else Min(count, |c| - pos);
        && (rc == n || rc == -EIO)
        && (rc == n && n > 0 ==> data == c[pos..pos + n] && newPos == pos + n)
        && (rc == n == 0 ==> data == [] && newPos == pos)
        && (rc == -EIO ==> pos <= newPos < pos + n)
        && (storage.faults == old(storage.faults) ==> rc == n)
        && (rc == n && !ReloadsIndex(old(View()).table[i]) ==> storage.faults == old(storage.faults))
    {
      NextKeepsInv(geo, View(), Op.Read(i, pos, count));
      assert |Content(geo, View(), i)| == View().table[i].size;
      if pos >= filetable.entries[i].size {
        return 0, [], pos;
      }
      var n := Min(count, filetable.entries[i].size - pos);
      rc, data := ReadWithin(i, pos, n);
      newPos := pos + |data|;
    }

    /** One round of the write loop: a storage write of as much as the extent takes. `m` bytes of
        it landed. */
    method WriteChunk(e: Entry, pos: nat, data: seq<byte>, written: nat, globalOffset: int, ghost store0: seq<byte>)
      returns (n: nat, bytesWritten: int, ghost m: nat)
      requires Valid() && Addressable(geo) && Shaped(geo, e) && Legal(geo, Extents(geo, e)) && Holds(geo, store0)
      requires written < |data| && pos + written < TotalBytes(geo, Extents(geo, e))
      requires globalOffset == GlobalOffset(geo, Extents(geo, e), pos + written)
      requires storage.bytes == WriteBytes(geo, Extents(geo, e), store0, pos, data[..written])
      modifies storage
      ensures Valid() && 0 < n <= |data| - written && pos + written + n <= TotalBytes(geo, Extents(geo, e))
      ensures m <= n && (bytesWritten == n <==> m == n)
      ensures storage.faults == old(storage.faults) + if m == n then 0 else 1
      ensures storage.bytes == WriteBytes(geo, Extents(geo, e), store0, pos, data[..written + m])
    {
      ghost var s := Extents(geo, e);
      AvailableIsContiguous(geo, s, pos + written, 0);
      var available := CalcAvailableBytes(e, pos + written);
      n := Min(available, |data| - written);
      ChunkAppends(geo, s, store0, pos, data, written, n, n);
      bytesWritten := storage.Write(globalOffset, data[written..written + n]);
      m := Moved(bytesWritten);
      ChunkAppends(geo, s, store0, pos, data, written, n, m);
      WriteBytesLength(geo, s, store0, pos, data[..written + m]);
    }

    /** The loop of portfs_file_write; `landed` is where the storage fell short, if it did. */
    method WriteLoop(e: Entry, pos: nat, data: seq<byte>) returns (written: nat, ghost landed: nat)
      requires Valid() && Addressable(geo) && Shaped(geo, e) && Legal(geo, Extents(geo, e))
      modifies storage
      ensures Valid()
      ensures var n := Landed(geo, Abs(geo, e), pos, |data|, landed);
        && storage.bytes == WriteBytes(geo, Extents(geo, e), old(storage.bytes), pos, data[..n])
        && written <= |data| && (written == |data| <==> n == |data|)
      ensures storage.faults >= old(storage.faults)
      ensures landed <= |data| && (landed == |data| <==> storage.faults == old(storage.faults))
    {
      ghost var s := Extents(geo, e);
      ghost var store0 := storage.bytes;
      TotalBytesIsLength(geo, s);
      written, landed := 0, |data|;
      while written < |data|
        invariant Valid() && written <= |data| && landed == |data| && storage.faults == old(storage.faults)
        invariant written > 0 ==> pos + written <= TotalBytes(geo, s)
        invariant storage.bytes == WriteBytes(geo, s, store0, pos, data[..written])
        decreases |data| - written
      {
        OffsetInData(geo, s, pos + written, store0);
        var globalOffset := CalcGlobalOffset(e, pos + written);
        if globalOffset < Mul32(geo.dataStart, geo.blockSize) {
          break;
        }
        var n, bytesWritten;
        ghost var m;
        n, bytesWritten, m := WriteChunk(e, pos, data, written, globalOffset, store0);
        if bytesWritten != n {
          landed := written + m;
          break;
        }
        written := written + n;
      }
    }

    /** The write loop and the size update after it. */
    method WriteOut(i: nat, pos: nat, data: seq<byte>) returns (written: nat, ghost landed: nat)
      requires Valid() && Addressable(geo) && i < filetable.entries.Length
      requires Legal(geo, filetable.slots[i].extents)
      modifies filetable, filetable.entries, storage
      ensures Valid() && written <= |data|
      ensures var st, s := old(View()), old(View()).table[i];
        && View() == Wrote(geo, st, i, Grant(st.used, s, true), pos, data, landed)
        && (written == |data| <==> Landed(geo, s, pos, |data|, landed) == |data|)
      ensures storage.faults >= old(storage.faults)
      ensures landed <= |data| && (landed == |data| <==> storage.faults == old(storage.faults))
    {
      written, landed := WriteLoop(filetable.entries[i], pos, data);
      if written == |data| && pos + written > filetable.entries[i].size {
        var e := filetable.entries[i].(size := pos + written, inodeSize := pos + written);
        assert Extents(geo, e) == Extents(geo, filetable.entries[i]);
        filetable.Set(i, e);
      } else {
        assert filetable.slots[i := filetable.slots[i]] == filetable.slots;
      }
    }

    /** The allocation portfs_file_write starts with: room for `count` bytes on top of the size. */
    method EnsureRoom(i: nat, count: nat) returns (rc: int)
      requires Valid() && i < filetable.entries.Length
      requires filetable.slots[i].size <= AllocatedBytes(geo, filetable.slots[i])
      modifies bitmap, bitmap.bytes, filetable, filetable.entries, storage`faults
      ensures Valid()
      ensures var grant := MakeRoom(geo, old(View()).used, old(View()).table[i], count);
        && View() == State(grant.used, old(View()).table[i := grant.slot], old(View()).store)
        && rc == if grant.ok then 0 else -ENOSPC
      ensures storage.faults >= old(storage.faults)
      ensures !ReloadsIndex(old(filetable.slots[i])) ==> storage.faults == old(storage.faults)
    {
      var size := GetAllocatedSize(filetable.entries[i]);
      var available := size - filetable.entries[i].size;
      rc := 0;
      if available < count {
        rc := AllocateMemory(i, count - available);
      } else {
        assert filetable.slots[i := filetable.slots[i]] == filetable.slots;
      }
    }

    /** portfs_file_write; `landed` is where the storage fell short, if it did. */
    method FileWrite(i: nat, pos: nat, data: seq<byte>, append: bool)
      returns (rc: int, newPos: nat, ghost landed: nat)
      requires Valid() && Inv(geo, View()) && Addressable(geo) && FileSlot(geo, View(), i)
      requires !PushesSize(geo, View().table[i], pos, data, append)
      modifies bitmap, bitmap.bytes, filetable, filetable.entries, storage
      ensures Valid() && Inv(geo, View())
      ensures rc == WriteCode(geo, old(View()), i, pos, data, append, landed)
      ensures View() == WriteNext(geo, old(View()), i, pos, data, append, landed)
      ensures rc == -ENOSPC <==> !HasRoom(geo, old(View()).used, old(View()).table[i], |data|)
      ensures var from := if append then old(View()).table[i].size else pos;
        && (rc == -ENOSPC ==> newPos == from)
        && (rc == -EIO ==> from <= newPos < from + |data|)
        && (rc == |data| ==> newPos == from + |data|)
      ensures landed <= |data| && (storage.faults == old(storage.faults) ==> landed == |data|)
      ensures landed == |data| && !ReloadsIndex(old(View()).table[i]) ==> storage.faults == old(storage.faults)
    {
      landed := |data|;
      ghost var st := View();
      newPos := if append then filetable.entries[i].size else pos;
      MakeRoomKeepsInv(geo, st, i, |data|);
      RoomHolds(geo, st, i, |data|);
      rc := EnsureRoom(i, |data|);
      if rc != 0 {
        WriteKeepsInv(geo, st, i, pos, data, append, landed);
        return;
      }
      var written;
      written, landed := WriteOut(i, newPos, data);
      WroteAfterRoom(geo, st, i, pos, data, append, landed);
      newPos := newPos + written;
      rc := if written < |data| then -EIO else |data|;
    }

    // -------------------------------------------------------------- kernel/directory.c

    /** The directory's slot array, if loaded, has its full length. */
    ghost predicate Sized(p: nat)
      requires p < filetable.entries.Length
      reads filetable, filetable.entries
    {
      filetable.entries[p].names.Some? ==> |filetable.entries[p].names.value| == MaxDirEntries(geo)
    }

    /** An unloaded directory has no block in this mount. */
    ghost predicate DirReady(p: nat)
      requires p < filetable.entries.Length
      reads filetable, filetable.entries
    {
      && IsDir(filetable.entries[p].mode) && Sized(p)
      && (filetable.entries[p].names.None? ==> filetable.entries[p].dirBlock == 0)
    }

    /** portfs_load_dir_data. Without a free block the array is there all the same and the return
        code is 0: the unsigned block number never tests negative. */
    method LoadDirData(p: nat) returns (rc: int)
      requires Valid() && p < filetable.entries.Length && filetable.entries[p].names.None?
      modifies bitmap, bitmap.bytes, filetable, filetable.entries, storage`faults
      ensures Valid() && rc <= 0 && storage.faults >= old(storage.faults)
      ensures rc == 0 <==> Loadable(geo, old(View()), p) && storage.faults == old(storage.faults)
      ensures old(View()).table[p].dirBlock == 0 ==> storage.faults == old(storage.faults)
      ensures View() == if rc == 0 then Loaded(geo, old(View()), p) else old(View())
    {
      rc := 0;
      var e := filetable.entries[p];
      if e.dirBlock == 0 {
        var e' := e.(names := Some(FreshEntries(geo)));
        var block := bitmap.TakeFreeBlock(geo.dataStart, geo.totalBlocks);
        if block != -1 {
          e' := e'.(dirBlock := block);
        }
        assert Extents(geo, e') == Extents(geo, e);
        filetable.Set(p, e');
      } else {
        var offset := Mul32(e.dirBlock, geo.blockSize);
        var n, data := storage.Read(offset, geo.blockSize);
        if n != geo.blockSize {
          rc := if n < 0 then n else -EIO;
        } else {
          var e' := e.(names := Some(DecodeNames(data, MaxDirEntries(geo))));
          assert Extents(geo, e') == Extents(geo, e);
          filetable.Set(p, e');
        }
      }
    }

    /** Loading on first use, as every directory operation begins. What it returns is ignored by the
        code, which then goes on with the array it has freed; the model's operations stop there. */
    method EnsureLoaded(p: nat) returns (ok: bool)
      requires Valid() && p < filetable.entries.Length && Sized(p)
      modifies bitmap, bitmap.bytes, filetable, filetable.entries, storage`faults
      ensures Valid() && storage.faults >= old(storage.faults)
      ensures ok <==> Loadable(geo, old(View()), p) && storage.faults == old(storage.faults)
      ensures old(filetable.entries[p].names.Some? || filetable.entries[p].dirBlock == 0) ==> ok
      ensures ok ==> filetable.entries[p].names.Some? && Sized(p)
      ensures filetable.entries[p].mode == old(filetable.entries[p].mode)
      ensures View() == if ok then Loaded(geo, old(View()), p) else old(View())
    {
      ok := true;
      if filetable.entries[p].names.None? {
        var rc := LoadDirData(p);
        ok := rc == 0;
        assert filetable.slots[p] == Abs(geo, filetable.entries[p]);
      } else {
        assert filetable.slots[p := filetable.slots[p]] == filetable.slots;
      }
    }

    /** Storing the slot array back into its entry. */
    method SetNames(p: nat, names: seq<DirEntry>)
      requires Valid() && p < filetable.entries.Length
      modifies filetable, filetable.entries
      ensures Valid()
      ensures View() == old(View()).(table := old(View()).table[p := old(View()).table[p].(names := Some(names))])
    {
      var e := filetable.entries[p].(names := Some(names));
      assert Extents(geo, e) == Extents(geo, filetable.entries[p]);
      filetable.Set(p, e);
    }

    /** portfs_de_add. */
    method DeAdd(p: nat, e: DirEntry) returns (rc: int)
      requires Valid() && p < filetable.entries.Length && Sized(p)
      modifies bitmap, bitmap.bytes, filetable, filetable.entries, storage`faults
      ensures Valid() && storage.faults >= old(storage.faults)
      ensures rc == -ENOTDIR <==> !IsDir(old(View()).table[p].mode)
      ensures IsDir(old(View()).table[p].mode) ==>
        (rc == 0 <==> Loadable(geo, old(View()), p) && storage.faults == old(storage.faults))
      ensures old(DirReady(p)) ==> rc == 0
      ensures View() == if rc == 0 then NameAdded(geo, Loaded(geo, old(View()), p), p, e) else old(View())
    {
      if !IsDir(filetable.entries[p].mode) {
        return -ENOTDIR;
      }
      var ok := EnsureLoaded(p);
      if !ok {
        return -EIO;
      }
      ghost var mid := View();
      var names := filetable.entries[p].names.value;
      var entries := names;
      for k := 0 to |names|
        invariant entries == names && FreeFrom(names, 0) == FreeFrom(names, k)
      {
        if entries[k].ino == 0 {
          entries := entries[k := e];
          break;
        }
      }
      assert entries == AddEntry(names, e) && NamesOf(mid.table[p]) == names;
      SetNames(p, entries);
      return 0;
    }

    /** portfs_de_find. */
    method DeFind(p: nat, name: Name) returns (rc: int, found: Option<nat>)
      requires Valid() && p < filetable.entries.Length && Sized(p)
      modifies bitmap, bitmap.bytes, filetable, filetable.entries, storage`faults
      ensures Valid() && storage.faults >= old(storage.faults)
      ensures rc == -ENOTDIR <==> !IsDir(old(View()).table[p].mode)
      ensures IsDir(old(View()).table[p].mode) ==>
        (rc == 0 <==> Loadable(geo, old(View()), p) && storage.faults == old(storage.faults))
      ensures old(DirReady(p)) ==> rc == 0
      ensures View() == if rc == 0 then Loaded(geo, old(View()), p) else old(View())
      ensures found == if rc == 0 then NamedFrom(NamesOf(View().table[p]), name, 0) else None
    {
      if !IsDir(filetable.entries[p].mode) {
        return -ENOTDIR, None;
      }
      var ok := EnsureLoaded(p);
      if !ok {
        return -EIO, None;
      }
      var entries := filetable.entries[p].names.value;
      for k := 0 to |entries|
        invariant NamedFrom(entries, name, 0) == NamedFrom(entries, name, k)
      {
        if entries[k].name == name {
          return 0, Some(k);
        }
      }
      return 0, None;
    }

    /** portfs_de_remove. */
    method DeRemove(p: nat, name: Name) returns (rc: int)
      requires Valid() && p < filetable.entries.Length && Sized(p)
      modifies bitmap, bitmap.bytes, filetable, filetable.entries, storage`faults
      ensures Valid() && storage.faults >= old(storage.faults)
      ensures rc == -ENOTDIR <==> !IsDir(old(View()).table[p].mode)
      ensures IsDir(old(View()).table[p].mode) ==>
        (rc == 0 <==> Loadable(geo, old(View()), p) && storage.faults == old(storage.faults))
      ensures old(DirReady(p)) ==> rc == 0
      ensures View() == if rc == 0 then DropName(geo, Loaded(geo, old(View()), p), p, name) else old(View())
    {
      if !IsDir(filetable.entries[p].mode) {
        return -ENOTDIR;
      }
      var ok := EnsureLoaded(p);
      if !ok {
        return -EIO;
      }
      ghost var mid := View();
      var names := filetable.entries[p].names.value;
      var entries := names;
      for k := 0 to |names|
        invariant |entries| == |names|
        invariant forall j | 0 <= j < k :: entries[j] == RemoveEntry(names, name)[j]
        invariant forall j | k <= j < |names| :: entries[j] == names[j]
      {
        if entries[k].name == name {
          entries := entries[k := FREE_ENTRY];
        }
      }
      assert entries == RemoveEntry(names, name) && NamesOf(mid.table[p]) == names;
      SetNames(p, entries);
      return 0;
    }

    /** portfs_is_dir_empty. Without a block the directory is not loaded and counts as empty. */
    method IsDirEmpty(d: nat) returns (ok: bool, empty: bool)
      requires Valid() && d < filetable.entries.Length && Sized(d)
      modifies bitmap, bitmap.bytes, filetable, filetable.entries, storage`faults
      ensures Valid() && storage.faults >= old(storage.faults)
      ensures old(View()).table[d].dirBlock == 0 ==> ok && empty && View() == old(View())
      ensures old(View()).table[d].dirBlock != 0 ==>
        && (ok <==> Loadable(geo, old(View()), d) && storage.faults == old(storage.faults))
        && View() == if ok then Loaded(geo, old(View()), d) else old(View())
      ensures old(DirReady(d)) ==> ok
      ensures ok ==> (empty <==> View().table[d].dirBlock == 0 || forall e | e in NamesOf(View().table[d]) :: e.ino == 0)
    {
      ok := true;
      if filetable.entries[d].dirBlock == 0 {
        return true, true;
      }
      ok := EnsureLoaded(d);
      if !ok {
        return false, false;
      }
      var entries := filetable.entries[d].names.value;
      for k := 0 to |entries|
        invariant forall j | 0 <= j < k :: entries[j].ino == 0
      {
        if entries[k].ino != 0 {
          return true, false;
        }
      }
      return true, true;
    }

    // -------------------------------------------------------------- kernel/inode.c

    /** portfs_find_free_file_entry. */
    method FindFreeFileEntry() returns (found: Option<nat>)
      requires Valid()
      ensures found == FreeSlotFrom(View().table, 0)
    {
      for i := 0 to filetable.entries.Length
        invariant FreeSlotFrom(View().table, 0) == FreeSlotFrom(View().table, i)
      {
        if filetable.entries[i].mode == 0 {
          return Some(i);
        }
      }
      return None;
    }

    /** What portfs_create and portfs_mkdir share once the slot is filled in. */
    method EnterName(i: nat, e: Entry, parent: nat, name: Name)
      requires Valid() && i < filetable.entries.Length && parent < filetable.entries.Length && i != parent
      requires Shaped(geo, e) && DirReady(parent)
      modifies bitmap, bitmap.bytes, filetable, filetable.entries, storage`faults
      ensures Valid() && View() == Claim(geo, old(View()), i, Abs(geo, e), parent, name)
    {
      filetable.Set(i, e);
      LoadedFirst(geo, View(), parent, DirEntry(name, e.ino), name);
      var _ := DeAdd(parent, DirEntry(name, e.ino));
    }

    lemma ReadyFromInv(p: nat)
      requires Valid() && Inv(geo, View()) && DirSlot(View(), p)
      ensures DirReady(p)
    {
      assert SlotOk(geo, View().table[p]);
    }

    /** portfs_create. */
    method Create(parent: nat, name: Name, ino: nat, mode: nat) returns (rc: int)
      requires Valid() && Inv(geo, View()) && Enabled(geo, View(), Op.Create(parent, name, ino, mode))
      modifies bitmap, bitmap.bytes, filetable, filetable.entries, storage`faults
      ensures Valid() && Inv(geo, View())
      ensures View() == Next(geo, old(View()), Op.Create(parent, name, ino, mode))
      ensures rc == if FreeSlotFrom(old(View()).table, 0).None? then -ENOSPC else 0
    {
      NextKeepsInv(geo, View(), Op.Create(parent, name, ino, mode));
      ReadyFromInv(parent);
      var found := FindFreeFileEntry();
      if found.None? {
        return -ENOSPC;
      }
      var e := filetable.entries[found.value].(mode := mode, ino := ino, size := 0, inodeSize := 0);
      assert Extents(geo, e) == Extents(geo, filetable.entries[found.value]);
      EnterName(found.value, e, parent, name);
      return 0;
    }

    /** portfs_mkdir. */
    method Mkdir(parent: nat, name: Name, ino: nat, perm: nat) returns (rc: int)
      requires Valid() && Inv(geo, View()) && Enabled(geo, View(), Op.Mkdir(parent, name, ino, perm))
      modifies bitmap, bitmap.bytes, filetable, filetable.entries, storage`faults
      ensures Valid() && Inv(geo, View())
      ensures View() == Next(geo, old(View()), Op.Mkdir(parent, name, ino, perm))
      ensures rc == if FreeSlotFrom(old(View()).table, 0).None? then -ENOSPC else 0
    {
      NextKeepsInv(geo, View(), Op.Mkdir(parent, name, ino, perm));
      ReadyFromInv(parent);
      var found := FindFreeFileEntry();
      if found.None? {
        return -ENOSPC;
      }
      var e := filetable.entries[found.value].(mode := S_IFDIR + perm, ino := ino, size := 0, inodeSize := 0,
                                               parentIno := filetable.entries[parent].ino);
      assert Extents(geo, e) == Extents(geo, filetable.entries[found.value]);
      EnterName(found.value, e, parent, name);
      return 0;
    }

    /** The scan of portfs_get_inode_by_number. */
    method SlotOfNumber(ino: nat) returns (found: Option<nat>)
      requires Valid()
      ensures found == SlotByNumber(filetable.slots, ino, 0)
    {
      for i := 0 to filetable.entries.Length
        invariant SlotByNumber(filetable.slots, ino, 0) == SlotByNumber(filetable.slots, ino, i)
      {
        if filetable.entries[i].ino == ino {
          return Some(i);
        }
      }
      return None;
    }

    /** portfs_lookup: the slot the name stands for. */
    method Lookup(parent: nat, name: Name) returns (found: Option<nat>)
      requires Valid() && Inv(geo, View()) && Enabled(geo, View(), Op.Lookup(parent, name))
      modifies bitmap, bitmap.bytes, filetable, filetable.entries, storage`faults
      ensures Valid() && Inv(geo, View()) && View() == Next(geo, old(View()), Op.Lookup(parent, name))
      ensures found == Resolve(View(), parent, name)
    {
      NextKeepsInv(geo, View(), Op.Lookup(parent, name));
      ReadyFromInv(parent);
      var _, k := DeFind(parent, name);
      if k.None? {
        return None;
      }
      NamedFromFacts(NamesOf(View().table[parent]), name, 0);
      found := SlotOfNumber(filetable.entries[parent].names.value[k.value].ino);
    }

    /** Releasing every extent of an entry, as unlink and truncate do in a loop. */
    method FreeExtents(e: Entry)
      requires Valid() && Shaped(geo, e) && Legal(geo, Extents(geo, e))
      modifies bitmap, bitmap.bytes
      ensures Valid() && View() == old(View()).(used := old(View()).used - BlocksOf(Extents(geo, e)))
    {
      ghost var s := Extents(geo, e);
      for k := 0 to e.extentCount
        invariant Valid() && bitmap.used == old(bitmap.used) - BlocksOf(s[..k])
      {
        var x := GetExtent(e, k);
        assert x in s && LegalExtent(geo, x);
        assert s[..k + 1] == s[..k] + [x];
        BlocksOfConcat(s[..k], [x]);
        assert BlocksOf([x]) == Blocks(x);
        bitmap.ClearBlocks(x.start, x.length);
      }
      assert s[..e.extentCount] == s;
    }

    /** What unlink and rmdir end with: the entry is zeroed and the name removed. */
    method DropEntry(parent: nat, name: Name, i: nat)
      requires Valid() && i < filetable.entries.Length && parent < filetable.entries.Length && i != parent
      requires DirReady(parent)
      modifies bitmap, bitmap.bytes, filetable, filetable.entries, storage`faults
      ensures Valid()
      ensures View() == DropName(geo, old(View()).(table := old(View()).table[i := EMPTY_SLOT]), parent, name)
    {
      ZeroEntryIsEmpty(geo);
      filetable.Set(i, ZERO_ENTRY);
      LoadedFirst(geo, View(), parent, FREE_ENTRY, name);
      var _ := DeRemove(parent, name);
    }

    /** portfs_unlink. The index block's bit is not cleared. */
    method Unlink(parent: nat, name: Name, i: nat) returns (rc: int)
      requires Valid() && Inv(geo, View()) && Enabled(geo, View(), Op.Unlink(parent, name, i))
      modifies bitmap, bitmap.bytes, filetable, filetable.entries, storage`faults
      ensures Valid() && Inv(geo, View()) && rc == 0
      ensures View() == Next(geo, old(View()), Op.Unlink(parent, name, i))
    {
      NextKeepsInv(geo, View(), Op.Unlink(parent, name, i));
      ReadyFromInv(parent);
      assert SlotOk(geo, View().table[i]);
      FreeExtents(filetable.entries[i]);
      DropEntry(parent, name, i);
      rc := 0;
    }

    /** The test portfs_rmdir begins with, on a directory that is in memory if it has a block. */
    method CheckEmpty(i: nat) returns (empty: bool)
      requires Valid() && Inv(geo, View()) && i < filetable.entries.Length && DirReady(i)
      modifies bitmap, bitmap.bytes, filetable, filetable.entries, storage`faults
      ensures Valid() && View() == old(View())
      ensures empty <==> View().table[i].dirBlock == 0 || forall e | e in NamesOf(View().table[i]) :: e.ino == 0
      ensures filetable.entries[i].dirBlock < 8 * bitmap.bytes.Length
    {
      assert SlotOk(geo, View().table[i]);
      LoadedIsItself(geo, View(), i);
      var _, result := IsDirEmpty(i);
      empty := result;
    }

    /** portfs_rmdir. */
    method Rmdir(parent: nat, name: Name, i: nat) returns (rc: int)
      requires Valid() && Inv(geo, View()) && Enabled(geo, View(), Op.Rmdir(parent, name, i))
      modifies bitmap, bitmap.bytes, filetable, filetable.entries, storage`faults
      ensures Valid() && Inv(geo, View())
      ensures View() == Next(geo, old(View()), Op.Rmdir(parent, name, i))
      ensures var dir := old(View()).table[i];
        && rc == (if dir.dirBlock == 0 || forall e | e in NamesOf(dir) :: e.ino == 0 then 0 else -ENOTEMPTY)
        && (WellNamed(NamesOf(dir)) ==> (rc == 0 <==> dir.dirBlock == 0 || ToMap(NamesOf(dir)) == map[]))
      ensures rc == 0 ==> View().table[i] == Slot(0, 0, 0, 0, [], 0, false, 0, 0, None)
    {
      NextKeepsInv(geo, View(), Op.Rmdir(parent, name, i));
      ReadyFromInv(parent);
      ReadyFromInv(i);
      EmptyMeansNoNames(View().table[i]);
      var empty := CheckEmpty(i);
      if !empty {
        return -ENOTEMPTY;
      }
      if filetable.entries[i].dirBlock != 0 {
        bitmap.ClearBlock(filetable.entries[i].dirBlock);
      }
      DropEntry(parent, name, i);
      return 0;
    }

    /** portfs_truncate to size 0: portfs_free_extent clears the blocks and zeroes the place. */
    method TruncateToZero(i: nat)
      requires Valid() && i < filetable.entries.Length
      requires filetable.entries[i].extentCount <= DIRECT_EXTENTS && Legal(geo, filetable.slots[i].extents)
      modifies bitmap, bitmap.bytes, filetable, filetable.entries, storage`faults
      ensures Valid()
      ensures var st, s := old(View()), old(View()).table[i];
        View() == State(st.used - BlocksOf(s.extents), st.table[i := SizedTo(s.(extents := []), 0)], st.store)
    {
      var e := filetable.entries[i];
      FreeExtents(e);
      var direct := e.direct;
      for k := 0 to e.extentCount
        invariant |direct| == DIRECT_EXTENTS
      {
        direct := direct[k := NO_EXTENT];
      }
      filetable.Set(i, e.(direct := direct, extentCount := 0, size := 0, inodeSize := 0));
    }

    /** portfs_extend. */
    method Extend(i: nat, newSize: nat) returns (rc: int)
      requires Valid() && i < filetable.entries.Length && newSize > filetable.entries[i].size
      requires filetable.slots[i].size <= AllocatedBytes(geo, filetable.slots[i])
      modifies bitmap, bitmap.bytes, filetable, filetable.entries, storage`faults
      ensures Valid()
      ensures var st, s := old(View()), old(View()).table[i];
        var needed := newSize - s.size;
        var grant := if AllocatedBytes(geo, s) - s.size >= needed then Grant(st.used, s, true)
                     else Allocate(geo, st.used, s, needed);
        && View() == State(grant.used,
                           st.table[i := if grant.ok then SizedTo(grant.slot, newSize) else grant.slot], st.store)
        && rc == if grant.ok then 0 else -ENOSPC
    {
      ghost var table0 := filetable.slots;
      var neededSize := newSize - filetable.entries[i].size;
      var size := GetAllocatedSize(filetable.entries[i]);
      rc := 0;
      if size - filetable.entries[i].size < neededSize {
        rc := AllocateMemory(i, neededSize);
      }
      if rc == 0 {
        ghost var mid := filetable.slots;
        var e := filetable.entries[i].(size := newSize, inodeSize := newSize);
        assert Extents(geo, e) == Extents(geo, filetable.entries[i]);
        filetable.Set(i, e);
        SetTwice(table0, i, mid[i], filetable.slots[i]);
      }
    }

    /** The ATTR_SIZE part of portfs_setattr. */
    method SetSize(i: nat, newSize: nat) returns (rc: int)
      requires Valid() && Inv(geo, View()) && Enabled(geo, View(), Op.SetSize(i, newSize))
      modifies bitmap, bitmap.bytes, filetable, filetable.entries, storage`faults
      ensures Valid() && Inv(geo, View())
      ensures View() == Next(geo, old(View()), Op.SetSize(i, newSize))
      ensures var s := old(View()).table[i];
        && rc == (if newSize <= s.inodeSize || CanExtend(geo, old(View()).used, s, newSize) then 0 else -ENOSPC)
        && View().table[i].size == View().table[i].inodeSize == if rc == 0 then newSize else s.size
    {
      ghost var goal := SetSizeNext(geo, View(), i, newSize);
      SetSizeResult(geo, View(), i, newSize);
      rc := 0;
      if newSize < filetable.entries[i].inodeSize {
        TruncateToZero(i);
        assert View() == goal;
      } else if newSize > filetable.entries[i].inodeSize {
        rc := Extend(i, newSize);
        assert View() == goal;
      }
    }

    /** portfs_release_file. */
    method ReleaseFile(i: nat)
      requires Valid() && Inv(geo, View()) && Enabled(geo, View(), Op.Release(i))
      modifies filetable, filetable.entries
      ensures Valid() && Inv(geo, View()) && View() == Next(geo, old(View()), Op.Release(i))
    {
      NextKeepsInv(geo, View(), Op.Release(i));
      var e := filetable.entries[i].(indirect := None);
      assert Extents(geo, e) == Extents(geo, filetable.entries[i]);
      filetable.Set(i, e);
    }
  }

  // ---------------------------------------------------------------- directories in memory

  /** What setattr leaves, and when the extension in it succeeds. */
  lemma SetSizeResult(g: Geometry, st: State, i: nat, newSize: nat)
    requires Inv(g, st) && Enabled(g, st, SetSize(i, newSize))
    ensures var st', s := SetSizeNext(g, st, i, newSize), st.table[i];
      && Inv(g, st') && s.inodeSize == s.size && Legal(g, s.extents)
      && st'.table[i].size == st'.table[i].inodeSize
      && st'.table[i].size == (if newSize <= s.size || CanExtend(g, st.used, s, newSize) then newSize else s.size)
      && (newSize > s.size ==>
            (AllocatedBytes(g, s) - s.size >= newSize - s.size || Allocate(g, st.used, s, newSize - s.size).ok
             <==> CanExtend(g, st.used, s, newSize)))
  {
    SetSizeKeepsInv(g, st, i, newSize);
    assert SlotOk(g, st.table[i]);
    if newSize > st.table[i].size {
      ExtendSucceedsIff(g, st, i, newSize);
      ExtendContent(g, st, i, newSize);
    }
  }

  /** What the test of a directory means: it has no block, or no names. */
  lemma EmptyMeansNoNames(dir: Slot)
    ensures LooksEmpty(dir) <==> dir.dirBlock == 0 || forall e | e in NamesOf(dir) :: e.ino == 0
    ensures WellNamed(NamesOf(dir)) ==> (LooksEmpty(dir) <==> dir.dirBlock == 0 || ToMap(NamesOf(dir)) == map[])
  {
    if WellNamed(NamesOf(dir)) {
      AllFreeIsEmpty(NamesOf(dir));
    }
    assert forall k | 0 <= k < |NamesOf(dir)| :: NamesOf(dir)[k] in NamesOf(dir);
  }

  /** Loading the directory's slots can succeed: they are in memory, it has no block, or its block
      is within the storage. */
  ghost predicate Loadable(g: Geometry, st: State, p: nat)
    requires p < |st.table|
  {
    var dir := st.table[p];
    dir.names.Some? || dir.dirBlock == 0 || Mul32(dir.dirBlock, g.blockSize) + g.blockSize <= |st.store|
  }

  /** The state with the directory's slots in memory: decoded from its block if it has one. */
  ghost function Loaded(g: Geometry, st: State, p: nat): State
    requires p < |st.table| && Loadable(g, st, p)
  {
    var dir := st.table[p];
    if dir.names.Some? || dir.dirBlock == 0 then
      var (used, dir') := LoadNames(g, st.used, dir);
      State(used, st.table[p := dir'], st.store)
    else
      var offset := Mul32(dir.dirBlock, g.blockSize);
      var names := DecodeNames(st.store[offset..offset + g.blockSize], MaxDirEntries(g));
      State(st.used, st.table[p := dir.(names := Some(names))], st.store)
  }

  lemma LoadedIsItself(g: Geometry, st: State, p: nat)
    requires p < |st.table|
    ensures st.table[p].names.Some? ==> Loaded(g, st, p) == st
  {
    assert st.table[p := st.table[p]] == st.table;
  }

  ghost function NameAdded(g: Geometry, st: State, p: nat, e: DirEntry): State
    requires p < |st.table|
  {
    var (used, dir) := AddName(g, st.used, st.table[p], e);
    State(used, st.table[p := dir], st.store)
  }

  /** The steps of Spec load a directory themselves. */
  lemma LoadedFirst(g: Geometry, st: State, p: nat, e: DirEntry, name: Name)
    requires p < |st.table| && (st.table[p].names.Some? || st.table[p].dirBlock == 0)
    ensures NameAdded(g, Loaded(g, st, p), p, e) == NameAdded(g, st, p, e)
    ensures DropName(g, Loaded(g, st, p), p, name) == DropName(g, st, p, name)
  {
    var (used, dir) := LoadNames(g, st.used, st.table[p]);
    SetTwice(st.table, p, dir, AddName(g, st.used, st.table[p], e).1);
    SetTwice(st.table, p, dir, RemoveName(g, st.used, st.table[p], name).1);
  }

  lemma SetTwice(table: seq<Slot>, i: nat, a: Slot, b: Slot)
    requires i < |table|
    ensures table[i := a][i := b] == table[i := b]
  {
  }

  /** Committing the grown slot first and writing then is the one step of the specification. */
  lemma WroteOnce(g: Geometry, st: State, i: nat, grant: Grant, pos: nat, data: seq<byte>, landed: nat)
    requires i < |st.table|
    ensures Wrote(g, State(grant.used, st.table[i := grant.slot], st.store), i, Grant(grant.used, grant.slot, true),
                  pos, data, landed)
            == Wrote(g, st, i, grant, pos, data, landed)
  {
    var last := Wrote(g, st, i, grant, pos, data, landed).table[i];
    assert st.table[i := grant.slot][i := last] == st.table[i := last];
  }

  /** The write operation, once there is room: what the loop does from the state with the room. */
  lemma WroteAfterRoom(g: Geometry, st: State, i: nat, pos: nat, data: seq<byte>, append: bool, landed: nat)
    requires Inv(g, st) && FileSlot(g, st, i) && !PushesSize(g, st.table[i], pos, data, append)
    requires MakeRoom(g, st.used, st.table[i], |data|).ok
    ensures var grant, at := MakeRoom(g, st.used, st.table[i], |data|), WritePos(st.table[i], pos, append);
      var mid := State(grant.used, st.table[i := grant.slot], st.store);
      var st' := WriteNext(g, st, i, pos, data, append, landed);
      && Inv(g, st') && st' == Wrote(g, mid, i, Grant(mid.used, mid.table[i], true), at, data, landed)
      && WriteCode(g, st, i, pos, data, append, landed)
         == if Landed(g, mid.table[i], at, |data|, landed) == |data| then |data| else -EIO
  {
    var grant := MakeRoom(g, st.used, st.table[i], |data|);
    WroteOnce(g, st, i, grant, WritePos(st.table[i], pos, append), data, landed);
    WriteKeepsInv(g, st, i, pos, data, append, landed);
  }

  ghost function ReservedForRead(g: Geometry, st: State, i: nat): State
    requires i < |st.table|
  {
    var (used, s) := ReserveIf(|st.table[i].extents| >= DIRECT_EXTENTS, g, st.used, st.table[i]);
    State(used, st.table[i := s], st.store)
  }

  lemma ReservedKeepsContent(g: Geometry, st: State, i: nat)
    requires Inv(g, st) && FileSlot(g, st, i)
    ensures var st' := ReservedForRead(g, st, i);
      && Inv(g, st') && FileSlot(g, st', i) && st'.table[i].size == st.table[i].size
      && Content(g, st', i) == Content(g, st, i)
  {
    ReserveKeepsInv(g, st, i, |st.table[i].extents| >= DIRECT_EXTENTS);
    ReserveFacts(g, st.used, st.table[i], |st.table[i].extents| >= DIRECT_EXTENTS);
    SameContent(g, st, ReservedForRead(g, st, i), i);
  }
}
