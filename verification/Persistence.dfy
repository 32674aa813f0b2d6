/** kernel/super.c: writing the file table in batches together with the directory blocks,
    writing the bitmap in pieces, and loading both back. */
module Persistence {
  import opened Types
  import opened Bitmap
  import opened Names
  import opened Translation
  import opened Spec
  import opened Ownership
  import opened Contents
  import opened Codec
  import opened Storage
  import opened FileSystem

  const WRITE_BUFFER_SIZE: nat := 1024 * 1024

  /** Entries a batch holds: as many as the write buffer has room for. */
  const BATCH: nat := 20164

  lemma BatchFillsBuffer()
    ensures BATCH == WRITE_BUFFER_SIZE / 52
  {
  }

  // ---------------------------------------------------------------- splices

  lemma SpliceRest(s: seq<byte>, at: nat, a: seq<byte>, n: nat)
    requires |a| <= n && at + n <= |s|
    ensures Splice(s, at, a) == Splice(s, at, a + s[at..at + n][|a|..])
  {
  }

  /** A splice leaves pieces outside its range and is its own piece. */
  lemma SplicePieces(s: seq<byte>, at: nat, a: seq<byte>, from: nat, n: nat)
    requires at + |a| <= |s| && from + n <= |s|
    ensures Piece(Splice(s, at, a), at, |a|) == a
    ensures from + n <= at || at + |a| <= from ==> Piece(Splice(s, at, a), from, n) == Piece(s, from, n)
  {
  }

  // ---------------------------------------------------------------- filling the buffer

  /** Storing a field into the buffer. */
  method PutBytes(buf: array<byte>, at: nat, b: seq<byte>)
    requires at + |b| <= buf.Length
    modifies buf
    ensures buf[..] == Splice(old(buf[..]), at, b)
  {
    forall k | 0 <= k < |b| {
      buf[at + k] := b[k];
    }
  }

  /** The three fields both fillers begin with. */
  method FillHeader(g: Geometry, e: Entry, buf: array<byte>, at: nat)
    requires Shaped(g, e) && at + 52 <= buf.Length
    modifies buf
    ensures buf[..] == Splice(old(buf[..]), at, Header(Abs(g, e)))
  {
    ghost var start := buf[..];
    PutBytes(buf, at, BE(e.ino, 4));
    PutBytes(buf, at + 4, BE(e.mode, 2));
    SpliceMore(start, at, BE(e.ino, 4), BE(e.mode, 2));
    PutBytes(buf, at + 6, BE(e.size, 8));
    SpliceMore(start, at, BE(e.ino, 4) + BE(e.mode, 2), BE(e.size, 8));
  }

  method PutExtentFields(x: Extent, buf: array<byte>, at: nat)
    requires at + 8 <= buf.Length
    modifies buf
    ensures buf[..] == Splice(old(buf[..]), at, BEExtent(x))
  {
    PutBytes(buf, at, BE(x.start, 4));
    PutBytes(buf, at + 4, BE(x.length, 4));
    SpliceMore(old(buf[..]), at, BE(x.start, 4), BE(x.length, 4));
  }

  lemma NextExtent(start: seq<byte>, at: nat, direct: seq<Extent>, k: nat)
    requires k < |direct| && at + 8 * |direct| <= |start|
    ensures Splice(Splice(start, at, BEExtents(direct[..k])), at + 8 * k, BEExtent(direct[k]))
            == Splice(start, at, BEExtents(direct[..k + 1]))
  {
    SpliceMore(start, at, BEExtents(direct[..k]), BEExtent(direct[k]));
    BEExtentsAppend(direct[..k], direct[k]);
    assert direct[..k + 1] == direct[..k] + [direct[k]];
  }

  /** The loop of portfs_fill_file_data over the direct extents in use. */
  method FillExtents(direct: seq<Extent>, buf: array<byte>, at: nat)
    requires at + 8 * |direct| <= buf.Length
    modifies buf
    ensures buf[..] == Splice(old(buf[..]), at, BEExtents(direct))
  {
    ghost var start := buf[..];
    assert Splice(start, at, []) == start;
    for k := 0 to |direct|
      invariant buf[..] == Splice(start, at, BEExtents(direct[..k]))
    {
      PutExtentFields(direct[k], buf, at + 8 * k);
      NextExtent(start, at, direct, k);
    }
    assert direct[..|direct|] == direct;
  }

  /** portfs_fill_file_data, for an entry with at most four extents. */
  method FillFileData(g: Geometry, e: Entry, buf: array<byte>, at: nat)
    requires Shaped(g, e) && IsReg(e.mode) && e.extentCount <= DIRECT_EXTENTS && at + 52 <= buf.Length
    modifies buf
    ensures buf[..] == Splice(old(buf[..]), at, EncodeSlot(Abs(g, e), old(buf[at..at + 52])))
  {
    ghost var start, s := buf[..], Abs(g, e);
    FillHeader(g, e, buf, at);
    ghost var b1 := buf[..];
    PutBytes(buf, at + 14, BE(e.extentCount, 2));
    ghost var b2 := buf[..];
    PutBytes(buf, at + 16, BE(e.extentsBlock, 4));
    ghost var b3 := buf[..];
    FillExtents(e.direct[..e.extentCount], buf, at + 20);
    FourSplices(start, at, Header(s), BE(e.extentCount, 2), BE(e.extentsBlock, 4), BEExtents(s.extents),
                b1, b2, b3, buf[..]);
    EncodedFile(s, start, at);
  }

  lemma FourSplices(s: seq<byte>, at: nat, a: seq<byte>, b: seq<byte>, c: seq<byte>, d: seq<byte>,
                    s1: seq<byte>, s2: seq<byte>, s3: seq<byte>, s4: seq<byte>)
    requires at + |a| + |b| + |c| + |d| <= |s| == |s1| == |s2| == |s3|
    requires s1 == Splice(s, at, a) && s2 == Splice(s1, at + |a|, b)
    requires s3 == Splice(s2, at + |a| + |b|, c) && s4 == Splice(s3, at + |a| + |b| + |c|, d)
    ensures s4 == Splice(s, at, a + (b + c + d))
  {
    SpliceMore(s, at, a, b);
    SpliceMore(s, at, a + b, c);
    SpliceMore(s, at, a + b + c, d);
    assert a + b + c + d == a + (b + c + d);
  }

  lemma EncodedFile(s: Slot, start: seq<byte>, at: nat)
    requires IsReg(s.mode) && |s.extents| <= DIRECT_EXTENTS && at + 52 <= |start|
    ensures Splice(start, at, Header(s) + FileFields(s)) == Splice(start, at, EncodeSlot(s, start[at..at + 52]))
  {
    SpliceRest(start, at, Header(s) + FileFields(s), 52);
  }

  /** portfs_fill_dir_data. */
  method FillDirData(g: Geometry, e: Entry, buf: array<byte>, at: nat)
    requires Shaped(g, e) && IsDir(e.mode) && e.extentCount <= DIRECT_EXTENTS && at + 52 <= buf.Length
    modifies buf
    ensures buf[..] == Splice(old(buf[..]), at, EncodeSlot(Abs(g, e), old(buf[at..at + 52])))
  {
    ghost var start, s := buf[..], Abs(g, e);
    FillHeader(g, e, buf, at);
    PutBytes(buf, at + 14, BE(e.dirBlock, 4));
    SpliceMore(start, at, Header(s), BE(e.dirBlock, 4));
    PutBytes(buf, at + 18, BE(e.parentIno, 4));
    SpliceMore(start, at, Header(s) + BE(e.dirBlock, 4), BE(e.parentIno, 4));
    SpliceRest(start, at, Header(s) + DirFields(s), 52);
    assert Header(s) + BE(e.dirBlock, 4) + BE(e.parentIno, 4) == Header(s) + DirFields(s);
  }

  // ---------------------------------------------------------------- directory blocks

  /** A directory the sync writes out: it has a block and its slots are in memory. */
  predicate PersistsDir(s: Slot) {
    IsDir(s.mode) && s.dirBlock != 0 && s.names.Some?
  }

  function DirBase(g: Geometry, s: Slot): nat {
    Mul32(s.dirBlock, g.blockSize)
  }

  /** Everything the sync encodes fits its place on disk. */
  ghost predicate TableEncodable(g: Geometry, slots: seq<Slot>) {
    forall i | 0 <= i < |slots| ::
      Encodable(slots[i]) && (slots[i].names.Some? ==> AllEncodable(slots[i].names.value))
  }

  ghost predicate DirStored(g: Geometry, s: Slot, store: seq<byte>) {
    IsDir(s.mode) && s.dirBlock != 0 && s.names.Some? && AllEncodable(s.names.value) ==>
      && DirBase(g, s) + 68 * |s.names.value| <= |store|
      && Piece(store, DirBase(g, s), 68 * |s.names.value|) == EncodeNames(s.names.value)
  }

  ghost predicate InDirBlocks(g: Geometry, slots: seq<Slot>, q: nat) {
    exists j :: 0 <= j < |slots| && IsDir(slots[j].mode) && slots[j].dirBlock != 0 && slots[j].names.Some?
             && DirBase(g, slots[j]) <= q < DirBase(g, slots[j]) + g.blockSize
  }

  ghost predicate OnlyDirBlocks(g: Geometry, slots: seq<Slot>, before: seq<byte>, after: seq<byte>) {
    |after| == |before| && forall q: nat | q < |before| && after[q] != before[q] :: InDirBlocks(g, slots, q)
  }

  /** Directory blocks lie in the data region, inside the storage, apart from each other. */
  lemma DirBlockPlace(g: Geometry, st: State, i: nat)
    requires Inv(g, st) && Addressable(g) && i < |st.table| && PersistsDir(st.table[i])
    ensures var s := st.table[i];
      && DirBase(g, s) == s.dirBlock * g.blockSize
      && g.dataStart * g.blockSize <= DirBase(g, s) && DirBase(g, s) + g.blockSize <= |st.store|
      && 68 * |s.names.value| <= g.blockSize
  {
    var s := st.table[i];
    assert SlotOk(g, s);
    MulMono(g.dataStart, s.dirBlock, g.blockSize);
    ProductsExact(g, Extent(s.dirBlock, 1));
    ExtentInStore(g, Extent(s.dirBlock, 1), st.store);
  }

  lemma DirBlocksApart(g: Geometry, st: State, i: nat, j: nat)
    requires Inv(g, st) && Addressable(g) && i < |st.table| && j < |st.table| && i != j
    requires PersistsDir(st.table[i]) && PersistsDir(st.table[j])
    ensures var a, b := DirBase(g, st.table[i]), DirBase(g, st.table[j]);
      a + g.blockSize <= b || b + g.blockSize <= a
  {
    DirBlockPlace(g, st, i);
    DirBlockPlace(g, st, j);
    OwnedDisjoint(g, st, i, j);
    var a, b := st.table[i].dirBlock, st.table[j].dirBlock;
    assert a in Owned(st.table[i]) && b in Owned(st.table[j]);
    if a < b {
      MulMono(a + 1, b, g.blockSize);
      Distribute(a, 1, g.blockSize);
    } else {
      MulMono(b + 1, a, g.blockSize);
      Distribute(b, 1, g.blockSize);
    }
  }

  /** The conversion loop of portfs_write_dir_data. */
  method EncodeEntries(entries: seq<DirEntry>) returns (buf: seq<byte>)
    requires AllEncodable(entries)
    ensures buf == EncodeNames(entries)
  {
    buf := [];
    for k := 0 to |entries|
      invariant AllEncodable(entries[..k]) && buf == EncodeNames(entries[..k])
    {
      EncodeNamesAppend(entries[..k], entries[k]);
      assert entries[..k + 1] == entries[..k] + [entries[k]];
      buf := buf + EncodeDirEntry(entries[k]);
    }
    assert entries[..|entries|] == entries;
  }

  /** portfs_write_dir_data; `n` bytes of the block's new contents landed. */
  method WriteDirData(g: Geometry, storage: StorageFile, e: Entry) returns (rc: int, ghost n: nat)
    requires e.dirBlock != 0 && e.names.Some? ==>
      AllEncodable(e.names.value) && Mul32(e.dirBlock, g.blockSize) + 68 * |e.names.value| <= |storage.bytes|
    modifies storage
    ensures e.dirBlock == 0 || e.names.None? ==> rc == 0 && storage.bytes == old(storage.bytes)
    ensures e.dirBlock != 0 && e.names.Some? ==>
      && n <= 68 * |e.names.value| && (rc == 0 ==> n == 68 * |e.names.value|)
      && storage.bytes == Splice(old(storage.bytes), Mul32(e.dirBlock, g.blockSize), EncodeNames(e.names.value)[..n])
    ensures storage.faults == old(storage.faults) + if rc == 0 then 0 else 1
  {
    n := 0;
    if e.dirBlock == 0 || e.names.None? {
      return 0, n;
    }
    var buf := EncodeEntries(e.names.value);
    var written := storage.Write(Mul32(e.dirBlock, g.blockSize), buf);
    n := Moved(written);
    rc := if written < 0 then written else if written != |buf| then -EIO else 0;
  }

  /** Writing one directory's block changes that block only, and leaves the others stored. */
  lemma DirWriteFrame(g: Geometry, st: State, i: nat, n: nat, after: seq<byte>, j: nat)
    requires Inv(g, st) && Addressable(g) && i < |st.table| && j < |st.table| && PersistsDir(st.table[i])
    requires AllEncodable(st.table[i].names.value) && n <= 68 * |st.table[i].names.value|
    requires DirBase(g, st.table[i]) + n <= |st.store|
    requires after == Splice(st.store, DirBase(g, st.table[i]), EncodeNames(st.table[i].names.value)[..n])
    ensures OnlyDirBlocks(g, st.table, st.store, after)
    ensures j != i && DirStored(g, st.table[j], st.store) ==> DirStored(g, st.table[j], after)
    ensures j == i && n == 68 * |st.table[i].names.value| ==> DirStored(g, st.table[j], after)
  {
    DirBlockPlace(g, st, i);
    var at, a := DirBase(g, st.table[i]), EncodeNames(st.table[i].names.value)[..n];
    forall q: nat | q < |st.store| && after[q] != st.store[q] ensures InDirBlocks(g, st.table, q) {
      assert at <= q < at + n;
    }
    SplicePieces(st.store, at, a, at, 0);
    if PersistsDir(st.table[j]) && AllEncodable(st.table[j].names.value) {
      DirBlockPlace(g, st, j);
      if j != i {
        DirBlocksApart(g, st, i, j);
        SplicePieces(st.store, at, a, DirBase(g, st.table[j]), 68 * |st.table[j].names.value|);
      }
    }
  }

  // ---------------------------------------------------------------- one batch

  /** The k-th 52-byte cell of a buffer or region. */
  function Cell(b: seq<byte>, k: nat): (r: seq<byte>)
    requires 52 * k + 52 <= |b|
    ensures |r| == 52
  {
    b[52 * k..52 * k + 52]
  }

  lemma CellOfSplice(b: seq<byte>, n: nat, a: seq<byte>, k: nat)
    requires |a| == 52 && 52 * n + 52 <= |b| && 52 * k + 52 <= |b|
    ensures Cell(Splice(b, 52 * n, a), k) == if k == n then a else Cell(b, k)
  {
    SplicePieces(b, 52 * n, a, 52 * k, 52);
  }

  /** The first `n` cells of the buffer hold the encodings of the slots from `i` on, over what
      the buffer held; the other cells are as they were. */
  ghost predicate Filled(slots: seq<Slot>, i: nat, n: nat, before: seq<byte>, buf: seq<byte>)
    requires |before| == |buf| == 52 * BATCH
  {
    && n <= BATCH
    && (forall k | 0 <= k < n ::
          && i + k < |slots| && |slots[i + k].extents| <= DIRECT_EXTENTS
          && Cell(buf, k) == EncodeSlot(slots[i + k], Cell(before, k)))
    && (forall k | n <= k < BATCH :: Cell(buf, k) == Cell(before, k))
  }

  lemma FilledMore(slots: seq<Slot>, i: nat, n: nat, before: seq<byte>, buf: seq<byte>, buf': seq<byte>)
    requires |before| == |buf| == |buf'| == 52 * BATCH && n < BATCH && Filled(slots, i, n, before, buf)
    requires i + n < |slots| && |slots[i + n].extents| <= DIRECT_EXTENTS
    requires buf' == Splice(buf, 52 * n, EncodeSlot(slots[i + n], Cell(buf, n)))
    ensures Filled(slots, i, n + 1, before, buf')
  {
    CellsOfSplice(buf, n, EncodeSlot(slots[i + n], Cell(buf, n)), buf');
    assert Cell(buf, n) == Cell(before, n);
  }

  lemma CellsOfSplice(b: seq<byte>, n: nat, a: seq<byte>, b': seq<byte>)
    requires |a| == 52 && |b| == |b'| == 52 * BATCH && n < BATCH && b' == Splice(b, 52 * n, a)
    ensures forall k | 0 <= k < BATCH :: Cell(b', k) == if k == n then a else Cell(b, k)
  {
    forall k | 0 <= k < BATCH ensures Cell(b', k) == if k == n then a else Cell(b, k) {
      CellOfSplice(b, n, a, k);
    }
  }

  /** The directories among the first `n` slots are stored, but for those `missed`. */
  ghost predicate DirsStored(g: Geometry, slots: seq<Slot>, store: seq<byte>, n: nat, missed: set<nat>) {
    forall j | 0 <= j < n && j < |slots| && j !in missed :: DirStored(g, slots[j], store)
  }

  lemma OnlyDirBlocksChain(g: Geometry, slots: seq<Slot>, a: seq<byte>, b: seq<byte>, c: seq<byte>)
    requires OnlyDirBlocks(g, slots, a, b) && OnlyDirBlocks(g, slots, b, c)
    ensures OnlyDirBlocks(g, slots, a, c)
  {
  }

  /** What writing the block of directory `i` may do to the storage. */
  ghost predicate DirSynced(g: Geometry, slots: seq<Slot>, i: nat, before: seq<byte>, after: seq<byte>, ok: bool)
    requires i < |slots|
  {
    && OnlyDirBlocks(g, slots, before, after)
    && (forall j | 0 <= j < |slots| && j != i && DirStored(g, slots[j], before) :: DirStored(g, slots[j], after))
    && (ok ==> DirStored(g, slots[i], after))
  }

  lemma DirWriteSyncs(g: Geometry, st: State, i: nat, n: nat, after: seq<byte>, ok: bool)
    requires Inv(g, st) && Addressable(g) && i < |st.table| && PersistsDir(st.table[i])
    requires AllEncodable(st.table[i].names.value) && n <= 68 * |st.table[i].names.value|
    requires DirBase(g, st.table[i]) + n <= |st.store|
    requires after == Splice(st.store, DirBase(g, st.table[i]), EncodeNames(st.table[i].names.value)[..n])
    requires ok ==> n == 68 * |st.table[i].names.value|
    ensures DirSynced(g, st.table, i, st.store, after, ok)
  {
    forall j | 0 <= j < |st.table| && j != i && DirStored(g, st.table[j], st.store)
      ensures DirStored(g, st.table[j], after)
    {
      DirWriteFrame(g, st, i, n, after, j);
    }
    DirWriteFrame(g, st, i, n, after, i);
  }

  /** The directory case: its block is written, what that returns is ignored. `ok` says whether the
      write was whole. */
  method SyncDir(sb: Superblock, i: nat) returns (ghost ok: bool)
    requires sb.Valid() && Inv(sb.geo, sb.View()) && Addressable(sb.geo) && i < sb.filetable.entries.Length
    requires TableEncodable(sb.geo, sb.filetable.slots) && IsDir(sb.filetable.entries[i].mode)
    modifies sb.storage
    ensures sb.Valid()
    ensures DirSynced(sb.geo, sb.filetable.slots, i, old(sb.storage.bytes), sb.storage.bytes, ok)
    ensures sb.storage.faults == old(sb.storage.faults) + if ok then 0 else 1
  {
    var e := sb.filetable.entries[i];
    ghost var st := sb.View();
    assert st.table[i] == Abs(sb.geo, e) && Encodable(st.table[i]);
    if PersistsDir(st.table[i]) {
      DirBlockPlace(sb.geo, st, i);
    }
    var rc;
    ghost var n;
    rc, n := WriteDirData(sb.geo, sb.storage, e);
    ok := rc == 0;
    if PersistsDir(st.table[i]) {
      DirWriteSyncs(sb.geo, st, i, n, sb.storage.bytes, ok);
    }
  }

  /** One entry of the inner loop of portfs_write_filetable: fill its cell, and write the
      directory's block. */
  method SyncEntry(sb: Superblock, buf: array<byte>, i: nat, cell: nat) returns (ghost ok: bool)
    requires sb.Valid() && Inv(sb.geo, sb.View()) && Addressable(sb.geo) && i < sb.filetable.entries.Length
    requires TableEncodable(sb.geo, sb.filetable.slots)
    requires buf.Length == 52 * BATCH && cell < BATCH
    requires buf != sb.bitmap.bytes as object && buf != sb.filetable.entries as object
    modifies buf, sb.storage
    ensures sb.Valid()
    ensures buf[..] == Splice(old(buf[..]), 52 * cell, EncodeSlot(sb.filetable.slots[i], Cell(old(buf[..]), cell)))
    ensures DirSynced(sb.geo, sb.filetable.slots, i, old(sb.storage.bytes), sb.storage.bytes, ok)
    ensures sb.storage.faults == old(sb.storage.faults) + if ok then 0 else 1
  {
    var e := sb.filetable.entries[i];
    ghost var slots, start := sb.filetable.slots, buf[..];
    assert slots[i] == Abs(sb.geo, e) && Encodable(slots[i]);
    assert old(buf[52 * cell..52 * cell + 52]) == Cell(start, cell);
    ok := true;
    if IsReg(e.mode) {
      FillFileData(sb.geo, e, buf, 52 * cell);
    } else if IsDir(e.mode) {
      FillDirData(sb.geo, e, buf, 52 * cell);
      ok := SyncDir(sb, i);
    } else {
      CellOntoItself(start, cell);
    }
  }

  lemma CellOntoItself(b: seq<byte>, k: nat)
    requires 52 * k + 52 <= |b|
    ensures Splice(b, 52 * k, Cell(b, k)) == b
  {
  }

  lemma DirsStoredMore(g: Geometry, slots: seq<Slot>, n: nat, before: seq<byte>, after: seq<byte>, ok: bool,
                       missed: set<nat>)
    requires n < |slots| && DirSynced(g, slots, n, before, after, ok) && DirsStored(g, slots, before, n, missed)
    ensures DirsStored(g, slots, after, n + 1, Missing(missed, n, ok))
  {
  }

  ghost function Missing(missed: set<nat>, n: nat, ok: bool): set<nat> {
    if ok then missed else missed + {n}
  }

  /** What the inner loop has done after `n` entries from `i` on. */
  ghost predicate BatchDone(g: Geometry, slots: seq<Slot>, i: nat, n: nat, start: seq<byte>, buf: seq<byte>,
                            store0: seq<byte>, store: seq<byte>, missed: set<nat>) {
    && |start| == |buf| == 52 * BATCH && Filled(slots, i, n, start, buf)
    && OnlyDirBlocks(g, slots, store0, store)
    && DirsStored(g, slots, store, i + n, missed) && (forall j | j in missed :: j < i + n)
  }

  lemma BatchMore(g: Geometry, slots: seq<Slot>, i: nat, n: nat, start: seq<byte>, buf: seq<byte>, buf': seq<byte>,
                  store0: seq<byte>, store: seq<byte>, store': seq<byte>, missed: set<nat>, ok: bool)
    requires BatchDone(g, slots, i, n, start, buf, store0, store, missed) && n < BATCH && i + n < |slots|
    requires |buf'| == |buf| && |slots[i + n].extents| <= DIRECT_EXTENTS
    requires buf' == Splice(buf, 52 * n, EncodeSlot(slots[i + n], Cell(buf, n)))
    requires DirSynced(g, slots, i + n, store, store', ok)
    ensures BatchDone(g, slots, i, n + 1, start, buf', store0, store', Missing(missed, i + n, ok))
    ensures |Missing(missed, i + n, ok)| == |missed| + if ok then 0 else 1
  {
    FilledMore(slots, i, n, start, buf, buf');
    OnlyDirBlocksChain(g, slots, store0, store, store');
    DirsStoredMore(g, slots, i + n, store, store', ok, missed);
  }

  lemma BatchStart(g: Geometry, slots: seq<Slot>, i: nat, start: seq<byte>, store: seq<byte>, missed: set<nat>)
    requires |start| == 52 * BATCH && DirsStored(g, slots, store, i, missed) && forall j | j in missed :: j < i
    ensures BatchDone(g, slots, i, 0, start, start, store, store, missed)
  {
  }

  /** The inner loop of portfs_write_filetable: one batch of entries from `i` on. The directories
      whose block was not written whole are added to those missed before. */
  method FillBatch(sb: Superblock, buf: array<byte>, i: nat, ghost before: set<nat>)
    returns (n: nat, ghost missed: set<nat>)
    requires sb.Valid() && Inv(sb.geo, sb.View()) && Addressable(sb.geo) && i < sb.filetable.entries.Length
    requires TableEncodable(sb.geo, sb.filetable.slots)
    requires buf.Length == 52 * BATCH
    requires buf != sb.bitmap.bytes as object && buf != sb.filetable.entries as object
    requires DirsStored(sb.geo, sb.filetable.slots, sb.storage.bytes, i, before) && forall j | j in before :: j < i
    modifies buf, sb.storage
    ensures sb.Valid() && n == Min(BATCH, sb.filetable.entries.Length - i) > 0
    ensures BatchDone(sb.geo, sb.filetable.slots, i, n, old(buf[..]), buf[..], old(sb.storage.bytes),
                      sb.storage.bytes, missed)
    ensures sb.storage.faults + |before| == old(sb.storage.faults) + |missed|
  {
    ghost var g, slots, store0, start := sb.geo, sb.filetable.slots, sb.storage.bytes, buf[..];
    ghost var st0 := sb.View();
    n, missed := 0, before;
    BatchStart(g, slots, i, start, store0, before);
    while n < BATCH && i + n < sb.filetable.entries.Length
      invariant sb.Valid() && n <= BATCH && i + n <= sb.filetable.entries.Length
      invariant BatchDone(g, slots, i, n, start, buf[..], store0, sb.storage.bytes, missed)
      invariant sb.storage.faults + |before| == old(sb.storage.faults) + |missed|
      decreases BATCH - n
    {
      n, missed := FillOne(sb, buf, i, n, st0, start, missed);
    }
  }

  /** One round of it; `st0` is the state the batch began in. */
  method FillOne(sb: Superblock, buf: array<byte>, i: nat, n: nat, ghost st0: State, ghost start: seq<byte>,
                 ghost missed: set<nat>)
    returns (n': nat, ghost missed': set<nat>)
    requires sb.Valid() && Inv(sb.geo, st0) && Addressable(sb.geo)
    requires sb.View() == State(st0.used, st0.table, sb.storage.bytes)
    requires TableEncodable(sb.geo, st0.table) && n < BATCH && i + n < sb.filetable.entries.Length
    requires buf.Length == 52 * BATCH
    requires buf != sb.bitmap.bytes as object && buf != sb.filetable.entries as object
    requires BatchDone(sb.geo, st0.table, i, n, start, buf[..], st0.store, sb.storage.bytes, missed)
    modifies buf, sb.storage
    ensures sb.Valid() && n' == n + 1
    ensures BatchDone(sb.geo, st0.table, i, n', start, buf[..], st0.store, sb.storage.bytes, missed')
    ensures sb.storage.faults + |missed| == old(sb.storage.faults) + |missed'|
  {
    ghost var before, mid := buf[..], sb.storage.bytes;
    NewStore(sb.geo, st0, mid);
    ghost var ok := SyncEntry(sb, buf, i + n, n);
    assert Encodable(st0.table[i + n]);
    BatchMore(sb.geo, st0.table, i, n, start, before, buf[..], st0.store, mid, sb.storage.bytes, missed, ok);
    n', missed' := n + 1, Missing(missed, i + n, ok);
  }

  // ---------------------------------------------------------------- the whole table

  function TableBase(g: Geometry): nat {
    Mul32(g.filetableStart, g.blockSize)
  }

  /** What the buffer held when slot `k` was encoded: leftovers of the allocation in the first
      batch, zeros afterwards. */
  function PriorOf(garbage: seq<byte>, k: nat): (r: seq<byte>)
    requires |garbage| == 52 * BATCH
    ensures |r| == 52
  {
    if k < BATCH then Cell(garbage, k) else seq(52, _ => 0 as byte)
  }

  /** Slot `k` is at its place in a table region that starts at `base`. */
  ghost predicate SlotStored(base: nat, slots: seq<Slot>, store: seq<byte>, garbage: seq<byte>, k: nat)
    requires |garbage| == 52 * BATCH && k < |slots| && base + 52 * |slots| <= |store|
  {
    && |slots[k].extents| <= DIRECT_EXTENTS
    && Piece(store, base + 52 * k, 52) == EncodeSlot(slots[k], PriorOf(garbage, k))
  }

  ghost predicate TableStored(g: Geometry, slots: seq<Slot>, store: seq<byte>, garbage: seq<byte>, n: nat)
    requires |garbage| == 52 * BATCH && n <= |slots|
  {
    && TableBase(g) + 52 * |slots| <= |store|
    && forall k | 0 <= k < n :: SlotStored(TableBase(g), slots, store, garbage, k)
  }

  /** The table region lies below the data region, its products do not wrap. */
  lemma TablePlace(g: Geometry, store: seq<byte>)
    requires ValidGeometry(g) && Addressable(g) && Holds(g, store)
    ensures TableBase(g) == g.filetableStart * g.blockSize
    ensures TableBase(g) + 52 * g.maxFiles <= g.dataStart * g.blockSize <= |store|
  {
    MulMono(g.filetableStart, g.totalBlocks - 1, g.blockSize);
    SmallProduct(g.filetableStart, g.blockSize);
    Distribute(g.filetableStart, g.filetableSize, g.blockSize);
    MulMono(g.filetableStart + g.filetableSize, g.dataStart, g.blockSize);
    MulMono(g.dataStart, g.totalBlocks, g.blockSize);
  }

  lemma DirBlocksAbove(g: Geometry, st: State, q: nat)
    requires Inv(g, st) && Addressable(g) && InDirBlocks(g, st.table, q)
    ensures q >= g.dataStart * g.blockSize
  {
    var j :| 0 <= j < |st.table| && PersistsDir(st.table[j])
           && DirBase(g, st.table[j]) <= q < DirBase(g, st.table[j]) + g.blockSize;
    DirBlockPlace(g, st, j);
  }

  lemma SameBelowKeepsTable(g: Geometry, slots: seq<Slot>, store: seq<byte>, after: seq<byte>, garbage: seq<byte>, n: nat)
    requires |garbage| == 52 * BATCH && n <= |slots| && TableStored(g, slots, store, garbage, n)
    requires |after| == |store| && forall q: nat | q < TableBase(g) + 52 * |slots| :: after[q] == store[q]
    ensures TableStored(g, slots, after, garbage, n)
  {
    forall k | 0 <= k < n ensures SlotStored(TableBase(g), slots, after, garbage, k) {
      assert SlotStored(TableBase(g), slots, store, garbage, k);
      assert Piece(after, TableBase(g) + 52 * k, 52) == Piece(store, TableBase(g) + 52 * k, 52);
    }
  }

  /** Directory writes of later batches leave the table region alone. */
  lemma DirWritesKeepTable(g: Geometry, st: State, after: seq<byte>, garbage: seq<byte>, n: nat)
    requires Inv(g, st) && Addressable(g) && |garbage| == 52 * BATCH && n <= |st.table|
    requires TableStored(g, st.table, st.store, garbage, n) && OnlyDirBlocks(g, st.table, st.store, after)
    ensures TableStored(g, st.table, after, garbage, n)
  {
    TablePlace(g, st.store);
    forall q: nat | q < g.dataStart * g.blockSize ensures after[q] == st.store[q] {
      if InDirBlocks(g, st.table, q) {
        DirBlocksAbove(g, st, q);
      }
    }
    SameBelowKeepsTable(g, st.table, st.store, after, garbage, n);
  }

  /** The buffer as a batch finds it. */
  ghost predicate Ready(garbage: seq<byte>, buf: seq<byte>, i: nat) {
    && |garbage| == |buf| == 52 * BATCH
    && forall k | 0 <= k < BATCH :: Cell(buf, k) == PriorOf(garbage, i + k)
  }

  lemma SlotOfBatch(slots: seq<Slot>, i: nat, n: nat, before: seq<byte>, buf: seq<byte>, garbage: seq<byte>, k: nat)
    requires Ready(garbage, before, i) && |buf| == 52 * BATCH && Filled(slots, i, n, before, buf)
    requires i <= k < i + n
    ensures k < |slots| && |slots[k].extents| <= DIRECT_EXTENTS && k - i < BATCH
    ensures Cell(buf, k - i) == EncodeSlot(slots[k], PriorOf(garbage, k))
  {
    var c := k - i;
    var cell := Cell(buf, c);
    assert i + c < |slots| && slots[i + c] == slots[k];
    assert Cell(before, c) == PriorOf(garbage, i + c);
  }

  /** Writing a filled batch into a region that starts at `base` extends what is stored. */
  lemma CellsStored(base: nat, slots: seq<Slot>, store: seq<byte>, i: nat, n: nat, before: seq<byte>,
                    buf: seq<byte>, garbage: seq<byte>, k: nat)
    requires Ready(garbage, before, i) && |buf| == 52 * BATCH && Filled(slots, i, n, before, buf)
    requires k < i + n <= |slots| && base + 52 * |slots| <= |store| && n <= BATCH
    requires k < i ==> SlotStored(base, slots, store, garbage, k)
    ensures SlotStored(base, slots, Splice(store, base + 52 * i, buf[..52 * n]), garbage, k)
  {
    if k < i {
      OldCell(base, slots, store, i, buf[..52 * n], garbage, k);
    } else {
      NewCell(base, slots, store, i, n, before, buf, garbage, k);
    }
  }

  lemma BatchStored(g: Geometry, slots: seq<Slot>, store: seq<byte>, i: nat, n: nat, before: seq<byte>,
                    buf: seq<byte>, garbage: seq<byte>, after: seq<byte>)
    requires Ready(garbage, before, i) && |buf| == 52 * BATCH
    requires i + n <= |slots| && Filled(slots, i, n, before, buf)
    requires TableStored(g, slots, store, garbage, i)
    requires after == Splice(store, TableBase(g) + 52 * i, buf[..52 * n])
    ensures TableStored(g, slots, after, garbage, i + n)
  {
    forall k | 0 <= k < i + n ensures SlotStored(TableBase(g), slots, after, garbage, k) {
      CellsStored(TableBase(g), slots, store, i, n, before, buf, garbage, k);
    }
  }

  lemma NewCell(base: nat, slots: seq<Slot>, store: seq<byte>, i: nat, n: nat, before: seq<byte>, buf: seq<byte>,
                garbage: seq<byte>, k: nat)
    requires Ready(garbage, before, i) && |buf| == 52 * BATCH && Filled(slots, i, n, before, buf)
    requires i <= k < i + n <= |slots| && base + 52 * |slots| <= |store| && n <= BATCH
    ensures SlotStored(base, slots, Splice(store, base + 52 * i, buf[..52 * n]), garbage, k)
  {
    SlotOfBatch(slots, i, n, before, buf, garbage, k);
    CellInRegion(store, base + 52 * i, buf, n, k - i);
    assert base + 52 * i + 52 * (k - i) == base + 52 * k;
  }

  lemma OldCell(base: nat, slots: seq<Slot>, store: seq<byte>, i: nat, a: seq<byte>, garbage: seq<byte>, k: nat)
    requires |garbage| == 52 * BATCH && k < i <= |slots| && base + 52 * |slots| <= |store|
    requires base + 52 * i + |a| <= |store| && SlotStored(base, slots, store, garbage, k)
    ensures SlotStored(base, slots, Splice(store, base + 52 * i, a), garbage, k)
  {
    SplicePieces(store, base + 52 * i, a, base + 52 * k, 52);
  }

  lemma CellInRegion(store: seq<byte>, at: nat, buf: seq<byte>, n: nat, c: nat)
    requires c < n && 52 * n <= |buf| && at + 52 * n <= |store|
    ensures Piece(Splice(store, at, buf[..52 * n]), at + 52 * c, 52) == Cell(buf, c)
  {
  }

  lemma TableWriteKeepsDirs(g: Geometry, st: State, at: nat, a: seq<byte>, n: nat, missed: set<nat>)
    requires Inv(g, st) && Addressable(g) && at + |a| <= g.dataStart * g.blockSize
    requires at + |a| <= |st.store| && DirsStored(g, st.table, st.store, n, missed)
    ensures DirsStored(g, st.table, Splice(st.store, at, a), n, missed)
  {
    forall j | 0 <= j < n && j < |st.table| && j !in missed
      ensures DirStored(g, st.table[j], Splice(st.store, at, a))
    {
      assert DirStored(g, st.table[j], st.store);
      if PersistsDir(st.table[j]) && AllEncodable(st.table[j].names.value) {
        DirBlockPlace(g, st, j);
        SplicePieces(st.store, at, a, DirBase(g, st.table[j]), 68 * |st.table[j].names.value|);
      }
    }
  }

  /** What saving the table and the bitmap may change: bytes from the table up to the data region,
      and directory blocks. */
  ghost predicate SaveFrame(g: Geometry, slots: seq<Slot>, before: seq<byte>, after: seq<byte>) {
    && |after| == |before|
    && forall q: nat | q < |before| && after[q] != before[q] ::
         TableBase(g) <= q < g.dataStart * g.blockSize || InDirBlocks(g, slots, q)
  }

  lemma FrameMore(g: Geometry, slots: seq<Slot>, a: seq<byte>, b: seq<byte>, at: nat, data: seq<byte>)
    requires SaveFrame(g, slots, a, b) && at + |data| <= |b|
    requires TableBase(g) <= at && at + |data| <= g.dataStart * g.blockSize
    ensures SaveFrame(g, slots, a, Splice(b, at, data))
  {
  }

  lemma FrameChain(g: Geometry, slots: seq<Slot>, a: seq<byte>, b: seq<byte>, c: seq<byte>)
    requires SaveFrame(g, slots, a, b) && (SaveFrame(g, slots, b, c) || OnlyDirBlocks(g, slots, b, c))
    ensures SaveFrame(g, slots, a, c)
  {
  }

  /** A batch goes below the data region. */
  lemma BatchPlace(g: Geometry, st: State, i: nat, n: nat)
    requires Inv(g, st) && Addressable(g) && i + n <= |st.table|
    ensures TableBase(g) + 52 * i + 52 * n <= g.dataStart * g.blockSize <= |st.store|
  {
    TablePlace(g, st.store);
  }

  /** Whatever part of a batch is written, other bytes and the directories stay. */
  lemma BatchFrame(g: Geometry, st: State, store1: seq<byte>, at: nat, a: seq<byte>, n: nat, missed: set<nat>)
    requires Inv(g, st) && Addressable(g) && TableBase(g) <= at && at + |a| <= g.dataStart * g.blockSize <= |st.store|
    requires OnlyDirBlocks(g, st.table, st.store, store1) && DirsStored(g, st.table, store1, n, missed)
    ensures |store1| == |st.store|
    ensures SaveFrame(g, st.table, st.store, Splice(store1, at, a))
    ensures DirsStored(g, st.table, Splice(store1, at, a), n, missed)
  {
    NewStore(g, st, store1);
    TableWriteKeepsDirs(g, State(st.used, st.table, store1), at, a, n, missed);
    assert SaveFrame(g, st.table, st.store, store1);
    FrameMore(g, st.table, st.store, store1, at, a);
  }

  /** A batch written whole joins the stored table. */
  lemma BatchJoins(g: Geometry, st: State, store1: seq<byte>, i: nat, n: nat, before: seq<byte>, buf: seq<byte>,
                   garbage: seq<byte>, missed: set<nat>)
    requires Inv(g, st) && Addressable(g) && i + n <= |st.table|
    requires Ready(garbage, before, i) && TableStored(g, st.table, st.store, garbage, i)
    requires BatchDone(g, st.table, i, n, before, buf, st.store, store1, missed)
    ensures TableBase(g) + 52 * i + 52 * n <= |store1|
    ensures TableStored(g, st.table, Splice(store1, TableBase(g) + 52 * i, buf[..52 * n]), garbage, i + n)
  {
    BatchPlace(g, st, i, n);
    DirWritesKeepTable(g, st, store1, garbage, i);
    BatchStored(g, st.table, store1, i, n, before, buf, garbage, Splice(store1, TableBase(g) + 52 * i, buf[..52 * n]));
  }

  /** One round of the outer loop of portfs_write_filetable: fill a batch, write it, clear the
      part of the buffer that was used. It fails exactly if the batch was not written whole. */
  method WriteBatch(sb: Superblock, buf: array<byte>, i: nat, ghost garbage: seq<byte>, ghost before: set<nat>)
    returns (rc: int, n: nat, ghost missed: set<nat>)
    requires sb.Valid() && Inv(sb.geo, sb.View()) && Addressable(sb.geo) && i < sb.filetable.entries.Length
    requires TableEncodable(sb.geo, sb.filetable.slots)
    requires Ready(garbage, buf[..], i)
    requires buf != sb.bitmap.bytes as object && buf != sb.filetable.entries as object
    requires TableStored(sb.geo, sb.filetable.slots, sb.storage.bytes, garbage, i)
    requires DirsStored(sb.geo, sb.filetable.slots, sb.storage.bytes, i, before) && forall j | j in before :: j < i
    modifies buf, sb.storage
    ensures sb.Valid() && n == Min(BATCH, sb.filetable.entries.Length - i) && (rc == 0 || rc == -EIO)
    ensures |buf[..]| == 52 * BATCH && forall k | 0 <= k < n :: Cell(buf[..], k) == seq(52, _ => 0 as byte)
    ensures rc == 0 ==> TableStored(sb.geo, sb.filetable.slots, sb.storage.bytes, garbage, i + n)
    ensures DirsStored(sb.geo, sb.filetable.slots, sb.storage.bytes, i + n, missed)
    ensures forall j | j in missed :: j < i + n
    ensures SaveFrame(sb.geo, sb.filetable.slots, old(sb.storage.bytes), sb.storage.bytes)
    ensures sb.storage.faults + |before| == old(sb.storage.faults) + |missed| + if rc == 0 then 0 else 1
  {
    ghost var st0, start := sb.View(), buf[..];
    n, missed := FillBatch(sb, buf, i, before);
    rc := WriteCells(sb, buf, i, n, st0, start, garbage, missed);
    ClearCells(buf, n);
  }

  /** The table write of a batch that began in state `st0`. */
  method WriteCells(sb: Superblock, buf: array<byte>, i: nat, n: nat, ghost st0: State, ghost start: seq<byte>,
                    ghost garbage: seq<byte>, ghost missed: set<nat>) returns (rc: int)
    requires sb.Valid() && Inv(sb.geo, st0) && Addressable(sb.geo) && i + n <= |st0.table|
    requires sb.View() == State(st0.used, st0.table, sb.storage.bytes)
    requires Ready(garbage, start, i) && TableStored(sb.geo, st0.table, st0.store, garbage, i)
    requires BatchDone(sb.geo, st0.table, i, n, start, buf[..], st0.store, sb.storage.bytes, missed)
    modifies sb.storage
    ensures sb.Valid() && (rc == 0 || rc == -EIO)
    ensures SaveFrame(sb.geo, st0.table, st0.store, sb.storage.bytes)
    ensures DirsStored(sb.geo, st0.table, sb.storage.bytes, i + n, missed)
    ensures rc == 0 ==> TableStored(sb.geo, st0.table, sb.storage.bytes, garbage, i + n)
    ensures sb.storage.faults == old(sb.storage.faults) + if rc == 0 then 0 else 1
  {
    ghost var mid, filled := sb.storage.bytes, buf[..];
    BatchPlace(sb.geo, st0, i, n);
    var at, cells := TableBase(sb.geo) + 52 * i, buf[..52 * n];
    assert cells == filled[..52 * n] && |cells| == 52 * n;
    var written := sb.storage.Write(at, cells);
    BatchFrame(sb.geo, st0, mid, at, cells[..Moved(written)], i + n, missed);
    rc := if written != |cells| then -EIO else 0;
    if rc == 0 {
      assert cells[..|cells|] == cells;
      BatchJoins(sb.geo, st0, mid, i, n, start, filled, garbage, missed);
    }
  }

  /** memset of the cells used. */
  method ClearCells(buf: array<byte>, n: nat)
    requires 52 * n <= buf.Length
    modifies buf
    ensures forall k | 0 <= k < n :: Cell(buf[..], k) == seq(52, _ => 0 as byte)
  {
    forall k | 0 <= k < 52 * n {
      buf[k] := 0;
    }
  }

  /** portfs_write_filetable. It fails exactly if a batch of the table was not written whole. On
      success every slot's encoding is at its own place, whatever the number of batches, and every
      directory's block is stored but for those in `missed`, whose own writes fell short: the
      return code does not tell. */
  method WriteFiletable(sb: Superblock) returns (rc: int, ghost garbage: seq<byte>, ghost missed: set<nat>)
    requires sb.Valid() && Inv(sb.geo, sb.View()) && Addressable(sb.geo)
    requires TableEncodable(sb.geo, sb.filetable.slots)
    modifies sb.storage
    ensures sb.Valid() && |garbage| == 52 * BATCH && (rc == 0 || rc == -EIO)
    ensures rc == 0 ==>
      && TableStored(sb.geo, sb.filetable.slots, sb.storage.bytes, garbage, sb.filetable.entries.Length)
      && DirsStored(sb.geo, sb.filetable.slots, sb.storage.bytes, sb.filetable.entries.Length, missed)
    ensures SaveFrame(sb.geo, sb.filetable.slots, old(sb.storage.bytes), sb.storage.bytes)
    ensures sb.storage.faults == old(sb.storage.faults) + |missed| + if rc == 0 then 0 else 1
  {
    ghost var g, slots := sb.geo, sb.filetable.slots;
    ghost var st0 := sb.View();
    var buf := new byte[52 * BATCH];
    garbage, missed, rc := buf[..], {}, 0;
    var i := 0;
    TablePlace(g, sb.storage.bytes);
    while i < sb.filetable.entries.Length
      invariant sb.Valid() && i <= sb.filetable.entries.Length && |garbage| == 52 * BATCH && fresh(buf)
      invariant TableStored(g, slots, sb.storage.bytes, garbage, i)
      invariant DirsStored(g, slots, sb.storage.bytes, i, missed) && forall j | j in missed :: j < i
      invariant SaveFrame(g, slots, st0.store, sb.storage.bytes)
      invariant sb.storage.faults == old(sb.storage.faults) + |missed|
      invariant i < sb.filetable.entries.Length ==> Ready(garbage, buf[..], i)
    {
      ghost var before := sb.storage.bytes;
      NewStore(g, st0, before);
      var n;
      rc, n, missed := WriteBatch(sb, buf, i, garbage, missed);
      FrameChain(g, slots, st0.store, before, sb.storage.bytes);
      if rc != 0 {
        return;
      }
      i := i + n;
    }
  }

  // ---------------------------------------------------------------- loading

  /** The decoding loop of portfs_init_filetable. */
  method DecodeEntries(data: seq<byte>, memory: array<Decoded>)
    requires 52 * memory.Length <= |data|
    modifies memory
    ensures forall k | 0 <= k < memory.Length :: memory[k] == DecodeSlot(Cell(data, k), old(memory[k]))
  {
    for i := 0 to memory.Length
      invariant forall k | 0 <= k < i :: memory[k] == DecodeSlot(Cell(data, k), old(memory[k]))
      invariant forall k | i <= k < memory.Length :: memory[k] == old(memory[k])
    {
      memory[i] := DecodeSlot(Cell(data, i), memory[i]);
    }
  }

  /** portfs_init_filetable: one read of the region, then entry by entry; `memory` is what the
      freshly allocated table happens to hold. */
  method InitFiletable(g: Geometry, storage: StorageFile, memory: array<Decoded>) returns (rc: int)
    requires ValidGeometry(g) && memory.Length == g.maxFiles
    requires Mul32(g.filetableSize, g.blockSize) == g.filetableSize * g.blockSize
    modifies memory, storage`faults
    ensures rc <= 0 && storage.faults >= old(storage.faults)
    ensures rc == 0 <==> storage.Within(TableBase(g), g.filetableSize * g.blockSize)
                         && storage.faults == old(storage.faults)
    ensures rc == 0 ==>
      forall k | 0 <= k < g.maxFiles ::
        memory[k] == DecodeSlot(Piece(storage.bytes, TableBase(g) + 52 * k, 52), old(memory[k]))
    ensures rc != 0 ==> memory[..] == old(memory[..])
  {
    var total := Mul32(g.filetableSize, g.blockSize);
    var base := TableBase(g);
    var n, data := storage.Read(base, total);
    if n < 0 {
      return n;
    }
    if n != total {
      return -EIO;
    }
    DecodeEntries(data, memory);
    forall k | 0 <= k < g.maxFiles ensures Cell(data, k) == Piece(storage.bytes, base + 52 * k, 52) {
      CellOfRegion(storage.bytes, base, total, k);
    }
    return 0;
  }

  lemma CellOfRegion(store: seq<byte>, base: nat, total: nat, k: nat)
    requires 52 * k + 52 <= total && base + total <= |store|
    ensures Cell(store[base..base + total], k) == Piece(store, base + 52 * k, 52)
  {
    var cell := Cell(store[base..base + total], k);
    forall q | 0 <= q < 52 ensures cell[q] == store[base + 52 * k + q] {
      assert cell[q] == store[base..base + total][52 * k + q];
    }
  }

  /** What was saved loads back. A file comes back with its mode, size, extents and index block,
      a directory with its block and parent; the inode number of either loads as 0. A slot that
      was free loads with whatever mode the buffer held, which is 0 from the second batch on. */
  lemma SavedThenLoaded(g: Geometry, slots: seq<Slot>, store: seq<byte>, garbage: seq<byte>, k: nat, memory: Decoded)
    requires |garbage| == 52 * BATCH && TableEncodable(g, slots) && k < |slots|
    requires TableStored(g, slots, store, garbage, |slots|)
    ensures var s, d := slots[k], DecodeSlot(Piece(store, TableBase(g) + 52 * k, 52), memory);
      && d.ino == 0
      && (IsReg(s.mode) ==>
            && d.mode == s.mode && d.size == s.size && d.extentsBlock == s.extentsBlock
            && d.extentCount == |s.extents| <= |d.direct| && d.direct[..d.extentCount] == s.extents)
      && (IsDir(s.mode) ==>
            && d.mode == s.mode && d.size == s.size && d.dirBlock == s.dirBlock && d.parentIno == s.parentIno)
      && (!IsReg(s.mode) && !IsDir(s.mode) ==> d.mode == UnBE(PriorOf(garbage, k)[4..6]))
      && (!IsReg(s.mode) && !IsDir(s.mode) && k >= BATCH ==> d.mode == 0)
  {
    var s, prior := slots[k], PriorOf(garbage, k);
    assert SlotStored(TableBase(g), slots, store, garbage, k) && Encodable(s);
    InoLoadsAsZero(Piece(store, TableBase(g) + 52 * k, 52)[..4]);
    if IsReg(s.mode) {
      FileRoundTrip(s, prior, memory);
    } else if IsDir(s.mode) {
      DirRoundTrip(s, prior, memory);
    } else if k >= BATCH {
      assert prior[4..6] == [0, 0];
      assert UnBE([0, 0]) == UnBE([0]) * 256 + 0 && UnBE([0]) == 0;
    }
  }

  /** A stored directory block decodes to the directory's slots. */
  lemma SavedDirLoads(g: Geometry, st: State, i: nat)
    requires Inv(g, st) && Addressable(g) && i < |st.table| && PersistsDir(st.table[i])
    requires AllEncodable(st.table[i].names.value) && DirStored(g, st.table[i], st.store)
    ensures var s := st.table[i];
      && DirBase(g, s) + g.blockSize <= |st.store|
      && DecodeNames(st.store[DirBase(g, s)..DirBase(g, s) + g.blockSize], MaxDirEntries(g)) == s.names.value
  {
    var s := st.table[i];
    DirBlockPlace(g, st, i);
    assert SlotOk(g, s);
    var block, n := st.store[DirBase(g, s)..DirBase(g, s) + g.blockSize], 68 * |s.names.value|;
    assert block[..n] == Piece(st.store, DirBase(g, s), n) == EncodeNames(s.names.value);
    assert block == EncodeNames(s.names.value) + block[n..];
    NamesRoundTrip(s.names.value, block[n..]);
  }

  // ---------------------------------------------------------------- the bitmap region

  function ToByte(b: bv8): byte {
    (b as int) as byte
  }

  function FromByte(b: byte): bv8 {
    (b as int) as bv8
  }

  function ToBytes(bits: seq<bv8>): seq<byte> {
    seq(|bits|, i requires 0 <= i < |bits| => ToByte(bits[i]))
  }

  function FromBytes(b: seq<byte>): seq<bv8> {
    seq(|b|, i requires 0 <= i < |b| => FromByte(b[i]))
  }

  /** The bitmap bytes survive: saved and loaded, they allocate the same blocks. */
  lemma BitmapRoundTrip(bits: seq<bv8>)
    ensures FromBytes(ToBytes(bits)) == bits
    ensures Allocated(FromBytes(ToBytes(bits))) == Allocated(bits)
  {
  }

  lemma NextPiece(before: seq<byte>, start: nat, bytes: seq<byte>, offset: nat, m: nat, landed: nat)
    requires landed <= m && offset + m <= |bytes| && start + offset + m <= |before|
    ensures Splice(Splice(before, start, bytes[..offset]), start + offset, bytes[offset..offset + m][..landed])
            == Splice(before, start, bytes[..offset + landed])
  {
    SpliceMore(before, start, bytes[..offset], bytes[offset..offset + m][..landed]);
    assert bytes[..offset] + bytes[offset..offset + m][..landed] == bytes[..offset + landed];
  }

  /** The loop of portfs_write_block_bitmap: pieces of one buffer's size until nothing remains. */
  method WritePieces(bytes: seq<byte>, storage: StorageFile, start: nat) returns (rc: int, ghost n: nat)
    requires start + |bytes| <= |storage.bytes|
    modifies storage
    ensures n <= |bytes| && (rc == 0 ==> n == |bytes|)
    ensures storage.bytes == Splice(old(storage.bytes), start, bytes[..n])
    ensures storage.faults == old(storage.faults) + if rc == 0 then 0 else 1
  {
    ghost var before := storage.bytes;
    var offset: nat, remaining: nat := 0, |bytes|;
    rc, n := 0, 0;
    assert Splice(before, start, bytes[..0]) == before;
    while remaining > 0
      invariant rc == 0 && n == offset && offset + remaining == |bytes|
      invariant storage.bytes == Splice(before, start, bytes[..offset])
      invariant storage.faults == old(storage.faults)
    {
      var m := Min(WRITE_BUFFER_SIZE, remaining);
      var piece := bytes[offset..offset + m];
      var written := storage.Write(start + offset, piece);
      ghost var landed := Moved(written);
      NextPiece(before, start, bytes, offset, m, landed);
      n := offset + landed;
      assert storage.bytes == Splice(before, start, bytes[..n]);
      if written < 0 {
        rc := written;
        return;
      }
      if written < m {
        rc := -EIO;
        return;
      }
      offset := offset + m;
      remaining := remaining - written;
    }
  }

  /** portfs_write_block_bitmap. On failure a prefix of the region has been written. */
  method WriteBlockBitmap(g: Geometry, bits: array<bv8>, storage: StorageFile) returns (rc: int, ghost n: nat)
    requires Mul32(g.bitmapSize, g.blockSize) <= bits.Length
    requires Mul32(g.bitmapStart, g.blockSize) + Mul32(g.bitmapSize, g.blockSize) <= |storage.bytes|
    modifies storage
    ensures var total := Mul32(g.bitmapSize, g.blockSize);
      && n <= total && (rc == 0 ==> n == total)
      && storage.bytes ==
           Splice(old(storage.bytes), Mul32(g.bitmapStart, g.blockSize), ToBytes(bits[..total])[..n])
    ensures storage.faults == old(storage.faults) + if rc == 0 then 0 else 1
  {
    var total := Mul32(g.bitmapSize, g.blockSize);
    rc, n := WritePieces(ToBytes(bits[..total]), storage, Mul32(g.bitmapStart, g.blockSize));
  }

  /** portfs_init_block_bitmap. A read that stops short without an error passes for success, and
      leaves what the memory held in the rest. */
  method InitBlockBitmap(g: Geometry, storage: StorageFile, bits: array<bv8>) returns (rc: int, ghost n: nat)
    requires bits.Length == Mul32(g.bitmapSize, g.blockSize)
    modifies bits, storage`faults
    ensures rc <= 0 && n <= bits.Length && storage.faults >= old(storage.faults)
    ensures storage.Within(Mul32(g.bitmapStart, g.blockSize), bits.Length) && storage.faults == old(storage.faults)
            <==> n == bits.Length && rc == 0
    ensures n > 0 ==> storage.Within(Mul32(g.bitmapStart, g.blockSize), n)
    ensures n > 0 ==> rc == 0
    ensures forall k | 0 <= k < bits.Length ::
      bits[k] == if k < n then FromByte(storage.bytes[Mul32(g.bitmapStart, g.blockSize) + k]) else old(bits[k])
  {
    var base := Mul32(g.bitmapStart, g.blockSize);
    var read, data := storage.Read(base, bits.Length);
    n := Moved(read);
    forall k | 0 <= k < |data| {
      bits[k] := FromByte(data[k]);
    }
    rc := if read < 0 then read else 0;
  }
}
