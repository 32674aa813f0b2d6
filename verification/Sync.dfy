/** kernel/super.c, portfs_sync_fs and portfs_init_fs_data: superblock, file table and bitmap written
    out in turn, and read back by the next mount. */
module Sync {
  import opened Types
  import opened Translation
  import opened Spec
  import opened Ownership
  import opened Codec
  import opened Storage
  import opened FileSystem
  import opened Persistence

  // ---------------------------------------------------------------- the table and the bitmap

  /** The bitmap region lies between the table and the data, and its products do not wrap. */
  lemma BitmapPlace(g: Geometry, store: seq<byte>)
    requires ValidGeometry(g) && Addressable(g) && Holds(g, store)
    ensures Mul32(g.bitmapSize, g.blockSize) == g.bitmapSize * g.blockSize
    ensures Mul32(g.filetableSize, g.blockSize) == g.filetableSize * g.blockSize
    ensures TableBase(g) + g.filetableSize * g.blockSize <= Mul32(g.bitmapStart, g.blockSize)
    ensures Mul32(g.bitmapStart, g.blockSize) + Mul32(g.bitmapSize, g.blockSize) <= g.dataStart * g.blockSize
    ensures g.dataStart * g.blockSize <= |store|
  {
    TablePlace(g, store);
    MulMono(g.bitmapStart, g.totalBlocks - 1, g.blockSize);
    MulMono(g.bitmapSize, g.totalBlocks - 1, g.blockSize);
    MulMono(g.filetableSize, g.totalBlocks - 1, g.blockSize);
    SmallProduct(g.bitmapStart, g.blockSize);
    SmallProduct(g.bitmapSize, g.blockSize);
    SmallProduct(g.filetableSize, g.blockSize);
    Distribute(g.filetableStart, g.filetableSize, g.blockSize);
    MulMono(g.filetableStart + g.filetableSize, g.bitmapStart, g.blockSize);
    Distribute(g.bitmapStart, g.bitmapSize, g.blockSize);
    MulMono(g.bitmapStart + g.bitmapSize, g.dataStart, g.blockSize);
  }

  lemma WriteAfterTable(g: Geometry, slots: seq<Slot>, store: seq<byte>, garbage: seq<byte>, n: nat, at: nat, a: seq<byte>)
    requires |garbage| == 52 * BATCH && n <= |slots| && TableStored(g, slots, store, garbage, n)
    requires TableBase(g) + 52 * |slots| <= at && at + |a| <= |store|
    ensures TableStored(g, slots, Splice(store, at, a), garbage, n)
  {
    forall k | 0 <= k < n ensures SlotStored(TableBase(g), slots, Splice(store, at, a), garbage, k) {
      assert SlotStored(TableBase(g), slots, store, garbage, k);
      SplicePieces(store, at, a, TableBase(g) + 52 * k, 52);
    }
  }

  /** The bitmap write leaves table and directories in place. */
  lemma BitmapJoins(g: Geometry, st: State, store: seq<byte>, garbage: seq<byte>, missed: set<nat>, a: seq<byte>)
    requires Inv(g, st) && Addressable(g) && |garbage| == 52 * BATCH && SaveFrame(g, st.table, st.store, store)
    requires |a| <= Mul32(g.bitmapSize, g.blockSize)
    requires TableStored(g, st.table, store, garbage, |st.table|)
    requires DirsStored(g, st.table, store, |st.table|, missed)
    ensures Mul32(g.bitmapStart, g.blockSize) + |a| <= |store|
    ensures var after := Splice(store, Mul32(g.bitmapStart, g.blockSize), a);
      && SaveFrame(g, st.table, st.store, after)
      && TableStored(g, st.table, after, garbage, |st.table|)
      && DirsStored(g, st.table, after, |st.table|, missed)
  {
    BitmapPlace(g, store);
    NewStore(g, st, store);
    var at := Mul32(g.bitmapStart, g.blockSize);
    WriteAfterTable(g, st.table, store, garbage, |st.table|, at, a);
    TableWriteKeepsDirs(g, State(st.used, st.table, store), at, a, |st.table|, missed);
    FrameMore(g, st.table, st.store, store, at, a);
  }

  /** The part of portfs_sync_fs that writes the table and the bitmap. */
  method SyncTables(sb: Superblock) returns (rc: int, ghost garbage: seq<byte>, ghost missed: set<nat>)
    requires sb.Valid() && Inv(sb.geo, sb.View()) && Addressable(sb.geo)
    requires TableEncodable(sb.geo, sb.filetable.slots)
    requires sb.bitmap.bytes.Length == Mul32(sb.geo.bitmapSize, sb.geo.blockSize)
    modifies sb.storage
    ensures sb.Valid() && |garbage| == 52 * BATCH
    ensures SaveFrame(sb.geo, sb.filetable.slots, old(sb.storage.bytes), sb.storage.bytes)
    ensures rc == 0 ==>
      && TableStored(sb.geo, sb.filetable.slots, sb.storage.bytes, garbage, |sb.filetable.slots|)
      && DirsStored(sb.geo, sb.filetable.slots, sb.storage.bytes, |sb.filetable.slots|, missed)
      && sb.storage.Within(Mul32(sb.geo.bitmapStart, sb.geo.blockSize), sb.bitmap.bytes.Length)
      && Piece(sb.storage.bytes, Mul32(sb.geo.bitmapStart, sb.geo.blockSize), sb.bitmap.bytes.Length)
         == ToBytes(sb.bitmap.bytes[..])
    ensures sb.storage.faults == old(sb.storage.faults) + |missed| + if rc == 0 then 0 else 1
  {
    ghost var g, st := sb.geo, sb.View();
    rc, garbage, missed := WriteFiletable(sb);
    if rc != 0 {
      return;
    }
    ghost var mid, n := sb.storage.bytes, 0;
    BitmapPlace(g, mid);
    rc, n := WriteBlockBitmap(sb.geo, sb.bitmap.bytes, sb.storage);
    ghost var bits := sb.bitmap.bytes[..];
    assert sb.bitmap.bytes[..sb.bitmap.bytes.Length] == bits;
    BitmapJoins(g, st, mid, garbage, missed, ToBytes(bits)[..n]);
    if rc == 0 {
      assert ToBytes(bits)[..n] == ToBytes(bits);
      SplicePieces(mid, Mul32(g.bitmapStart, g.blockSize), ToBytes(bits), 0, 0);
    }
  }

  /** `memory` is the stored table decoded over what the memory held before. */
  ghost predicate TableLoads(g: Geometry, store: seq<byte>, prior: seq<Decoded>, memory: seq<Decoded>) {
    && |memory| == |prior| && TableBase(g) + 52 * |memory| <= |store|
    && forall k | 0 <= k < |memory| :: memory[k] == DecodeSlot(Piece(store, TableBase(g) + 52 * k, 52), prior[k])
  }

  /** The first `n` of the bitmap's bytes are the stored ones. */
  ghost predicate BitmapLoads(g: Geometry, store: seq<byte>, bits: seq<bv8>, n: nat) {
    var base := Mul32(g.bitmapStart, g.blockSize);
    && n <= |bits| && base + |bits| <= |store|
    && forall k | 0 <= k < n :: bits[k] == FromByte(store[base + k])
  }

  /** The part of portfs_init_fs_data that reads the table and the bitmap. A bitmap read that stops
      short is not noticed. */
  method LoadTables(g: Geometry, storage: StorageFile, memory: array<Decoded>, bits: array<bv8>)
    returns (rc: int, ghost n: nat)
    requires ValidGeometry(g) && Addressable(g) && Holds(g, storage.bytes)
    requires memory.Length == g.maxFiles && bits.Length == Mul32(g.bitmapSize, g.blockSize)
    requires memory as object != bits as object
    modifies memory, bits, storage`faults
    ensures storage.faults >= old(storage.faults) && rc <= 0 && n <= bits.Length
    ensures storage.faults == old(storage.faults) <==> rc == 0 && n == bits.Length
    ensures rc == 0 ==> TableLoads(g, storage.bytes, old(memory[..]), memory[..])
    ensures BitmapLoads(g, storage.bytes, bits[..], n) && bits[n..] == old(bits[n..])
  {
    n := 0;
    TablePlace(g, storage.bytes);
    BitmapPlace(g, storage.bytes);
    rc := InitFiletable(g, storage, memory);
    if rc != 0 {
      return;
    }
    ghost var table := memory[..];
    rc, n := InitBlockBitmap(g, storage, bits);
    assert memory[..] == table;
  }

  lemma WholeBitmap(store: seq<byte>, base: nat, bits: seq<bv8>)
    requires base + |bits| <= |store| && forall k | 0 <= k < |bits| :: bits[k] == FromByte(store[base + k])
    ensures bits == FromBytes(Piece(store, base, |bits|))
  {
  }

  // ---------------------------------------------------------------- the superblock

  /** The write of portfs_sync_superblock. Only an error is noticed, not a short write. */
  method SyncSuperblock(sup: Super, storage: StorageFile) returns (rc: int, n: nat)
    requires storage.Within(0, SUPER_SIZE)
    modifies storage
    ensures rc <= 0 && n <= SUPER_SIZE && (n == SUPER_SIZE ==> rc == 0) && (rc < 0 ==> n == 0)
    ensures storage.bytes == Splice(old(storage.bytes), 0, EncodeSuper(sup)[..n])
    ensures storage.faults == old(storage.faults) + if n == SUPER_SIZE then 0 else 1
  {
    var dsb := EncodeSuper(sup);
    var written := storage.Write(0, dsb);
    n := Moved(written);
    rc := if written < 0 then written else 0;
  }

  /** portfs_init_superblock; `dsb` is what its buffer happens to hold. Again only an error is
      noticed. */
  method InitSuperblock(storage: StorageFile, dsb: seq<byte>) returns (rc: int, sup: Super, n: nat)
    requires |dsb| == SUPER_SIZE
    modifies storage`faults
    ensures rc <= 0 && n <= SUPER_SIZE && (n > 0 ==> rc == 0 && storage.Within(0, n))
    ensures storage.faults == old(storage.faults) + if storage.Within(0, SUPER_SIZE) && n != SUPER_SIZE then 1 else 0
    ensures rc == 0 ==> sup == DecodeSuper((if n > 0 then storage.bytes[..n] else []) + dsb[n..])
  {
    var read, data := storage.Read(0, SUPER_SIZE);
    n := Moved(read);
    rc := if read < 0 then read else 0;
    sup := DecodeSuper(data + dsb[|data|..]);
  }

  // ---------------------------------------------------------------- sync

  /** What portfs_sync_fs may change: bytes below the data region, and directory blocks. */
  ghost predicate SyncFrame(g: Geometry, slots: seq<Slot>, before: seq<byte>, after: seq<byte>) {
    && |after| == |before|
    && forall q: nat | q < |before| && after[q] != before[q] :: q < g.dataStart * g.blockSize || InDirBlocks(g, slots, q)
  }

  /** What portfs_sync_fs leaves behind when it succeeds. */
  ghost predicate Synced(sup: Super, slots: seq<Slot>, bits: seq<bv8>, store: seq<byte>, garbage: seq<byte>,
                         missed: set<nat>, whole: bool)
  {
    var g, base := sup.geo, Mul32(sup.geo.bitmapStart, sup.geo.blockSize);
    && |garbage| == 52 * BATCH && SUPER_SIZE <= |store|
    && (whole ==> store[..SUPER_SIZE] == EncodeSuper(sup))
    && TableStored(g, slots, store, garbage, |slots|) && DirsStored(g, slots, store, |slots|, missed)
    && base + |bits| <= |store| && Piece(store, base, |bits|) == ToBytes(bits)
  }

  lemma SuperFrame(g: Geometry, st: State, n: nat, a: seq<byte>, after: seq<byte>)
    requires Inv(g, st) && Addressable(g) && SUPER_SIZE <= TableBase(g) && |a| <= SUPER_SIZE
    requires |a| <= |st.store| && SaveFrame(g, st.table, Splice(st.store, 0, a), after)
    ensures SyncFrame(g, st.table, st.store, after)
    ensures SUPER_SIZE <= |after| && after[..SUPER_SIZE] == Splice(st.store, 0, a)[..SUPER_SIZE]
  {
    TablePlace(g, st.store);
    forall q: nat | q < SUPER_SIZE ensures after[q] == Splice(st.store, 0, a)[q] {
      if InDirBlocks(g, st.table, q) {
        DirBlocksAbove(g, st, q);
      }
    }
  }

  /** portfs_sync_fs. `whole` says whether the superblock was written whole, `missed` which
      directories were not: neither shows in the return code. */
  method SyncFs(sb: Superblock, sup: Super)
    returns (rc: int, whole: bool, ghost garbage: seq<byte>, ghost missed: set<nat>)
    requires sb.Valid() && Inv(sb.geo, sb.View()) && Addressable(sb.geo) && sup.geo == sb.geo
    requires SUPER_SIZE <= TableBase(sb.geo) && TableEncodable(sb.geo, sb.filetable.slots)
    requires sb.bitmap.bytes.Length == Mul32(sb.geo.bitmapSize, sb.geo.blockSize)
    modifies sb.storage
    ensures sb.Valid() && SyncFrame(sb.geo, sb.filetable.slots, old(sb.storage.bytes), sb.storage.bytes)
    ensures rc == 0 ==>
      && Synced(sup, sb.filetable.slots, sb.bitmap.bytes[..], sb.storage.bytes, garbage, missed, whole)
      && sb.storage.faults == old(sb.storage.faults) + |missed| + if whole then 0 else 1
    ensures sb.storage.faults == old(sb.storage.faults) <==> rc == 0 && missed == {} && whole
    ensures sb.storage.faults >= old(sb.storage.faults)
  {
    ghost var g, st := sb.geo, sb.View();
    TablePlace(g, st.store);
    var n;
    rc, n := SyncSuperblock(sup, sb.storage);
    whole, garbage, missed := n == SUPER_SIZE, [], {};
    ghost var written := EncodeSuper(sup)[..n];
    if rc != 0 {
      SuperFrame(g, st, n, written, sb.storage.bytes);
      return;
    }
    NewStore(g, st, sb.storage.bytes);
    rc, garbage, missed := SyncTables(sb);
    SuperFrame(g, st, n, written, sb.storage.bytes);
  }

  // ---------------------------------------------------------------- mount

  /** portfs_init_fs_data on a storage whose superblock says `g`. After a superblock read that stops
      short the code goes on with what its buffer held; the model stops there. */
  method Mount(storage: StorageFile, dsb: seq<byte>, memory: array<Decoded>, bits: array<bv8>, ghost g: Geometry)
    returns (rc: int, sup: Super, ghost n: nat)
    requires ValidGeometry(g) && Addressable(g) && Holds(g, storage.bytes)
    requires |dsb| == SUPER_SIZE && storage.Within(0, SUPER_SIZE) && DecodeSuper(storage.bytes[..SUPER_SIZE]).geo == g
    requires memory.Length == g.maxFiles && bits.Length == Mul32(g.bitmapSize, g.blockSize)
    requires memory as object != bits as object
    modifies memory, bits, storage`faults
    ensures storage.faults >= old(storage.faults) && rc <= 0 && n <= bits.Length
    ensures storage.faults == old(storage.faults) <==> rc == 0 && n == bits.Length
    ensures rc == 0 ==>
      TableLoads(g, storage.bytes, old(memory[..]), memory[..]) && sup == DecodeSuper(storage.bytes[..SUPER_SIZE])
    ensures BitmapLoads(g, storage.bytes, bits[..], n) && bits[n..] == old(bits[n..])
  {
    n := 0;
    TablePlace(g, storage.bytes);
    BitmapPlace(g, storage.bytes);
    var got;
    rc, sup, got := InitSuperblock(storage, dsb);
    if rc != 0 {
      return;
    }
    if got != SUPER_SIZE {
      rc := -EIO;
      return;
    }
    assert storage.bytes[..SUPER_SIZE] + dsb[SUPER_SIZE..] == storage.bytes[..SUPER_SIZE];
    rc, n := LoadTables(sup.geo, storage, memory, bits);
  }
}
