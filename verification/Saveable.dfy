/** Every reachable table can be saved as long as no file has more than four extents: all fields
    fit their places on disk; and a save followed by a mount brings back the bitmap, each
    directory's entries, and each file's extents and content. */
module Saveable {
  import opened Types
  import opened Bitmap
  import opened Names
  import opened Translation
  import opened Spec
  import opened Allocation
  import opened Ownership
  import opened Contents
  import opened Namespace
  import opened Codec
  import opened Layout
  import opened Storage
  import opened FileSystem
  import opened Persistence
  import opened Sync

  ghost predicate Fits(s: Slot) {
    s.ino < U32 && s.mode < 0x1_0000 && s.extentsBlock < U32 && s.parentIno < U32
  }

  ghost predicate AllFit(st: State) {
    forall i | 0 <= i < |st.table| :: Fits(st.table[i])
  }

  lemma ReplaceFits(st: State, i: nat, s': Slot, used: set<nat>, store: seq<byte>)
    requires AllFit(st) && i < |st.table| && Fits(s')
    ensures AllFit(State(used, st.table[i := s'], store))
  {
  }

  lemma AllocateFits(g: Geometry, used: set<nat>, s: Slot, bytes: nat)
    requires ValidGeometry(g) && FileOk(g, s) && Fits(s) && bytes > 0
    ensures Fits(Allocate(g, used, s, bytes).slot)
  {
    TargetCovers(g, bytes);
    AllocateConserves(g, used, s, Target(g, bytes));
  }

  lemma ClaimFits(g: Geometry, st: State, i: nat, claimed: Slot, parent: nat, name: Name)
    requires AllFit(st) && i < |st.table| && parent < |st.table| && Fits(claimed)
    ensures AllFit(Claim(g, st, i, claimed, parent, name))
  {
    ReplaceFits(st, i, claimed, st.used, st.store);
  }

  lemma WriteFits(g: Geometry, st: State, slot: nat, at: nat, data: seq<byte>, append: bool, landed: nat)
    requires AllFit(st) && ValidGeometry(g) && FileSlot(g, st, slot) && FileOk(g, st.table[slot])
    ensures AllFit(WriteNext(g, st, slot, at, data, append, landed))
  {
    var s := st.table[slot];
    var available := AllocatedBytes(g, s) - s.size;
    assert Fits(s);
    if available < |data| {
      AllocateFits(g, st.used, s, |data| - available);
    }
    var st' := WriteNext(g, st, slot, at, data, append, landed);
    assert st'.table == st.table[slot := st'.table[slot]];
    ReplaceFits(st, slot, st'.table[slot], st'.used, st'.store);
  }

  lemma SetSizeFits(g: Geometry, st: State, slot: nat, newSize: nat)
    requires AllFit(st) && Enabled(g, st, SetSize(slot, newSize)) && FileOk(g, st.table[slot])
    ensures AllFit(SetSizeNext(g, st, slot, newSize))
  {
    var s := st.table[slot];
    assert Fits(s);
    if newSize > s.size {
      AllocateFits(g, st.used, s, newSize - s.size);
    }
  }

  lemma CreateFits(g: Geometry, st: State, op: Op)
    requires AllFit(st) && Enabled(g, st, op) && (op.Create? || op.Mkdir?)
    ensures AllFit(Next(g, st, op))
  {
    if FreeSlotFrom(st.table, 0).Some? {
      var i := FreeSlotFrom(st.table, 0).value;
      assert Fits(st.table[i]) && Fits(st.table[op.parent]);
      if op.Create? {
        ClaimFits(g, st, i, ClaimedFile(st.table[i], op.ino, op.mode), op.parent, op.name);
      } else {
        ClaimFits(g, st, i, ClaimedDir(st.table[i], op.ino, op.perm, st.table[op.parent].ino), op.parent, op.name);
      }
    }
  }

  lemma DropFits(g: Geometry, st: State, op: Op)
    requires AllFit(st) && Enabled(g, st, op) && (op.Unlink? || op.Rmdir?)
    ensures AllFit(Next(g, st, op))
  {
    ReplaceFits(st, op.slot, EMPTY_SLOT, st.used, st.store);
  }

  lemma LookupFits(g: Geometry, st: State, op: Op)
    requires AllFit(st) && Enabled(g, st, op) && op.Lookup?
    ensures AllFit(Next(g, st, op))
  {
    assert Fits(st.table[op.parent]);
  }

  lemma NextKeepsFits(g: Geometry, st: State, op: Op)
    requires Inv(g, st) && AllFit(st) && Enabled(g, st, op)
    ensures AllFit(Next(g, st, op))
  {
    match op
    case Create(_, _, _, _) => CreateFits(g, st, op);
    case Mkdir(_, _, _, _) => CreateFits(g, st, op);
    case Unlink(_, _, _) => DropFits(g, st, op);
    case Rmdir(_, _, _) => DropFits(g, st, op);
    case Write(slot, pos, data, append, landed) =>
      assert SlotOk(g, st.table[slot]);
      WriteFits(g, st, slot, pos, data, append, landed);
    case Read(slot, _, _) =>
      ReserveFacts(g, st.used, st.table[slot], |st.table[slot].extents| >= DIRECT_EXTENTS);
    case SetSize(slot, newSize) =>
      assert SlotOk(g, st.table[slot]);
      SetSizeFits(g, st, slot, newSize);
    case Release(_) =>
    case Lookup(_, _) => LookupFits(g, st, op);
  }

  lemma {:induction false} RunKeepsFits(g: Geometry, st: State, ops: seq<Op>)
    requires Inv(g, st) && AllFit(st) && Runnable(g, st, ops)
    ensures AllFit(Run(g, st, ops))
    decreases |ops|
  {
    if ops != [] {
      NextKeepsInv(g, st, ops[0]);
      NextKeepsFits(g, st, ops[0]);
      RunKeepsFits(g, Next(g, st, ops[0]), ops[1..]);
    }
  }

  lemma {:induction false} LengthBound(s: seq<Extent>, m: nat)
    requires forall e | e in s :: e.length <= m
    ensures TotalLength(s) <= |s| * m
  {
    if s != [] {
      var init, last := s[..|s| - 1], s[|s| - 1];
      assert last in s;
      LengthBound(init, m);
      Distribute(|init|, 1, m);
    }
  }

  /** A slot of a reachable state with at most four extents fits its 52 bytes. */
  lemma SlotEncodable(g: Geometry, s: Slot)
    requires ValidGeometry(g) && SlotOk(g, s) && Fits(s) && |s.extents| <= DIRECT_EXTENTS
    ensures Encodable(s)
  {
    if IsReg(s.mode) {
      forall e | e in s.extents ensures e.length <= MAX_EXTENT_LENGTH && EncodableExtent(e) {
        assert LegalExtent(g, e);
      }
      LengthBound(s.extents, MAX_EXTENT_LENGTH);
      MulMono(|s.extents|, 4, 1024);
      assert TotalLength(s.extents) <= 4096;
      MulMono(TotalLength(s.extents), 4096, g.blockSize);
    }
  }

  /** Directory entries of a reachable state fit their 68 bytes: names are legal, and numbers
      belong to slots. */
  lemma NamesEncodable(st: State, root: nat, d: nat)
    requires Named(st, root) && AllFit(st) && d < |st.table| && IsDir(st.table[d].mode)
    ensures AllEncodable(NamesOf(st.table[d]))
  {
    var entries := NamesOf(st.table[d]);
    forall k | 0 <= k < |entries| ensures EncodableName(entries[k]) {
      assert Ent(st, d, k) == entries[k].ino;
      if entries[k].ino != 0 {
        assert Held(st, root, Ent(st, d, k));
        var i: nat :| i != root && InoOf(st, i) == Ent(st, d, k);
        assert Fits(st.table[i]);
      }
    }
  }

  /** The table of any reachable state whose files have at most four extents can be saved. */
  lemma ReachableEncodable(g: Geometry, st: State, root: nat)
    requires Inv(g, st) && Named(st, root) && AllFit(st)
    requires forall i | 0 <= i < |st.table| :: |st.table[i].extents| <= DIRECT_EXTENTS
    ensures TableEncodable(g, st.table)
  {
    forall i | 0 <= i < |st.table|
      ensures Encodable(st.table[i]) && (st.table[i].names.Some? ==> AllEncodable(st.table[i].names.value))
    {
      assert SlotOk(g, st.table[i]) && Fits(st.table[i]);
      SlotEncodable(g, st.table[i]);
      if IsDir(st.table[i].mode) {
        NamesEncodable(st, root, i);
      }
    }
  }

  // ---------------------------------------------------------------- file contents

  lemma {:induction false} FileBytesSame(g: Geometry, s: seq<Extent>, a: seq<byte>, b: seq<byte>)
    requires Legal(g, s) && Holds(g, a) && |b| == |a|
    requires forall q: nat | q < |a| && InFile(g, s, q) :: b[q] == a[q]
    ensures FileBytes(g, s, b) == FileBytes(g, s, a)
  {
    if s != [] {
      ExtentInStore(g, s[0], a);
      var p, n := s[0].start * g.blockSize, s[0].length * g.blockSize;
      forall q: nat | p <= q < p + n ensures b[q] == a[q] {
        assert s[0] in s && InExtent(g, s[0], q);
      }
      assert Piece(b, p, n) == Piece(a, p, n);
      forall q: nat | q < |a| && InFile(g, s[1..], q) ensures b[q] == a[q] {
        var e :| e in s[1..] && InExtent(g, e, q);
        assert e in s;
      }
      FileBytesSame(g, s[1..], a, b);
    }
  }

  /** Saving leaves the bytes of every file alone. */
  lemma SaveKeepsFiles(g: Geometry, st: State, after: seq<byte>, i: nat)
    requires Inv(g, st) && Addressable(g) && SyncFrame(g, st.table, st.store, after)
    requires i < |st.table| && IsReg(st.table[i].mode)
    ensures Legal(g, st.table[i].extents) && Holds(g, after)
    ensures FileBytes(g, st.table[i].extents, after) == Buffer(g, st, i)
  {
    var s := st.table[i].extents;
    assert SlotOk(g, st.table[i]);
    forall q: nat | q < |st.store| && InFile(g, s, q) ensures after[q] == st.store[q] {
      if q < g.dataStart * g.blockSize {
        BelowData(g, s, q);
      }
      if InDirBlocks(g, st.table, q) {
        var j :| 0 <= j < |st.table| && PersistsDir(st.table[j])
               && DirBase(g, st.table[j]) <= q < DirBase(g, st.table[j]) + g.blockSize;
        DirBlockPlace(g, st, j);
        DirectoryByte(g, st, i, j, q);
      }
    }
    FileBytesSame(g, s, st.store, after);
  }

  // ---------------------------------------------------------------- saving and loading

  /** What was stored of slot `k` gives it back: a file's fields and its bytes, a directory's
      fields, and its entries if its block was written. Only the inode number is lost. */
  ghost predicate LoadsBack(g: Geometry, st: State, k: nat, store: seq<byte>, d: Decoded, missed: set<nat>)
    requires Inv(g, st) && k < |st.table|
  {
    var s := st.table[k];
    && d.ino == 0 && s.ino != 0 && d.mode == s.mode && d.size == s.size
    && (IsReg(s.mode) ==>
          && d.extentsBlock == s.extentsBlock
          && d.extentCount == |s.extents| <= |d.direct| && d.direct[..d.extentCount] == s.extents
          && Legal(g, s.extents) && Holds(g, store)
          && FileBytes(g, s.extents, store) == Buffer(g, st, k))
    && (IsDir(s.mode) ==> d.dirBlock == s.dirBlock && d.parentIno == s.parentIno)
    && (IsDir(s.mode) && s.dirBlock != 0 && s.names.Some? && k !in missed ==>
          && DirBase(g, s) + g.blockSize <= |store|
          && DecodeNames(store[DirBase(g, s)..DirBase(g, s) + g.blockSize], MaxDirEntries(g)) == s.names.value)
  }

  /** What a save leaves behind. */
  ghost predicate Saved(g: Geometry, st: State, store: seq<byte>, garbage: seq<byte>, missed: set<nat>) {
    && |garbage| == 52 * BATCH && SyncFrame(g, st.table, st.store, store)
    && TableStored(g, st.table, store, garbage, |st.table|)
    && DirsStored(g, st.table, store, |st.table|, missed)
  }

  /** What can be saved: the invariants every run keeps, and no file with more than four extents. */
  ghost predicate Savable(g: Geometry, st: State) {
    && Inv(g, st) && Addressable(g) && Named(st, 0) && AllFit(st)
    && forall i | 0 <= i < |st.table| :: |st.table[i].extents| <= DIRECT_EXTENTS
  }

  lemma FileLoadsBack(g: Geometry, st: State, store: seq<byte>, garbage: seq<byte>, k: nat, memory: Decoded,
                      missed: set<nat>)
    requires Savable(g, st) && Saved(g, st, store, garbage, missed)
    requires k < |st.table| && IsReg(st.table[k].mode)
    ensures LoadsBack(g, st, k, store, DecodeSlot(Piece(store, TableBase(g) + 52 * k, 52), memory), missed)
  {
    ReachableEncodable(g, st, 0);
    SavedThenLoaded(g, st.table, store, garbage, k, memory);
    SaveKeepsFiles(g, st, store, k);
  }

  lemma DirLoadsBack(g: Geometry, st: State, store: seq<byte>, garbage: seq<byte>, k: nat, memory: Decoded,
                     missed: set<nat>)
    requires Savable(g, st) && Saved(g, st, store, garbage, missed)
    requires k < |st.table| && IsDir(st.table[k].mode)
    ensures LoadsBack(g, st, k, store, DecodeSlot(Piece(store, TableBase(g) + 52 * k, 52), memory), missed)
  {
    ReachableEncodable(g, st, 0);
    SavedThenLoaded(g, st.table, store, garbage, k, memory);
    if PersistsDir(st.table[k]) && k !in missed {
      NewStore(g, st, store);
      assert DirStored(g, st.table[k], store);
      SavedDirLoads(g, State(st.used, st.table, store), k);
    }
  }

  /** Every slot in use comes back from what a save stored. */
  lemma SavesAndLoads(g: Geometry, st: State, store: seq<byte>, garbage: seq<byte>, k: nat, memory: Decoded,
                      missed: set<nat>)
    requires Savable(g, st) && Saved(g, st, store, garbage, missed)
    requires k < |st.table| && st.table[k].mode != 0
    ensures LoadsBack(g, st, k, store, DecodeSlot(Piece(store, TableBase(g) + 52 * k, 52), memory), missed)
  {
    assert SlotOk(g, st.table[k]);
    if IsReg(st.table[k].mode) {
      FileLoadsBack(g, st, store, garbage, k, memory, missed);
    } else {
      DirLoadsBack(g, st, store, garbage, k, memory, missed);
    }
  }

  /** A run whose creations found room ends in a state that can be saved, unless a file has more
      than four extents. */
  lemma RunSavable(g: Geometry, st: State, ops: seq<Op>)
    requires Fresh(g, st) && Addressable(g) && Runnable(g, st, ops) && RoomyRun(g, st, ops)
    requires forall s | s in Run(g, st, ops).table :: |s.extents| <= DIRECT_EXTENTS
    ensures Savable(g, Run(g, st, ops))
  {
    FreshIsInv(g, st);
    FreshIsNamed(g, st);
    RunKeepsInv(g, st, ops);
    RunKeepsNamed(g, st, 0, ops);
    RunKeepsFits(g, st, ops);
  }

  /** The state `st` as a mount finds it: its bitmap, and every slot in use. */
  ghost predicate Remounted(g: Geometry, st: State, store: seq<byte>, memory: seq<Decoded>, bits: seq<bv8>)
    requires Inv(g, st)
  {
    && Allocated(bits) == st.used && |memory| == |st.table|
    && forall k | 0 <= k < |memory| && st.table[k].mode != 0 :: LoadsBack(g, st, k, store, memory[k], {})
  }

  /** A superblock whose fields are 32 bits wide comes back from what was written. */
  lemma SuperLoadsBack(sup: Super)
    requires ValidGeometry(sup.geo) && Addressable(sup.geo) && sup.magic < U32 && sup.checksum < U32
    ensures DecodeSuper(EncodeSuper(sup)) == sup
  {
    var g := sup.geo;
    MulMono(g.filetableSize, g.totalBlocks - 1, g.blockSize);
    SuperRoundTrip(sup);
  }

  lemma BitmapLoadsBack(g: Geometry, store: seq<byte>, saved: seq<bv8>, bits: seq<bv8>)
    requires |bits| == |saved| && BitmapLoads(g, store, bits, |bits|)
    requires Piece(store, Mul32(g.bitmapStart, g.blockSize), |saved|) == ToBytes(saved)
    ensures Allocated(bits) == Allocated(saved)
  {
    WholeBitmap(store, Mul32(g.bitmapStart, g.blockSize), bits);
    BitmapRoundTrip(saved);
  }

  /** What a save stored meets what a mount asks of its storage. */
  lemma SavedMountable(sup: Super, st: State, saved: seq<bv8>, store: seq<byte>, garbage: seq<byte>, missed: set<nat>)
    requires Savable(sup.geo, st) && Synced(sup, st.table, saved, store, garbage, missed, true)
    requires SyncFrame(sup.geo, st.table, st.store, store) && sup.magic < U32 && sup.checksum < U32
    ensures ValidGeometry(sup.geo) && Addressable(sup.geo) && Holds(sup.geo, store) && SUPER_SIZE <= |store|
    ensures DecodeSuper(store[..SUPER_SIZE]) == sup
    ensures Saved(sup.geo, st, store, garbage, missed)
  {
    SuperLoadsBack(sup);
  }

  /** A mount of what a save stored, with its superblock whole: if no transfer falls short it gives
      back the superblock, the bitmap and every slot in use. */
  method MountSaved(storage: StorageFile, sup: Super, dsb: seq<byte>, memory: array<Decoded>, bits: array<bv8>,
                    ghost st: State, ghost saved: seq<bv8>, ghost garbage: seq<byte>, ghost missed: set<nat>)
    returns (rc: int, mounted: Super)
    requires Savable(sup.geo, st) && Synced(sup, st.table, saved, storage.bytes, garbage, missed, true)
    requires SyncFrame(sup.geo, st.table, st.store, storage.bytes) && Allocated(saved) == st.used
    requires sup.magic < U32 && sup.checksum < U32 && |dsb| == SUPER_SIZE
    requires |saved| == bits.Length == Mul32(sup.geo.bitmapSize, sup.geo.blockSize)
    requires memory.Length == sup.geo.maxFiles == |st.table| && memory as object != bits as object
    modifies memory, bits, storage`faults
    ensures storage.faults >= old(storage.faults) && Inv(sup.geo, st)
    ensures missed == {} && storage.faults == old(storage.faults) ==>
      rc == 0 && mounted == sup && Remounted(sup.geo, st, storage.bytes, memory[..], bits[..])
  {
    ghost var prior, store := memory[..], storage.bytes;
    SavedMountable(sup, st, saved, store, garbage, missed);
    ghost var n;
    rc, mounted, n := Mount(storage, dsb, memory, bits, sup.geo);
    if missed == {} && storage.faults == old(storage.faults) {
      BitmapLoadsBack(sup.geo, store, saved, bits[..]);
      AllLoadBack(sup.geo, st, store, garbage, prior, memory[..]);
    }
  }

  /** A save and, if it wrote the superblock whole, a mount of what it left: if no transfer falls
      short, the mount succeeds, the superblock is the saved one, the bitmap allocates the same
      blocks, and every slot in use comes back, a file with its bytes and a directory with its
      entries. */
  method SyncAndMount(sb: Superblock, sup: Super, dsb: seq<byte>, memory: array<Decoded>, bits: array<bv8>)
    returns (rc: int, mounted: Super)
    requires sb.Valid() && Savable(sb.geo, sb.View())
    requires sup.geo == sb.geo && sup.magic < U32 && sup.checksum < U32
    requires SUPER_SIZE <= TableBase(sb.geo) && |dsb| == SUPER_SIZE
    requires sb.bitmap.bytes.Length == bits.Length == Mul32(sb.geo.bitmapSize, sb.geo.blockSize)
    requires memory.Length == sb.geo.maxFiles && bits != sb.bitmap.bytes && memory as object != bits as object
    modifies sb.storage, memory, bits
    ensures Inv(sb.geo, old(sb.View()))
    ensures sb.storage.faults == old(sb.storage.faults) ==>
      && rc == 0 && mounted == sup
      && Remounted(sb.geo, old(sb.View()), sb.storage.bytes, memory[..], bits[..])
  {
    ghost var st := sb.View();
    ReachableEncodable(sb.geo, st, 0);
    mounted := sup;
    var whole;
    ghost var garbage, missed;
    rc, whole, garbage, missed := SyncFs(sb, sup);
    if rc == 0 && whole {
      rc, mounted := MountSaved(sb.storage, sup, dsb, memory, bits, st, sb.bitmap.bytes[..], garbage, missed);
    }
  }

  /** The same after a run: whatever happened in it. */
  method RunSyncAndMount(sb: Superblock, sup: Super, dsb: seq<byte>, memory: array<Decoded>, bits: array<bv8>,
                         ghost st: State, ghost ops: seq<Op>)
    returns (rc: int, mounted: Super)
    requires sb.Valid() && Fresh(sb.geo, st) && Addressable(sb.geo)
    requires Runnable(sb.geo, st, ops) && RoomyRun(sb.geo, st, ops) && sb.View() == Run(sb.geo, st, ops)
    requires forall s | s in Run(sb.geo, st, ops).table :: |s.extents| <= DIRECT_EXTENTS
    requires sup.geo == sb.geo && sup.magic < U32 && sup.checksum < U32
    requires SUPER_SIZE <= TableBase(sb.geo) && |dsb| == SUPER_SIZE
    requires sb.bitmap.bytes.Length == bits.Length == Mul32(sb.geo.bitmapSize, sb.geo.blockSize)
    requires memory.Length == sb.geo.maxFiles && bits != sb.bitmap.bytes && memory as object != bits as object
    modifies sb.storage, memory, bits
    ensures Inv(sb.geo, Run(sb.geo, st, ops))
    ensures sb.storage.faults == old(sb.storage.faults) ==>
      && rc == 0 && mounted == sup
      && Remounted(sb.geo, Run(sb.geo, st, ops), sb.storage.bytes, memory[..], bits[..])
  {
    RunSavable(sb.geo, st, ops);
    rc, mounted := SyncAndMount(sb, sup, dsb, memory, bits);
  }

  lemma AllLoadBack(g: Geometry, st: State, store: seq<byte>, garbage: seq<byte>, prior: seq<Decoded>,
                    memory: seq<Decoded>)
    requires Savable(g, st) && Saved(g, st, store, garbage, {})
    requires |memory| == |st.table| && TableLoads(g, store, prior, memory)
    ensures forall k | 0 <= k < |memory| && st.table[k].mode != 0 :: LoadsBack(g, st, k, store, memory[k], {})
  {
    forall k | 0 <= k < |memory| && st.table[k].mode != 0 ensures LoadsBack(g, st, k, store, memory[k], {}) {
      SavesAndLoads(g, st, store, garbage, k, prior[k], {});
    }
  }

  /** A formatted table region decodes to free slots only. */
  lemma FormattedIsFree(prior: Decoded)
    ensures DecodeSlot(Zeros(52), prior).mode == 0
  {
    var b := Zeros(52);
    assert b[4..6] == [0, 0];
    assert UnBE([0, 0]) == UnBE([0, 0][..1]) * 256 + 0;
    assert [0, 0][..1] == [0] && UnBE([0]) == UnBE([0][..0]) * 256 + 0;
  }
}
