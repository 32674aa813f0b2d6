/** Scattered storage behaves as one byte sequence per file: what a write does to the contents
    of its file, and that no operation touches another file's. */
module Contents {
  import opened Types
  import opened Translation
  import opened Spec
  import opened Allocation
  import opened Ownership

  /** All bytes allocated to a slot, in file order, and the part its size covers. */
  ghost function Buffer(g: Geometry, st: State, i: nat): (r: seq<byte>)
    requires Inv(g, st) && i < |st.table|
    ensures |r| == AllocatedBytes(g, st.table[i]) && st.table[i].size <= |r|
  {
    assert SlotOk(g, st.table[i]);
    FileBytesLength(g, st.table[i].extents, st.store);
    TotalBytesIsLength(g, st.table[i].extents);
    FileBytes(g, st.table[i].extents, st.store)
  }

  ghost function Content(g: Geometry, st: State, i: nat): (r: seq<byte>)
    requires Inv(g, st) && i < |st.table|
  {
    Buffer(g, st, i)[..st.table[i].size]
  }

  lemma {:induction false} FileBytesConcat(g: Geometry, s: seq<Extent>, t: seq<Extent>, store: seq<byte>)
    requires Legal(g, s) && Legal(g, t) && Holds(g, store)
    ensures Legal(g, s + t)
    ensures FileBytes(g, s + t, store) == FileBytes(g, s, store) + FileBytes(g, t, store)
  {
    if s == [] {
      assert s + t == t;
    } else {
      assert (s + t)[1..] == s[1..] + t;
      FileBytesConcat(g, s[1..], t, store);
    }
  }

  /** Making room only appends to a file's buffer. */
  lemma RoomAppends(g: Geometry, st: State, i: nat, count: nat)
    requires Inv(g, st) && i < |st.table| && IsReg(st.table[i].mode)
    ensures var r := MakeRoom(g, st.used, st.table[i], count);
      var st' := State(r.used, st.table[i := r.slot], st.store);
      Inv(g, st') && Buffer(g, st, i) <= Buffer(g, st', i)
  {
    MakeRoomKeepsInv(g, st, i, count);
    var s := st.table[i];
    var r := MakeRoom(g, st.used, s, count);
    assert SlotOk(g, s);
    var taken: seq<Extent> := [];
    if AllocatedBytes(g, s) - s.size < count {
      var bytes := count - (AllocatedBytes(g, s) - s.size);
      TargetCovers(g, bytes);
      AllocateConserves(g, st.used, s, Target(g, bytes));
      taken := Taken(g, st.used, s, Target(g, bytes));
    }
    assert r.slot.extents == s.extents + taken;
    FileBytesConcat(g, s.extents, taken, st.store);
  }

  lemma PrefixContent(g: Geometry, st: State, st': State, i: nat)
    requires Inv(g, st) && Inv(g, st') && i < |st.table| && i < |st'.table|
    requires Buffer(g, st, i) <= Buffer(g, st', i) && st.table[i].size <= st'.table[i].size
    ensures Content(g, st', i)[..st.table[i].size] == Content(g, st, i)
    ensures st'.table[i].size == st'.table[i].inodeSize <= AllocatedBytes(g, st'.table[i])
  {
    assert SlotOk(g, st'.table[i]);
  }

  // ---------------------------------------------------------------- write

  /** The loop: the landed bytes are spliced into the file's buffer. */
  lemma WroteSplices(g: Geometry, st: State, slot: nat, r: Grant, pos: nat, data: seq<byte>, landed: nat)
    requires Addressable(g)
    requires slot < |st.table| && Inv(g, State(r.used, st.table[slot := r.slot], st.store))
    requires IsReg(r.slot.mode) && (data == [] ==> pos <= AllocatedBytes(g, r.slot))
    ensures var st' := Wrote(g, st, slot, r, pos, data, landed);
      var n := Landed(g, r.slot, pos, |data|, landed);
      var before := Buffer(g, State(r.used, st.table[slot := r.slot], st.store), slot);
      && Inv(g, st')
      && (n > 0 ==> pos + n <= |before|)
      && Buffer(g, st', slot) == if n > 0 then Splice(before, pos, data[..n]) else before
  {
    WroteKeepsInv(g, st, slot, r, pos, data, landed);
    var mid := State(r.used, st.table[slot := r.slot], st.store);
    assert SlotOk(g, mid.table[slot]) && mid.table[slot] == r.slot;
    TotalBytesIsLength(g, r.slot.extents);
    var n := Landed(g, r.slot, pos, |data|, landed);
    if n > 0 {
      WriteSplicesFile(g, r.slot.extents, st.store, pos, data[..n]);
    }
  }

  /** Room to write `count` bytes on top of the size: the allocation covers them already, or the extents
      the free list has and the slot has places for hold the blocks that would be asked for. */
  predicate HasRoom(g: Geometry, used: set<nat>, s: Slot, count: nat)
    requires ValidGeometry(g) && s.size <= AllocatedBytes(g, s)
  {
    var available := AllocatedBytes(g, s) - s.size;
    available >= count || Obtainable(g, used, s) >= Target(g, count - available)
  }

  lemma RoomIff(g: Geometry, used: set<nat>, s: Slot, count: nat)
    requires ValidGeometry(g) && FileOk(g, s)
    ensures MakeRoom(g, used, s, count).ok <==> HasRoom(g, used, s, count)
  {
    var available := AllocatedBytes(g, s) - s.size;
    if available < count {
      TargetCovers(g, count - available);
      AllocateSucceedsIff(g, used, s, Target(g, count - available));
    }
  }

  lemma RoomHolds(g: Geometry, st: State, slot: nat, count: nat)
    requires Inv(g, st) && FileSlot(g, st, slot)
    ensures MakeRoom(g, st.used, st.table[slot], count).ok <==> HasRoom(g, st.used, st.table[slot], count)
  {
    assert SlotOk(g, st.table[slot]);
    RoomIff(g, st.used, st.table[slot], count);
  }

  /** The bytes allocated to the slot once there is room for `count` more: what it has and, if
      that is not enough, the extents the allocator takes off the free list. */
  function AllocationWith(g: Geometry, used: set<nat>, s: Slot, count: nat): nat
    requires ValidGeometry(g) && s.size <= AllocatedBytes(g, s)
  {
    var available := AllocatedBytes(g, s) - s.size;
    if available >= count then AllocatedBytes(g, s)
    else AllocatedBytes(g, s) + TotalLength(Taken(g, used, s, Target(g, count - available))) * g.blockSize
  }

  lemma RoomAllocates(g: Geometry, st: State, slot: nat, count: nat)
    requires Inv(g, st) && FileSlot(g, st, slot)
    ensures AllocatedBytes(g, MakeRoom(g, st.used, st.table[slot], count).slot)
            == AllocationWith(g, st.used, st.table[slot], count)
  {
    var s := st.table[slot];
    assert SlotOk(g, s);
    var available := AllocatedBytes(g, s) - s.size;
    if available < count {
      var target := Target(g, count - available);
      TargetCovers(g, count - available);
      AllocateConserves(g, st.used, s, target);
      GrownBytes(g, s, AllocateBlocks(g, st.used, s, target).slot, Taken(g, st.used, s, target));
    }
  }

  /** -ENOSPC is returned exactly when there is no room. */
  lemma NoSpaceIff(g: Geometry, st: State, slot: nat, at: nat, data: seq<byte>, append: bool, landed: nat)
    requires Inv(g, st) && FileSlot(g, st, slot)
    ensures WriteCode(g, st, slot, at, data, append, landed) == -ENOSPC
            <==> !HasRoom(g, st.used, st.table[slot], |data|)
  {
    RoomHolds(g, st, slot, |data|);
  }

  /** `after` is `before`, possibly longer, with `data` at `pos`. */
  ghost predicate Receives(before: seq<byte>, after: seq<byte>, pos: nat, data: seq<byte>) {
    && |before| <= |after| && (data != [] ==> pos + |data| <= |after|)
    && (forall o: nat | o < |data| :: after[pos + o] == data[o])
    && forall o: nat | o < |before| && !(pos <= o < pos + |data|) :: after[o] == before[o]
  }

  lemma SpliceReceives(before: seq<byte>, mid: seq<byte>, pos: nat, data: seq<byte>)
    requires before <= mid && (data != [] ==> pos + |data| <= |mid|)
    ensures Receives(before, if data != [] then Splice(mid, pos, data) else mid, pos, data)
  {
  }

  lemma WriteWithRoom(g: Geometry, st: State, slot: nat, at: nat, data: seq<byte>, append: bool, landed: nat)
    requires Inv(g, st) && FileSlot(g, st, slot)
    requires !PushesSize(g, st.table[slot], at, data, append) && HasRoom(g, st.used, st.table[slot], |data|)
    ensures var s, r := st.table[slot], MakeRoom(g, st.used, st.table[slot], |data|);
      var pos := if append then s.size else at;
      && WriteNext(g, st, slot, at, data, append, landed) == Wrote(g, st, slot, r, pos, data, landed)
      && WriteCode(g, st, slot, at, data, append, landed)
         == (if Landed(g, r.slot, pos, |data|, landed) == |data| then |data| else -EIO)
      && AllocatedBytes(g, r.slot) == AllocationWith(g, st.used, s, |data|)
      && r.slot.size == s.size && IsReg(r.slot.mode) && (data == [] ==> pos <= AllocatedBytes(g, r.slot))
  {
    RoomHolds(g, st, slot, |data|);
    RoomAllocates(g, st, slot, |data|);
    MakeRoomKeepsInv(g, st, slot, |data|);
    assert SlotOk(g, st.table[slot]);
  }

  lemma LandedBuffer(g: Geometry, st: State, slot: nat, r: Grant, pos: nat, data: seq<byte>, landed: nat)
    requires Addressable(g) && Inv(g, st) && slot < |st.table|
    requires Inv(g, State(r.used, st.table[slot := r.slot], st.store))
    requires Buffer(g, st, slot) <= Buffer(g, State(r.used, st.table[slot := r.slot], st.store), slot)
    requires IsReg(r.slot.mode) && (data == [] ==> pos <= AllocatedBytes(g, r.slot))
    ensures var st', all := Wrote(g, st, slot, r, pos, data, landed), AllocatedBytes(g, r.slot);
      var n := Min(landed, Min(|data|, if pos <= all then all - pos else 0));
      && Inv(g, st') && |Buffer(g, st', slot)| == all
      && Receives(Buffer(g, st, slot), Buffer(g, st', slot), pos, data[..n])
      && st'.table[slot].size == if n == |data| && pos + n > r.slot.size then pos + n else r.slot.size
  {
    WroteSplices(g, st, slot, r, pos, data, landed);
    SpliceReceives(Buffer(g, st, slot), Buffer(g, State(r.used, st.table[slot := r.slot], st.store), slot), pos,
                   data[..Landed(g, r.slot, pos, |data|, landed)]);
  }

  /** Which bytes land, whatever is returned: all the allocation takes, up to where the storage
      fell short. The size follows only if they are all of them. */
  lemma WriteLands(g: Geometry, st: State, slot: nat, at: nat, data: seq<byte>, append: bool, landed: nat)
    requires Addressable(g) && Inv(g, st) && FileSlot(g, st, slot)
    requires !PushesSize(g, st.table[slot], at, data, append) && HasRoom(g, st.used, st.table[slot], |data|)
    ensures var st', s := WriteNext(g, st, slot, at, data, append, landed), st.table[slot];
      var pos, all := if append then s.size else at, AllocationWith(g, st.used, s, |data|);
      var n := Min(landed, Min(|data|, if pos <= all then all - pos else 0));
      && Inv(g, st') && |Buffer(g, st', slot)| == all
      && Receives(Buffer(g, st, slot), Buffer(g, st', slot), pos, data[..n])
      && st'.table[slot].size == (if n == |data| && pos + n > s.size then pos + n else s.size)
      && WriteCode(g, st, slot, at, data, append, landed) == if n == |data| then |data| else -EIO
  {
    var s := st.table[slot];
    WriteWithRoom(g, st, slot, at, data, append, landed);
    RoomAppends(g, st, slot, |data|);
    LandedBuffer(g, st, slot, MakeRoom(g, st.used, s, |data|), if append then s.size else at, data, landed);
  }

  lemma ReceivedContent(before: seq<byte>, after: seq<byte>, size: nat, pos: nat, data: seq<byte>)
    requires Receives(before, after, pos, data) && pos <= size <= |before|
    ensures Max(size, pos + |data|) <= |after|
    ensures var c := before[..size];
      after[..Max(size, pos + |data|)] == c[..pos] + data + c[Min(pos + |data|, |c|)..]
  {
    var c, n := before[..size], Max(size, pos + |data|);
    forall o: nat | o < n ensures after[o] == (c[..pos] + data + c[Min(pos + |data|, |c|)..])[o] {
      if pos <= o < pos + |data| {
        assert after[pos + (o - pos)] == data[o - pos];
      }
    }
  }

  /** A write that returns its count, at a position within the file: the content is spliced, the
      size is the larger of the old one and the end of the write. */
  lemma WriteRefinesSplice(g: Geometry, st: State, slot: nat, at: nat, data: seq<byte>, append: bool, landed: nat)
    requires Addressable(g) && Inv(g, st) && FileSlot(g, st, slot)
    requires append || at <= st.table[slot].size
    requires WriteCode(g, st, slot, at, data, append, landed) == |data|
    ensures var st' := WriteNext(g, st, slot, at, data, append, landed);
      var pos, c := if append then st.table[slot].size else at, Content(g, st, slot);
      && Inv(g, st')
      && st'.table[slot].size == Max(st.table[slot].size, pos + |data|)
      && Content(g, st', slot) == c[..pos] + data + c[Min(pos + |data|, |c|)..]
  {
    var s := st.table[slot];
    var pos := if append then s.size else at;
    NoSpaceIff(g, st, slot, at, data, append, landed);
    WriteLands(g, st, slot, at, data, append, landed);
    assert data[..|data|] == data;
    ContentReceives(g, st, WriteNext(g, st, slot, at, data, append, landed), slot, pos, data);
  }

  lemma ContentReceives(g: Geometry, st: State, st': State, i: nat, pos: nat, data: seq<byte>)
    requires Inv(g, st) && Inv(g, st') && i < |st.table| && i < |st'.table| && pos <= st.table[i].size
    requires Receives(Buffer(g, st, i), Buffer(g, st', i), pos, data)
    requires st'.table[i].size == Max(st.table[i].size, pos + |data|)
    ensures var c := Content(g, st, i);
      Content(g, st', i) == c[..pos] + data + c[Min(pos + |data|, |c|)..]
  {
    ReceivedContent(Buffer(g, st, i), Buffer(g, st', i), st.table[i].size, pos, data);
  }

  /** Reading back: the range just written holds the written bytes, however many extents it
      crosses. */
  lemma ReadBack(g: Geometry, st: State, slot: nat, at: nat, data: seq<byte>, append: bool, landed: nat)
    requires Addressable(g) && Inv(g, st) && FileSlot(g, st, slot)
    requires append || at <= st.table[slot].size
    requires WriteCode(g, st, slot, at, data, append, landed) == |data|
    ensures var st' := WriteNext(g, st, slot, at, data, append, landed);
      var pos := if append then st.table[slot].size else at;
      && Inv(g, st') && pos + |data| <= |Content(g, st', slot)|
      && Content(g, st', slot)[pos..pos + |data|] == data
  {
    WriteRefinesSplice(g, st, slot, at, data, append, landed);
  }

  /** A write in append mode puts its bytes at the end, whatever the position was. */
  lemma AppendContent(g: Geometry, st: State, slot: nat, at: nat, data: seq<byte>, landed: nat)
    requires Addressable(g) && Inv(g, st) && FileSlot(g, st, slot)
    requires WriteCode(g, st, slot, at, data, true, landed) == |data|
    ensures var st' := WriteNext(g, st, slot, at, data, true, landed);
      && Inv(g, st') && st'.table[slot].size == st.table[slot].size + |data|
      && Content(g, st', slot) == Content(g, st, slot) + data
  {
    WriteRefinesSplice(g, st, slot, at, data, true, landed);
  }

  /** When a write within the file succeeds: there was room, and no storage write fell short. */
  lemma WriteSucceedsIff(g: Geometry, st: State, slot: nat, at: nat, data: seq<byte>, append: bool, landed: nat)
    requires Inv(g, st) && FileSlot(g, st, slot)
    requires append || at <= st.table[slot].size
    ensures WriteCode(g, st, slot, at, data, append, landed) == |data|
            <==> HasRoom(g, st.used, st.table[slot], |data|) && landed >= |data|
  {
    RoomHolds(g, st, slot, |data|);
    MakeRoomKeepsInv(g, st, slot, |data|);
  }

  /** A position beyond the file: the write succeeds only if it ends within the allocation, and
      then leaves what the storage held between the old size and the position. */
  lemma WritePastEnd(g: Geometry, st: State, slot: nat, at: nat, data: seq<byte>, landed: nat)
    requires Addressable(g) && Inv(g, st) && FileSlot(g, st, slot)
    requires !PushesSize(g, st.table[slot], at, data, false) && at > st.table[slot].size
    ensures var st' := WriteNext(g, st, slot, at, data, false, landed);
      && Inv(g, st')
      && (WriteCode(g, st, slot, at, data, false, landed) == |data| <==>
            && HasRoom(g, st.used, st.table[slot], |data|) && landed >= |data|
            && at + |data| <= AllocationWith(g, st.used, st.table[slot], |data|))
      && (WriteCode(g, st, slot, at, data, false, landed) == |data| ==>
            && st'.table[slot].size == at + |data|
            && Content(g, st', slot)[..st.table[slot].size] == Content(g, st, slot)
            && Content(g, st', slot)[at..] == data)
  {
    NoSpaceIff(g, st, slot, at, data, false, landed);
    WriteKeepsInv(g, st, slot, at, data, false, landed);
    if HasRoom(g, st.used, st.table[slot], |data|) {
      WriteLands(g, st, slot, at, data, false, landed);
      assert data[..|data|] == data;
    }
  }

  /** A write that fails leaves the size, and every byte of the file outside its range. */
  lemma FailedWrite(g: Geometry, st: State, slot: nat, at: nat, data: seq<byte>, append: bool, landed: nat)
    requires Addressable(g) && Inv(g, st) && FileSlot(g, st, slot) && data != []
    requires WriteCode(g, st, slot, at, data, append, landed) < 0
    ensures var st' := WriteNext(g, st, slot, at, data, append, landed);
      var pos := if append then st.table[slot].size else at;
      && Inv(g, st')
      && st'.table[slot].size == st.table[slot].size
      && (WriteCode(g, st, slot, at, data, append, landed) == -ENOSPC ==>
            st'.store == st.store && Content(g, st', slot) == Content(g, st, slot))
      && forall o: nat | o < st.table[slot].size && !(pos <= o < pos + |data|) ::
           Content(g, st', slot)[o] == Content(g, st, slot)[o]
  {
    NoSpaceIff(g, st, slot, at, data, append, landed);
    if HasRoom(g, st.used, st.table[slot], |data|) {
      WriteLands(g, st, slot, at, data, append, landed);
    } else {
      NoRoomKeeps(g, st, slot, at, data, append, landed);
    }
  }

  lemma NoRoomKeeps(g: Geometry, st: State, slot: nat, at: nat, data: seq<byte>, append: bool, landed: nat)
    requires Inv(g, st) && FileSlot(g, st, slot) && !HasRoom(g, st.used, st.table[slot], |data|)
    ensures var st' := WriteNext(g, st, slot, at, data, append, landed);
      && Inv(g, st') && st'.store == st.store && st'.table[slot].size == st.table[slot].size
      && Content(g, st', slot) == Content(g, st, slot)
  {
    RoomHolds(g, st, slot, |data|);
    MakeRoomKeepsInv(g, st, slot, |data|);
    RoomAppends(g, st, slot, |data|);
    PrefixContent(g, st, WriteNext(g, st, slot, at, data, append, landed), slot);
  }

  // ---------------------------------------------------------------- no interference

  /** The file an operation is about, if it is about one. */
  function SubjectOf(op: Op): Option<nat> {
    match op
    case Unlink(_, _, slot) => Some(slot)
    case Write(slot, _, _, _, _) => Some(slot)
    case Read(slot, _, _) => Some(slot)
    case SetSize(slot, _) => Some(slot)
    case Release(slot) => Some(slot)
    case _ => None
  }

  /** Bytes below the data region belong to no file. */
  lemma BelowData(g: Geometry, s: seq<Extent>, q: int)
    requires Legal(g, s) && q < g.dataStart * g.blockSize
    ensures !InFile(g, s, q)
  {
    forall e | e in s ensures !InExtent(g, e, q) {
      assert LegalExtent(g, e);
      MulMono(g.dataStart, e.start, g.blockSize);
    }
  }

  lemma OwnedDisjoint(g: Geometry, st: State, i: nat, j: nat)
    requires Inv(g, st) && i < |st.table| && j < |st.table| && i != j
    ensures Owned(st.table[i]) !! Owned(st.table[j])
  {
    assert if i < j then Owned(st.table[i]) !! Owned(st.table[j]) else Owned(st.table[j]) !! Owned(st.table[i]);
  }

  /** Bytes of a directory's block belong to no other slot's extents. */
  lemma DirectoryByte(g: Geometry, st: State, i: nat, j: nat, q: int)
    requires Inv(g, st) && i < |st.table| && j < |st.table| && i != j
    requires st.table[j].dirBlock != 0 && InExtent(g, Extent(st.table[j].dirBlock, 1), q)
    ensures !InFile(g, st.table[i].extents, q)
  {
    var d := Extent(st.table[j].dirBlock, 1);
    OwnedDisjoint(g, st, i, j);
    assert d.start in Owned(st.table[j]);
    forall e | e in st.table[i].extents ensures !InExtent(g, e, q) {
      assert Blocks(e) <= Owned(st.table[i]);
      ApartBytes(g, e, d, q);
    }
  }

  /** Offsets of different files never translate to the same storage byte. */
  lemma FilesNeverShareBytes(g: Geometry, st: State, i: nat, j: nat, o: nat, o': nat)
    requires Addressable(g) && Inv(g, st) && i < |st.table| && j < |st.table| && i != j
    requires o < AllocatedBytes(g, st.table[i]) && o' < AllocatedBytes(g, st.table[j])
    ensures GlobalOffset(g, st.table[i].extents, o) != GlobalOffset(g, st.table[j].extents, o')
  {
    var s, t := st.table[i].extents, st.table[j].extents;
    assert SlotOk(g, st.table[i]) && SlotOk(g, st.table[j]);
    OwnedDisjoint(g, st, i, j);
    TotalBytesIsLength(g, s);
    TotalBytesIsLength(g, t);
    OffsetReaches(g, s, o, st.store);
    OffsetReaches(g, t, o', st.store);
    DisjointBytes(g, s, t, GlobalOffset(g, t, o'));
  }

  lemma WroteFrame(g: Geometry, st: State, slot: nat, r: Grant, pos: nat, data: seq<byte>, landed: nat, q: nat)
    requires Addressable(g)
    requires slot < |st.table| && Inv(g, State(r.used, st.table[slot := r.slot], st.store))
    requires q < |st.store| && !InFile(g, r.slot.extents, q)
    ensures |Wrote(g, st, slot, r, pos, data, landed).store| == |st.store|
    ensures Wrote(g, st, slot, r, pos, data, landed).store[q] == st.store[q]
  {
    var n := Landed(g, r.slot, pos, |data|, landed);
    assert SlotOk(g, State(r.used, st.table[slot := r.slot], st.store).table[slot]);
    TotalBytesIsLength(g, r.slot.extents);
    WriteBytesLength(g, r.slot.extents, st.store, pos, data[..n]);
    if n > 0 {
      WriteBytesFrame(g, r.slot.extents, st.store, pos, data[..n], q);
    }
  }

  /** The frame of a write: nothing below the data region and no directory block changes. */
  lemma WriteKeepsMetadata(g: Geometry, st: State, slot: nat, at: nat, data: seq<byte>, append: bool,
                           landed: nat, q: nat)
    requires Addressable(g) && Inv(g, st) && FileSlot(g, st, slot) && q < |st.store|
    requires q < g.dataStart * g.blockSize
          || exists j :: 0 <= j < |st.table| && st.table[j].dirBlock != 0
               && InExtent(g, Extent(st.table[j].dirBlock, 1), q)
    ensures |WriteNext(g, st, slot, at, data, append, landed).store| == |st.store|
    ensures WriteNext(g, st, slot, at, data, append, landed).store[q] == st.store[q]
  {
    var r := MakeRoom(g, st.used, st.table[slot], |data|);
    MakeRoomKeepsInv(g, st, slot, |data|);
    assert SlotOk(g, st.table[slot]);
    var mid := State(r.used, st.table[slot := r.slot], st.store);
    if r.ok {
      if q < g.dataStart * g.blockSize {
        BelowData(g, r.slot.extents, q);
      } else {
        var j :| 0 <= j < |st.table| && st.table[j].dirBlock != 0
               && InExtent(g, Extent(st.table[j].dirBlock, 1), q);
        assert mid.table[j] == st.table[j];
        DirectoryByte(g, mid, slot, j, q);
      }
      WroteFrame(g, st, slot, r, WritePos(st.table[slot], at, append), data, landed, q);
    }
  }

  lemma WroteKeepsOthers(g: Geometry, st: State, slot: nat, r: Grant, pos: nat, data: seq<byte>, landed: nat, j: nat)
    requires Addressable(g)
    requires slot < |st.table| && Inv(g, State(r.used, st.table[slot := r.slot], st.store))
    requires IsReg(r.slot.mode) && (data == [] ==> pos <= AllocatedBytes(g, r.slot))
    requires j < |st.table| && j != slot
    ensures var st' := Wrote(g, st, slot, r, pos, data, landed);
      && Inv(g, st') && st'.table[j] == st.table[j]
      && Buffer(g, st', j) == Buffer(g, State(r.used, st.table[slot := r.slot], st.store), j)
  {
    WroteKeepsInv(g, st, slot, r, pos, data, landed);
    var mid := State(r.used, st.table[slot := r.slot], st.store);
    assert SlotOk(g, mid.table[slot]) && SlotOk(g, mid.table[j]);
    OwnedDisjoint(g, mid, slot, j);
    var n := Landed(g, r.slot, pos, |data|, landed);
    TotalBytesIsLength(g, r.slot.extents);
    if n > 0 {
      WriteKeepsOthers(g, r.slot.extents, st.store, pos, data[..n], st.table[j].extents);
    }
  }

  /** No interference: whatever the operation and whatever it returns, a regular file it is not
      about keeps its slot and every byte. */
  lemma OthersUntouched(g: Geometry, st: State, op: Op, j: nat)
    requires Addressable(g) && Inv(g, st) && Enabled(g, st, op)
    requires j < |st.table| && IsReg(st.table[j].mode) && SubjectOf(op) != Some(j)
    ensures Inv(g, Next(g, st, op))
    ensures Next(g, st, op).table[j] == st.table[j]
    ensures Buffer(g, Next(g, st, op), j) == Buffer(g, st, j)
    ensures Content(g, Next(g, st, op), j) == Content(g, st, j)
  {
    NextKeepsInv(g, st, op);
    if op.Write? {
      var r := MakeRoom(g, st.used, st.table[op.slot], |op.data|);
      MakeRoomKeepsInv(g, st, op.slot, |op.data|);
      if r.ok {
        WroteKeepsOthers(g, st, op.slot, r, WritePos(st.table[op.slot], op.pos, op.append), op.data, op.landed, j);
      }
    } else {
      OnlyWriteStores(g, st, op, j);
    }
  }

  lemma OnlyWriteStores(g: Geometry, st: State, op: Op, j: nat)
    requires Enabled(g, st, op) && !op.Write?
    requires j < |st.table| && IsReg(st.table[j].mode) && SubjectOf(op) != Some(j)
    ensures Next(g, st, op).store == st.store && |Next(g, st, op).table| == |st.table|
    ensures Next(g, st, op).table[j] == st.table[j]
  {
  }

  /** The operations that change what file `j` holds. */
  predicate Alters(op: Op, j: nat) {
    (op.Unlink? || op.Write? || op.SetSize?) && op.slot == j
  }

  /** Content is decided by a slot's extents and size and the storage bytes. */
  lemma SameContent(g: Geometry, st: State, st': State, i: nat)
    requires Inv(g, st) && Inv(g, st') && i < |st.table| && i < |st'.table| && st'.store == st.store
    requires st'.table[i].extents == st.table[i].extents && st'.table[i].size == st.table[i].size
    ensures Content(g, st', i) == Content(g, st, i)
  {
  }

  /** Reading or closing a file leaves its content alone. */
  lemma ReadKeepsContent(g: Geometry, st: State, op: Op)
    requires Inv(g, st) && Enabled(g, st, op) && (op.Read? || op.Release?)
    ensures Inv(g, Next(g, st, op)) && op.slot < |Next(g, st, op).table|
    ensures IsReg(Next(g, st, op).table[op.slot].mode)
    ensures Content(g, Next(g, st, op), op.slot) == Content(g, st, op.slot)
  {
    NextKeepsInv(g, st, op);
    ReserveFacts(g, st.used, st.table[op.slot], |st.table[op.slot].extents| >= DIRECT_EXTENTS);
    SameContent(g, st, Next(g, st, op), op.slot);
  }

  /** Whatever does not write, resize or unlink a file keeps its content. */
  lemma NextKeepsContent(g: Geometry, st: State, op: Op, j: nat)
    requires Addressable(g) && Inv(g, st) && Enabled(g, st, op)
    requires j < |st.table| && IsReg(st.table[j].mode) && !Alters(op, j)
    ensures Inv(g, Next(g, st, op)) && j < |Next(g, st, op).table| && IsReg(Next(g, st, op).table[j].mode)
    ensures Content(g, Next(g, st, op), j) == Content(g, st, j)
  {
    if SubjectOf(op) == Some(j) {
      ReadKeepsContent(g, st, op);
    } else {
      OthersUntouched(g, st, op, j);
    }
  }

  /** Over a whole run a file keeps its content until it is written, resized or unlinked. */
  lemma {:induction false} RunKeepsContent(g: Geometry, st: State, ops: seq<Op>, j: nat)
    requires Addressable(g) && Inv(g, st) && Runnable(g, st, ops)
    requires j < |st.table| && IsReg(st.table[j].mode)
    requires forall op | op in ops :: !Alters(op, j)
    ensures Inv(g, Run(g, st, ops)) && j < |Run(g, st, ops).table|
    ensures Content(g, Run(g, st, ops), j) == Content(g, st, j)
    decreases |ops|
  {
    if ops != [] {
      assert ops[0] in ops && forall op | op in ops[1..] :: op in ops;
      NextKeepsContent(g, st, ops[0], j);
      RunKeepsContent(g, Next(g, st, ops[0]), ops[1..], j);
    }
  }

  // ---------------------------------------------------------------- size changes

  /** Room to extend to `newSize`: the allocation covers it, or the blocks asked for, which are
      those for all the bytes added and not only for those beyond the allocation, can be had. */
  predicate CanExtend(g: Geometry, used: set<nat>, s: Slot, newSize: nat)
    requires ValidGeometry(g) && s.size <= newSize
  {
    AllocatedBytes(g, s) >= newSize || Obtainable(g, used, s) >= Target(g, newSize - s.size)
  }

  /** Extending gets what it asks for exactly if there is room. */
  lemma ExtendSucceedsIff(g: Geometry, st: State, slot: nat, newSize: nat)
    requires Inv(g, st) && FileSlot(g, st, slot) && newSize > st.table[slot].size
    ensures var s := st.table[slot];
      AllocatedBytes(g, s) - s.size >= newSize - s.size || Allocate(g, st.used, s, newSize - s.size).ok
      <==> CanExtend(g, st.used, s, newSize)
  {
    var s := st.table[slot];
    assert SlotOk(g, s);
    TargetCovers(g, newSize - s.size);
    AllocateSucceedsIff(g, st.used, s, Target(g, newSize - s.size));
  }

  lemma ExtendSize(g: Geometry, st: State, slot: nat, newSize: nat)
    requires Inv(g, st) && Enabled(g, st, SetSize(slot, newSize)) && newSize > st.table[slot].size
    ensures var s := st.table[slot];
      SetSizeNext(g, st, slot, newSize).table[slot].size
        == if CanExtend(g, st.used, s, newSize) then newSize else s.size
  {
    var s := st.table[slot];
    assert SlotOk(g, s);
    ExtendSucceedsIff(g, st, slot, newSize);
    if AllocatedBytes(g, s) - s.size < newSize - s.size {
      AllocateKeepsInv(g, st, slot, newSize - s.size);
    }
  }

  lemma ExtendTakes(g: Geometry, st: State, slot: nat, newSize: nat) returns (taken: seq<Extent>)
    requires Inv(g, st) && Enabled(g, st, SetSize(slot, newSize)) && newSize > st.table[slot].size
    ensures Legal(g, taken)
    ensures SetSizeNext(g, st, slot, newSize).table[slot].extents == st.table[slot].extents + taken
  {
    var s := st.table[slot];
    assert SlotOk(g, s);
    taken := [];
    if AllocatedBytes(g, s) - s.size < newSize - s.size {
      TargetCovers(g, newSize - s.size);
      AllocateConserves(g, st.used, s, Target(g, newSize - s.size));
      taken := Taken(g, st.used, s, Target(g, newSize - s.size));
    } else {
      assert s.extents + [] == s.extents;
    }
  }

  lemma ExtendAppends(g: Geometry, st: State, slot: nat, newSize: nat)
    requires Inv(g, st) && Enabled(g, st, SetSize(slot, newSize)) && newSize > st.table[slot].size
    ensures var st' := SetSizeNext(g, st, slot, newSize);
      Inv(g, st') && Buffer(g, st, slot) <= Buffer(g, st', slot)
  {
    SetSizeKeepsInv(g, st, slot, newSize);
    assert SlotOk(g, st.table[slot]);
    var taken := ExtendTakes(g, st, slot, newSize);
    FileBytesConcat(g, st.table[slot].extents, taken, st.store);
  }

  /** Extending keeps the old content as a prefix; the size is the new one exactly if there was
      room, otherwise the old one, and either way within the allocation. */
  lemma ExtendContent(g: Geometry, st: State, slot: nat, newSize: nat)
    requires Inv(g, st) && Enabled(g, st, SetSize(slot, newSize)) && newSize >= st.table[slot].size
    ensures var st' := SetSizeNext(g, st, slot, newSize);
      var s, s' := st.table[slot], st'.table[slot];
      && Inv(g, st') && s'.size == s'.inodeSize <= AllocatedBytes(g, s')
      && s'.size == (if CanExtend(g, st.used, s, newSize) then newSize else s.size)
      && Content(g, st', slot)[..s.size] == Content(g, st, slot)
  {
    if newSize > st.table[slot].size {
      ExtendSize(g, st, slot, newSize);
      ExtendAppends(g, st, slot, newSize);
      PrefixContent(g, st, SetSizeNext(g, st, slot, newSize), slot);
    } else {
      PrefixContent(g, st, st, slot);
    }
  }

  /** Truncating to zero empties the file and returns exactly the blocks it owned. */
  lemma TruncateContent(g: Geometry, st: State, slot: nat)
    requires Inv(g, st) && Enabled(g, st, SetSize(slot, 0)) && 0 < st.table[slot].size
    ensures var st' := SetSizeNext(g, st, slot, 0);
      && Inv(g, st') && Content(g, st', slot) == []
      && Owned(st'.table[slot]) == {} && st'.used == st.used - Owned(st.table[slot])
  {
    SetSizeKeepsInv(g, st, slot, 0);
    assert SlotOk(g, st.table[slot]);
  }
}
