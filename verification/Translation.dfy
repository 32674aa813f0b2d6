/** kernel/file.c, address translation: from an offset in a file to an offset in the storage
    file through the file's extents, with the 32-bit products of the C code. */
module Translation {
  import opened Types

  /** portfs_calc_global_offset; -EFAULT past the last extent. */
  function GlobalOffset(g: Geometry, s: seq<Extent>, o: nat): int {
    if s == [] then -EFAULT
    else
      var size := Mul32(s[0].length, g.blockSize);
      if o < size then Mul32(s[0].start, g.blockSize) + o
      else GlobalOffset(g, s[1..], o - size)
  }

  /** portfs_calc_available_bytes, with `passed` bytes of earlier extents added up already. */
  function AvailableBytes(g: Geometry, s: seq<Extent>, o: nat, passed: nat): int {
    if s == [] then -EFAULT
    else
      var reach := passed + Mul32(s[0].length, g.blockSize);
      if reach > o then reach - o else AvailableBytes(g, s[1..], o, reach)
  }

  function TotalBytes(g: Geometry, s: seq<Extent>): nat {
    if s == [] then 0 else s[0].length * g.blockSize + TotalBytes(g, s[1..])
  }

  // ---------------------------------------------------------------- what a file holds

  predicate LegalExtent(g: Geometry, e: Extent) {
    1 <= e.length <= MAX_EXTENT_LENGTH && g.dataStart <= e.start && e.start + e.length <= g.totalBlocks
  }

  predicate Legal(g: Geometry, s: seq<Extent>) {
    forall e | e in s :: LegalExtent(g, e)
  }

  /** Every block's byte offset fits the 32-bit product. */
  predicate Addressable(g: Geometry) {
    g.totalBlocks > 0 && (g.totalBlocks - 1) * g.blockSize < U32
  }

  /** The byte range of an extent, and the byte ranges of a list of them. */
  predicate InExtent(g: Geometry, e: Extent, p: int) {
    e.start * g.blockSize <= p < e.start * g.blockSize + e.length * g.blockSize
  }

  predicate InFile(g: Geometry, s: seq<Extent>, p: int) {
    exists e :: e in s && InExtent(g, e, p)
  }

  ghost predicate Holds(g: Geometry, store: seq<byte>) {
    g.totalBlocks * g.blockSize <= |store|
  }

  function Piece(store: seq<byte>, from: nat, length: nat): (r: seq<byte>)
    requires from + length <= |store|
    ensures |r| == length
  {
    store[from..from + length]
  }

  /** Reference meaning of a list of extents: their byte ranges, one after the other. */
  ghost function FileBytes(g: Geometry, s: seq<Extent>, store: seq<byte>): seq<byte>
    requires Legal(g, s) && Holds(g, store)
  {
    if s == [] then []
    else
      ExtentInStore(g, s[0], store);
      Piece(store, s[0].start * g.blockSize, s[0].length * g.blockSize) + FileBytes(g, s[1..], store)
  }

  lemma MulMono(a: nat, b: nat, m: nat)
    requires a <= b
    ensures a * m <= b * m
  {
  }

  lemma Distribute(a: nat, b: nat, m: nat)
    ensures (a + b) * m == a * m + b * m
  {
  }

  lemma ExtentInStore(g: Geometry, e: Extent, store: seq<byte>)
    requires LegalExtent(g, e) && Holds(g, store)
    ensures e.start * g.blockSize + e.length * g.blockSize <= |store|
  {
    Distribute(e.start, e.length, g.blockSize);
    MulMono(e.start + e.length, g.totalBlocks, g.blockSize);
  }

  /** Inside an addressable geometry the 32-bit products are the true ones. */
  lemma ProductsExact(g: Geometry, e: Extent)
    requires ValidGeometry(g) && Addressable(g) && LegalExtent(g, e)
    ensures Mul32(e.length, g.blockSize) == e.length * g.blockSize > 0
    ensures Mul32(e.start, g.blockSize) == e.start * g.blockSize
  {
    MulMono(e.length, g.totalBlocks - 1, g.blockSize);
    MulMono(e.start, g.totalBlocks - 1, g.blockSize);
    MulMono(1, e.length, g.blockSize);
    SmallProduct(e.length, g.blockSize);
    SmallProduct(e.start, g.blockSize);
  }

  lemma SmallProduct(a: nat, b: nat)
    ensures Mul32(a, b) == a * b <==> a * b < U32
  {
    Remainder(a * b);
  }

  lemma Remainder(x: nat)
    ensures x % U32 == x <==> x < U32
    ensures x % U32 < U32
  {
  }

  lemma {:induction false} TotalBytesIsLength(g: Geometry, s: seq<Extent>)
    ensures TotalBytes(g, s) == TotalLength(s) * g.blockSize
  {
    if s != [] {
      TotalBytesIsLength(g, s[1..]);
      assert s == [s[0]] + s[1..];
      TotalLengthConcat([s[0]], s[1..]);
      assert [s[0]][..0] == [];
      assert TotalLength([s[0]]) == s[0].length;
      Distribute(s[0].length, TotalLength(s[1..]), g.blockSize);
    }
  }

  lemma {:induction false} FileBytesLength(g: Geometry, s: seq<Extent>, store: seq<byte>)
    requires Legal(g, s) && Holds(g, store)
    ensures |FileBytes(g, s, store)| == TotalBytes(g, s)
  {
    if s != [] {
      ExtentInStore(g, s[0], store);
      FileBytesLength(g, s[1..], store);
    }
  }

  /** Translation reaches the byte the reference meaning names; both functions report -EFAULT
      exactly past the allocation. */
  lemma {:induction false} OffsetReaches(g: Geometry, s: seq<Extent>, o: nat, store: seq<byte>)
    requires ValidGeometry(g) && Addressable(g) && Legal(g, s) && Holds(g, store)
    ensures o >= TotalBytes(g, s) ==> GlobalOffset(g, s, o) == -EFAULT
    ensures o < TotalBytes(g, s) ==>
      var p := GlobalOffset(g, s, o);
      && 0 <= p < |store| && InFile(g, s, p)
      && |FileBytes(g, s, store)| == TotalBytes(g, s) && FileBytes(g, s, store)[o] == store[p]
  {
    if s != [] {
      ProductsExact(g, s[0]);
      ExtentInStore(g, s[0], store);
      FileBytesLength(g, s, store);
      var size := s[0].length * g.blockSize;
      if o < size {
        assert s[0] in s && InExtent(g, s[0], GlobalOffset(g, s, o));
      } else {
        OffsetReaches(g, s[1..], o - size, store);
        if o < TotalBytes(g, s) {
          var p := GlobalOffset(g, s, o);
          var e :| e in s[1..] && InExtent(g, e, p);
          assert e in s;
        }
      }
    }
  }

  /** `n` offsets from `o` on are stored in one piece at `p`. */
  ghost predicate Contiguous(g: Geometry, s: seq<Extent>, o: nat, n: nat, p: int) {
    forall q: nat | o <= q < o + n :: GlobalOffset(g, s, q) == p + (q - o)
  }

  /** The two separately written loops agree on the extent boundary: the bytes said to be
      available from `o` are consecutive in the storage, and there is at least one. */
  lemma {:induction false} AvailableIsContiguous(g: Geometry, s: seq<Extent>, o: nat, passed: nat)
    requires ValidGeometry(g) && Addressable(g) && Legal(g, s) && passed <= o
    ensures o - passed >= TotalBytes(g, s) ==> AvailableBytes(g, s, o, passed) == -EFAULT
    ensures o - passed < TotalBytes(g, s) ==>
      var n := AvailableBytes(g, s, o, passed);
      && 1 <= n <= TotalBytes(g, s) - (o - passed)
      && Contiguous(g, s, o - passed, n, GlobalOffset(g, s, o - passed))
  {
    if s != [] {
      ProductsExact(g, s[0]);
      var size := s[0].length * g.blockSize;
      if o - passed >= size {
        AvailableIsContiguous(g, s[1..], o, passed + size);
        if o - passed < TotalBytes(g, s) {
          var n, p := AvailableBytes(g, s, o, passed), GlobalOffset(g, s, o - passed);
          forall q: nat | o - passed <= q < o - passed + n
            ensures GlobalOffset(g, s, q) == p + (q - (o - passed))
          {
            assert GlobalOffset(g, s, q) == GlobalOffset(g, s[1..], q - size);
          }
        }
      }
    }
  }

  lemma ApartBytes(g: Geometry, a: Extent, b: Extent, p: int)
    requires Apart(a, b)
    ensures !(InExtent(g, a, p) && InExtent(g, b, p))
  {
    Distribute(a.start, a.length, g.blockSize);
    Distribute(b.start, b.length, g.blockSize);
    if a.start + a.length <= b.start {
      MulMono(a.start + a.length, b.start, g.blockSize);
    } else {
      MulMono(b.start + b.length, a.start, g.blockSize);
    }
  }

  lemma ApartFromRest(g: Geometry, s: seq<Extent>, p: int)
    requires s != [] && PairwiseApart(s) && InFile(g, s[1..], p)
    ensures !InExtent(g, s[0], p)
  {
    var e :| e in s[1..] && InExtent(g, e, p);
    var i :| 0 <= i < |s[1..]| && s[1..][i] == e;
    assert Apart(s[0], s[i + 1]);
    ApartBytes(g, s[0], e, p);
  }

  /** Translation is injective: two offsets of a file never share a storage byte. */
  lemma {:induction false} OffsetInjective(g: Geometry, s: seq<Extent>, o: nat, o': nat, store: seq<byte>)
    requires ValidGeometry(g) && Addressable(g) && Legal(g, s) && PairwiseApart(s) && Holds(g, store)
    requires o < TotalBytes(g, s) && o' < TotalBytes(g, s)
    requires GlobalOffset(g, s, o) == GlobalOffset(g, s, o')
    ensures o == o'
  {
    ProductsExact(g, s[0]);
    var size := s[0].length * g.blockSize;
    if o >= size {
      OffsetReaches(g, s[1..], o - size, store);
      ApartFromRest(g, s, GlobalOffset(g, s, o));
    }
    if o' >= size {
      OffsetReaches(g, s[1..], o' - size, store);
      ApartFromRest(g, s, GlobalOffset(g, s, o'));
    }
    if o >= size && o' >= size {
      OffsetInjective(g, s[1..], o - size, o' - size, store);
    }
  }

  /** Translation is onto: every storage byte of the extents is some offset of the file. */
  lemma {:induction false} OffsetOnto(g: Geometry, s: seq<Extent>, p: int) returns (o: nat)
    requires ValidGeometry(g) && Addressable(g) && Legal(g, s) && InFile(g, s, p)
    ensures o < TotalBytes(g, s) && GlobalOffset(g, s, o) == p
  {
    ProductsExact(g, s[0]);
    if InExtent(g, s[0], p) {
      o := p - s[0].start * g.blockSize;
    } else {
      var e :| e in s && InExtent(g, e, p);
      assert e in s[1..];
      o := OffsetOnto(g, s[1..], p);
      o := o + s[0].length * g.blockSize;
    }
  }

  lemma LastBlock(g: Geometry)
    requires ValidGeometry(g) && !Addressable(g)
    ensures var last := Extent(g.totalBlocks - 1, 1);
      && LegalExtent(g, last)
      && 0 < last.length * g.blockSize
      && GlobalOffset(g, [last], 0) != last.start * g.blockSize + 0
  {
    SmallProduct(1, g.blockSize);
    SmallProduct(g.totalBlocks - 1, g.blockSize);
  }

  /** The products are exact for every legal extent just when the last block is addressable:
      translation of a larger storage goes wrong, and only of a larger one. */
  lemma ExactIffAddressable(g: Geometry)
    requires ValidGeometry(g)
    ensures (forall e, o: nat | LegalExtent(g, e) && o < e.length * g.blockSize ::
               GlobalOffset(g, [e], o) == e.start * g.blockSize + o)
            <==> Addressable(g)
  {
    if Addressable(g) {
      forall e, o: nat | LegalExtent(g, e) && o < e.length * g.blockSize
        ensures GlobalOffset(g, [e], o) == e.start * g.blockSize + o
      {
        ProductsExact(g, e);
      }
    } else {
      LastBlock(g);
    }
  }

  /** Concretely: with 4096-byte blocks and more than 2^20 data blocks, two separate extents
      are translated to the same storage byte. */
  lemma LargeStorageAliases(g: Geometry)
    requires ValidGeometry(g) && g.blockSize == 4096 && g.dataStart + 0x10_0000 < g.totalBlocks
    ensures var a, b := Extent(g.dataStart, 1), Extent(g.dataStart + 0x10_0000, 1);
      && LegalExtent(g, a) && LegalExtent(g, b) && Apart(a, b)
      && GlobalOffset(g, [a], 0) == GlobalOffset(g, [b], 0)
  {
    assert (g.dataStart + 0x10_0000) * 4096 == g.dataStart * 4096 + U32;
  }

  // ---------------------------------------------------------------- writing byte by byte

  /** Reference meaning of a write: one byte after the other, each translated on its own. */
  function WriteBytes(g: Geometry, s: seq<Extent>, store: seq<byte>, pos: nat, data: seq<byte>): seq<byte>
    decreases |data|
  {
    if data == [] then store
    else
      var p := GlobalOffset(g, s, pos);
      var store' := if 0 <= p < |store| then store[p := data[0]] else store;
      WriteBytes(g, s, store', pos + 1, data[1..])
  }

  lemma {:induction false} WriteBytesLength(g: Geometry, s: seq<Extent>, store: seq<byte>, pos: nat, data: seq<byte>)
    ensures |WriteBytes(g, s, store, pos, data)| == |store|
    decreases |data|
  {
    if data != [] {
      var p := GlobalOffset(g, s, pos);
      WriteBytesLength(g, s, if 0 <= p < |store| then store[p := data[0]] else store, pos + 1, data[1..]);
    }
  }

  lemma {:induction false} WriteBytesSplit(g: Geometry, s: seq<Extent>, store: seq<byte>, pos: nat,
                                           a: seq<byte>, b: seq<byte>)
    ensures WriteBytes(g, s, store, pos, a + b) ==
            WriteBytes(g, s, WriteBytes(g, s, store, pos, a), pos + |a|, b)
    decreases |a|
  {
    if a == [] {
      assert a + b == b;
    } else {
      var p := GlobalOffset(g, s, pos);
      assert (a + b)[1..] == a[1..] + b;
      WriteBytesSplit(g, s, if 0 <= p < |store| then store[p := a[0]] else store, pos + 1, a[1..], b);
    }
  }

  /** Storage with `data` written at `p`, in one piece. */
  function Splice(store: seq<byte>, p: nat, data: seq<byte>): seq<byte>
    requires p + |data| <= |store|
  {
    store[..p] + data + store[p + |data|..]
  }

  lemma SpliceMore(s: seq<byte>, at: nat, a: seq<byte>, b: seq<byte>)
    requires at + |a| + |b| <= |s|
    ensures Splice(Splice(s, at, a), at + |a|, b) == Splice(s, at, a + b)
  {
  }

  /** The fast form: as long as a chunk stays within the available bytes, one storage write at
      the translated offset does what the byte-by-byte write does. */
  lemma {:induction false} ChunkIsBytewise(g: Geometry, s: seq<Extent>, store: seq<byte>, pos: nat,
                                           data: seq<byte>, p: nat)
    requires Contiguous(g, s, pos, |data|, p)
    requires p + |data| <= |store|
    ensures WriteBytes(g, s, store, pos, data) == Splice(store, p, data)
    decreases |data|
  {
    if data != [] {
      var store' := store[p := data[0]];
      assert GlobalOffset(g, s, pos) == p;
      ChunkIsBytewise(g, s, store', pos + 1, data[1..], p + 1);
      assert Splice(store', p + 1, data[1..]) == Splice(store, p, data);
    }
  }

  /** Reading a chunk within the available bytes at the translated offset reads that stretch of
      the file. */
  lemma ChunkRead(g: Geometry, s: seq<Extent>, store: seq<byte>, o: nat, n: nat)
    requires ValidGeometry(g) && Addressable(g) && Legal(g, s) && Holds(g, store)
    requires o < TotalBytes(g, s) && 0 < n <= AvailableBytes(g, s, o, 0)
    ensures var p := GlobalOffset(g, s, o);
      && 0 <= p && p + n <= |store|
      && |FileBytes(g, s, store)| == TotalBytes(g, s) && o + n <= TotalBytes(g, s)
      && store[p..p + n] == FileBytes(g, s, store)[o..o + n]
  {
    AvailableIsContiguous(g, s, o, 0);
    FileBytesLength(g, s, store);
    var p, f := GlobalOffset(g, s, o), FileBytes(g, s, store);
    OffsetReaches(g, s, o, store);
    OffsetReaches(g, s, o + n - 1, store);
    forall q: nat | o <= q < o + n ensures f[q] == store[p..p + n][q - o] {
      OffsetReaches(g, s, q, store);
    }
    SameSlice(store[p..p + n], f, o);
  }

  lemma SameSlice(a: seq<byte>, f: seq<byte>, o: nat)
    requires o + |a| <= |f| && forall q: nat | o <= q < o + |a| :: f[q] == a[q - o]
    ensures a == f[o..o + |a|]
  {
    forall k | 0 <= k < |a| ensures a[k] == f[o..o + |a|][k] {
      assert f[o + k] == a[o + k - o];
    }
  }

  /** Translated offsets lie in the data region, so the writer's guard stops only past the end. */
  lemma OffsetInData(g: Geometry, s: seq<Extent>, o: nat, store: seq<byte>)
    requires ValidGeometry(g) && Addressable(g) && Legal(g, s) && Holds(g, store)
    ensures GlobalOffset(g, s, o) < Mul32(g.dataStart, g.blockSize) <==> o >= TotalBytes(g, s)
  {
    OffsetReaches(g, s, o, store);
    MulMono(g.dataStart, g.totalBlocks - 1, g.blockSize);
    SmallProduct(g.dataStart, g.blockSize);
    if o < TotalBytes(g, s) {
      var e :| e in s && InExtent(g, e, GlobalOffset(g, s, o));
      MulMono(g.dataStart, e.start, g.blockSize);
    }
  }

  /** One storage write of part of a chunk, appended to the bytes written before. */
  lemma ChunkAppends(g: Geometry, s: seq<Extent>, store: seq<byte>, pos: nat, data: seq<byte>,
                     done: nat, n: nat, m: nat)
    requires ValidGeometry(g) && Addressable(g) && Legal(g, s) && Holds(g, store)
    requires done + n <= |data| && m <= n && pos + done < TotalBytes(g, s)
    requires n <= AvailableBytes(g, s, pos + done, 0)
    ensures var before, p := WriteBytes(g, s, store, pos, data[..done]), GlobalOffset(g, s, pos + done);
      && 0 <= p && p + n <= |before| && pos + done + n <= TotalBytes(g, s)
      && WriteBytes(g, s, store, pos, data[..done + m]) == Splice(before, p, data[done..done + n][..m])
  {
    var before, p := WriteBytes(g, s, store, pos, data[..done]), GlobalOffset(g, s, pos + done);
    var chunk := data[done..done + m];
    WriteBytesLength(g, s, store, pos, data[..done]);
    ChunkPlace(g, s, store, pos + done, n);
    ChunkIsBytewise(g, s, before, pos + done, chunk, p);
    WriteBytesSplit(g, s, store, pos, data[..done], chunk);
    assert data[..done] + chunk == data[..done + m];
    assert data[done..done + n][..m] == chunk;
  }

  /** A chunk of the available bytes is in one piece, inside the file and the storage. */
  lemma ChunkPlace(g: Geometry, s: seq<Extent>, store: seq<byte>, o: nat, n: nat)
    requires ValidGeometry(g) && Addressable(g) && Legal(g, s) && Holds(g, store)
    requires o < TotalBytes(g, s) && n <= AvailableBytes(g, s, o, 0)
    ensures var p := GlobalOffset(g, s, o);
      && 0 <= p && p + n <= |store| && o + n <= TotalBytes(g, s)
      && forall m: nat | m <= n :: Contiguous(g, s, o, m, p)
  {
    AvailableIsContiguous(g, s, o, 0);
    OffsetReaches(g, s, o, store);
    if n > 0 {
      ChunkRead(g, s, store, o, n);
    }
  }

  /** Bytes outside the file's extents are never touched. */
  lemma {:induction false} WriteBytesFrame(g: Geometry, s: seq<Extent>, store: seq<byte>, pos: nat,
                                           data: seq<byte>, q: nat)
    requires ValidGeometry(g) && Addressable(g) && Legal(g, s) && Holds(g, store)
    requires q < |store| && !InFile(g, s, q) && pos + |data| <= TotalBytes(g, s)
    ensures |WriteBytes(g, s, store, pos, data)| == |store|
    ensures WriteBytes(g, s, store, pos, data)[q] == store[q]
    decreases |data|
  {
    if data != [] {
      OffsetReaches(g, s, pos, store);
      WriteBytesFrame(g, s, store[GlobalOffset(g, s, pos) := data[0]], pos + 1, data[1..], q);
    }
  }

  /** Inside the file, offset `o` receives its byte of `data` if the write covers it and keeps
      its byte otherwise. */
  lemma {:induction false} WriteBytesAt(g: Geometry, s: seq<Extent>, store: seq<byte>, pos: nat,
                                        data: seq<byte>, o: nat)
    requires ValidGeometry(g) && Addressable(g) && Legal(g, s) && PairwiseApart(s) && Holds(g, store)
    requires pos + |data| <= TotalBytes(g, s) && o < TotalBytes(g, s)
    ensures var r := WriteBytes(g, s, store, pos, data);
      && |r| == |store|
      && 0 <= GlobalOffset(g, s, o) < |store|
      && r[GlobalOffset(g, s, o)] ==
           if pos <= o < pos + |data| then data[o - pos] else store[GlobalOffset(g, s, o)]
    decreases |data|
  {
    OffsetReaches(g, s, o, store);
    if data != [] {
      OffsetReaches(g, s, pos, store);
      var store' := store[GlobalOffset(g, s, pos) := data[0]];
      WriteBytesAt(g, s, store', pos + 1, data[1..], o);
      if GlobalOffset(g, s, o) == GlobalOffset(g, s, pos) {
        OffsetInjective(g, s, o, pos, store);
      }
    }
  }

  /** A write splices the file's own bytes, however many extents it crosses. */
  lemma WriteSplicesFile(g: Geometry, s: seq<Extent>, store: seq<byte>, pos: nat, data: seq<byte>)
    requires ValidGeometry(g) && Addressable(g) && Legal(g, s) && PairwiseApart(s) && Holds(g, store)
    requires pos + |data| <= TotalBytes(g, s)
    ensures |FileBytes(g, s, store)| == TotalBytes(g, s)
    ensures Holds(g, WriteBytes(g, s, store, pos, data))
    ensures FileBytes(g, s, WriteBytes(g, s, store, pos, data)) == Splice(FileBytes(g, s, store), pos, data)
  {
    var r := WriteBytes(g, s, store, pos, data);
    WriteBytesLength(g, s, store, pos, data);
    FileBytesLength(g, s, store);
    FileBytesLength(g, s, r);
    var spliced := Splice(FileBytes(g, s, store), pos, data);
    forall o: nat | o < TotalBytes(g, s) ensures FileBytes(g, s, r)[o] == spliced[o] {
      WriteBytesAt(g, s, store, pos, data, o);
      OffsetReaches(g, s, o, store);
      OffsetReaches(g, s, o, r);
    }
  }

  /** A file whose blocks are disjoint from the written file's keeps its bytes. */
  lemma WriteKeepsOthers(g: Geometry, s: seq<Extent>, store: seq<byte>, pos: nat, data: seq<byte>,
                         t: seq<Extent>)
    requires ValidGeometry(g) && Addressable(g) && Legal(g, s) && Legal(g, t) && Holds(g, store)
    requires pos + |data| <= TotalBytes(g, s)
    requires BlocksOf(s) !! BlocksOf(t)
    ensures Holds(g, WriteBytes(g, s, store, pos, data))
    ensures FileBytes(g, t, WriteBytes(g, s, store, pos, data)) == FileBytes(g, t, store)
  {
    var r := WriteBytes(g, s, store, pos, data);
    WriteBytesLength(g, s, store, pos, data);
    FileBytesLength(g, t, store);
    FileBytesLength(g, t, r);
    forall o: nat | o < TotalBytes(g, t) ensures FileBytes(g, t, r)[o] == FileBytes(g, t, store)[o] {
      OffsetReaches(g, t, o, store);
      OffsetReaches(g, t, o, r);
      var p := GlobalOffset(g, t, o);
      DisjointBytes(g, s, t, p);
      WriteBytesFrame(g, s, store, pos, data, p);
    }
  }

  lemma DisjointBytes(g: Geometry, s: seq<Extent>, t: seq<Extent>, p: int)
    requires Legal(g, s) && Legal(g, t) && BlocksOf(s) !! BlocksOf(t) && InFile(g, t, p)
    ensures !InFile(g, s, p)
  {
    if InFile(g, s, p) {
      var a :| a in s && InExtent(g, a, p);
      var b :| b in t && InExtent(g, b, p);
      DisjointIsApart(g, s, t, a, b);
      ApartBytes(g, a, b, p);
    }
  }

  lemma DisjointIsApart(g: Geometry, s: seq<Extent>, t: seq<Extent>, a: Extent, b: Extent)
    requires BlocksOf(s) !! BlocksOf(t) && a in s && b in t
    requires a.length > 0 && b.length > 0
    ensures Apart(a, b)
  {
    var k := if a.start <= b.start then b.start else a.start;
    assert k in Blocks(a) ==> k in BlocksOf(s);
    assert k in Blocks(b) ==> k in BlocksOf(t);
  }
}
