/** user/StorageManager.cpp: the regions createSuperblock lays out, with the 32-bit wrap-around
    of its assignments, and the buffered writers that fill them. */
module Layout {
  import opened Types
  import opened Translation
  import opened Spec
  import opened Storage

  const BLOCK_SIZE: nat := 4096
  const GIB: nat := 1024 * 1024 * 1024
  const AVERAGE_FILE_SIZE: nat := 1024 * 1024
  const BUFFER_SIZE: nat := 1024 * 1024
  const TABLE_ENTRY: nat := 52

  function Wrap32(x: nat): nat {
    x % U32
  }

  /** createSuperblock: every assignment cuts to 32 bits. */
  function CreateSuperblock(storageBytes: nat): Geometry {
    var totalBlocks := Wrap32(storageBytes / BLOCK_SIZE);
    var maxFiles := Wrap32(storageBytes / AVERAGE_FILE_SIZE);
    var filetableBytes := Wrap32(maxFiles * TABLE_ENTRY);
    var filetableSize := filetableBytes / BLOCK_SIZE;
    var bitmapStart := Wrap32(1 + filetableSize);
    var bitmapSize := (totalBlocks / 8) / BLOCK_SIZE;
    Geometry(BLOCK_SIZE, totalBlocks, 1, filetableSize, bitmapStart, bitmapSize,
             Wrap32(bitmapStart + bitmapSize), maxFiles)
  }

  /** The layout of `n` GiB without wrap-around: 13 blocks of table and 8 of bitmap per GiB. */
  function ExactLayout(n: nat): Geometry {
    Geometry(BLOCK_SIZE, n * 0x4_0000, 1, n * 13, 1 + n * 13, n * 8, 1 + n * 21, n * 1024)
  }

  /** The layout is the exact one just below 16384 GiB. */
  lemma LayoutExactIff(n: nat)
    requires 1 <= n
    ensures CreateSuperblock(n * GIB) == ExactLayout(n) <==> n < 16384
  {
    assert n * GIB / BLOCK_SIZE == n * 0x4_0000;
    assert n * GIB / AVERAGE_FILE_SIZE == n * 1024;
    if n < 16384 {
      assert n * 1024 * TABLE_ENTRY / BLOCK_SIZE == n * 13;
      assert n * 0x4_0000 / 8 / BLOCK_SIZE == n * 8;
    } else {
      assert n * 0x4_0000 >= U32 > CreateSuperblock(n * GIB).totalBlocks;
    }
  }

  /** In the exact layout the superblock, table, bitmap and data regions follow one another
      without gap or overlap; the table holds exactly its entries, the bitmap a bit a block. */
  lemma LayoutTiles(n: nat)
    requires 1 <= n
    ensures var g := ExactLayout(n);
      && g.filetableStart == 1
      && g.bitmapStart == g.filetableStart + g.filetableSize
      && g.dataStart == g.bitmapStart + g.bitmapSize < g.totalBlocks
      && g.filetableSize * g.blockSize == g.maxFiles * TABLE_ENTRY
      && g.bitmapSize * g.blockSize * 8 == g.totalBlocks
      && g.totalBlocks * g.blockSize == n * GIB
  {
  }

  /** The block layer's conditions: loop counters hold up to 8191 GiB, 32-bit products only up
      to 4 GiB. */
  lemma LayoutUsable(n: nat)
    requires 1 <= n
    ensures ValidGeometry(ExactLayout(n)) <==> n < 8192
    ensures Addressable(ExactLayout(n)) <==> n <= 4
  {
  }

  // ---------------------------------------------------------------- formatting

  function Zeros(n: nat): (r: seq<byte>)
    ensures |r| == n && forall i | 0 <= i < n :: r[i] == 0
  {
    seq(n, _ => 0 as byte)
  }

  lemma ZeroMore(s: seq<byte>, at: nat, a: nat, b: nat)
    requires at + a + b <= |s|
    ensures Splice(Splice(s, at, Zeros(a)), at + a, Zeros(b)) == Splice(s, at, Zeros(a + b))
  {
    SpliceMore(s, at, Zeros(a), Zeros(b));
    assert Zeros(a) + Zeros(b) == Zeros(a + b);
  }

  /** writeFileTable: zero entries collected in a buffer that is flushed when it is full. */
  method WriteFileTable(file: StorageFile, g: Geometry)
    requires Mul32(g.filetableStart, g.blockSize) + TABLE_ENTRY * g.maxFiles <= |file.bytes|
    modifies file
    ensures file.bytes == Splice(old(file.bytes), Mul32(g.filetableStart, g.blockSize), Zeros(TABLE_ENTRY * g.maxFiles))
  {
    var start := Mul32(g.filetableStart, g.blockSize);
    ghost var before := file.bytes;
    var written: nat, buffer: seq<byte> := 0, [];
    assert Splice(before, start, Zeros(0)) == before;
    for i := 0 to g.maxFiles
      invariant written + |buffer| == TABLE_ENTRY * i && buffer == Zeros(|buffer|)
      invariant file.bytes == Splice(before, start, Zeros(written))
    {
      buffer := buffer + Zeros(TABLE_ENTRY);
      if |buffer| >= BUFFER_SIZE {
        ZeroMore(before, start, written, |buffer|);
        file.bytes := Splice(file.bytes, start + written, buffer);
        written, buffer := written + |buffer|, [];
      }
    }
    ZeroMore(before, start, written, |buffer|);
    file.bytes := Splice(file.bytes, start + written, buffer);
  }

  /** writeBlockBitmap: the region in pieces of one buffer, the last one shorter. */
  method WriteBlockBitmap(file: StorageFile, g: Geometry)
    requires Mul32(g.bitmapStart, g.blockSize) + Mul32(g.bitmapSize, g.blockSize) <= |file.bytes|
    modifies file
    ensures file.bytes == Splice(old(file.bytes), Mul32(g.bitmapStart, g.blockSize), Zeros(Mul32(g.bitmapSize, g.blockSize)))
  {
    var start, total := Mul32(g.bitmapStart, g.blockSize), Mul32(g.bitmapSize, g.blockSize);
    ghost var before := file.bytes;
    var remaining := total;
    assert Splice(before, start, Zeros(0)) == before;
    while remaining > 0
      invariant remaining <= total
      invariant file.bytes == Splice(before, start, Zeros(total - remaining))
    {
      var n := Min(BUFFER_SIZE, remaining);
      ZeroMore(before, start, total - remaining, n);
      file.bytes := Splice(file.bytes, start + (total - remaining), Zeros(n));
      remaining := remaining - n;
    }
  }
}
