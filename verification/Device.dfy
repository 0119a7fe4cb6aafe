/** An open basefs device (struct FSDeviceContext): its geometry, and the 32-byte write-back
    window over the block bitmap (kernel/fs/basefs/bitmap.c) stacked on the sector cache. Seen
    through both, the device is still one flat array of bytes. */
module Device {
  import opened Basics
  import opened Bits
  import opened SectorCache

  const FRAME: nat := 32                    // BITMAP_FRAME_SIZE
  const BITMAP_ADDRESS: nat := 16 + 32      // sizeof(FSDeviceHeader) + sizeof(FSPartitionBlock)

  /** b | (1 << k) */
  function WithBit(b: byte, k: nat): byte
    requires k < 8
  {
    Pow2Monotone(k, 7);
    OrBound(b, Pow2(k), 8);
    BitOr(b, Pow2(k))
  }

  /** b & ~(1 << k) */
  function WithoutBit(b: byte, k: nat): byte
    requires k < 8
  {
    AndNotBound(b, Pow2(k));
    BitAndNot(b, Pow2(k))
  }

  /** Block i is marked used in the bitmap of this device image. */
  predicate Used(image: seq<byte>, i: nat) {
    Bit(At(image, BITMAP_ADDRESS + i / 8), i % 8)
  }

  function MarkUsed(image: seq<byte>, i: nat): seq<byte> {
    var a := BITMAP_ADDRESS + i / 8;
    Put(image, a, WithBit(At(image, a), i % 8))
  }

  function MarkFree(image: seq<byte>, i: nat): seq<byte> {
    var a := BITMAP_ADDRESS + i / 8;
    Put(image, a, WithoutBit(At(image, a), i % 8))
  }

  /** Marking one block changes that block's bit and nothing else. */
  lemma MarkFacts(image: seq<byte>, i: nat, j: nat)
    requires BITMAP_ADDRESS + i / 8 < |image|
    ensures Used(MarkUsed(image, i), j) == (j == i || Used(image, j))
    ensures Used(MarkFree(image, i), j) == (j != i && Used(image, j))
    ensures forall a :: a != BITMAP_ADDRESS + i / 8 ==> At(MarkUsed(image, i), a) == At(image, a) && At(MarkFree(image, i), a) == At(image, a)
    ensures |MarkUsed(image, i)| == |image| == |MarkFree(image, i)|
  {
    var b := At(image, BITMAP_ADDRESS + i / 8);
    if j / 8 == i / 8 {
      OrBits(b, Pow2(i % 8), j % 8);
      AndNotBits(b, Pow2(i % 8), j % 8);
      BitOfPow2(i % 8, j % 8);
    }
  }

  function Blocks(poolSize: nat, sectorSize: nat): nat
    requires sectorSize > 0
  {
    poolSize / sectorSize
  }

  /** Blocks that hold n bytes. */
  function BlocksFor(n: nat, sectorSize: nat): nat
    requires sectorSize > 0
  {
    (n + sectorSize - 1) / sectorSize
  }

  function BitmapBytes(blockCount: nat): nat {
    (blockCount + 7) / 8
  }

  /** First byte of the bitmap frame that byte b lies in. */
  function FrameOf(b: nat): nat {
    b / FRAME * FRAME
  }

  lemma FrameOfFacts(b: nat)
    ensures FrameOf(b) <= b < FrameOf(b) + FRAME && FrameOf(b) % FRAME == 0
  {
  }

  class Device {
    const cache: SectorCache
    const frameBitmap: array<byte>
    const sectorSize: nat
    const poolSize: nat
    const blockCount: nat
    const bitmapSize: nat
    const reservedBlocks: nat
    var frameOffset: nat
    var frameDirty: bool

    ghost predicate Geometry()
      reads cache, cache.disk, cache.window
    {
      && cache.Valid()
      && sectorSize > 0 && poolSize < U32 && poolSize <= |cache.Flat()|
      && blockCount == Blocks(poolSize, sectorSize)
      && bitmapSize == BitmapBytes(blockCount)
      && reservedBlocks == BlocksFor(BITMAP_ADDRESS + bitmapSize, sectorSize)
      && BITMAP_ADDRESS + bitmapSize <= poolSize
      && frameBitmap.Length == FRAME && frameBitmap != cache.window
    }

    function FrameLength(): nat
      reads this`frameOffset
    {
      if frameOffset + FRAME > bitmapSize then (if bitmapSize >= frameOffset then bitmapSize - frameOffset else 0) else FRAME
    }

    /** A loaded window is a whole aligned frame of the bitmap, and if it is clean, as stored. */
    ghost predicate Valid()
      reads this, frameBitmap, cache, cache.disk, cache.window
    {
      && Geometry()
      && (frameOffset != NO_FRAME ==> frameOffset % FRAME == 0 && frameOffset < bitmapSize)
      && (frameOffset != NO_FRAME && !frameDirty ==>
            frameBitmap[..FrameLength()] == ReadRange(cache.Flat(), BITMAP_ADDRESS + frameOffset, FrameLength()))
      && (frameOffset == NO_FRAME ==> !frameDirty)
    }

    /** The device as seen through the bitmap window and the sector window. */
    ghost function Image(): (f: seq<byte>)
      requires Valid()
      reads this, frameBitmap, cache, cache.disk, cache.window
      ensures |f| == |cache.Flat()|
    {
      if frameOffset == NO_FRAME then cache.Flat()
      else WriteRange(cache.Flat(), BITMAP_ADDRESS + frameOffset, frameBitmap[..FrameLength()])
    }

    /** fs_device_open on a partition header that has been read and found good. */
    constructor (cache: SectorCache, frame: array<byte>, poolSize: nat, sectorSize: nat)
      requires cache.Valid() && frame.Length == FRAME && frame != cache.window
      requires 0 < sectorSize && poolSize < U32 && poolSize <= |cache.Flat()|
      requires BITMAP_ADDRESS + BitmapBytes(Blocks(poolSize, sectorSize)) <= poolSize
      ensures this.cache == cache && this.frameBitmap == frame && this.poolSize == poolSize && this.sectorSize == sectorSize
      ensures Valid() && Image() == cache.Flat()
    {
      hide Blocks, BlocksFor, BitmapBytes;
      this.cache, this.frameBitmap := cache, frame;
      this.sectorSize, this.poolSize := sectorSize, poolSize;
      this.blockCount := Blocks(poolSize, sectorSize);
      this.bitmapSize := BitmapBytes(Blocks(poolSize, sectorSize));
      this.reservedBlocks := BlocksFor(BITMAP_ADDRESS + BitmapBytes(Blocks(poolSize, sectorSize)), sectorSize);
      frameOffset, frameDirty := NO_FRAME, false;
    }

    /** fs_bitmap_flush: afterwards the flat array under the window is the image. */
    method BitmapFlush()
      requires Valid()
      modifies this, cache, cache.disk, cache.window
      ensures Valid() && !frameDirty && frameOffset == old(frameOffset)
      ensures Image() == old(Image()) && cache.Flat() == Image()
    {
      FrameFits();
      hide WriteRange, ReadRange;
      ghost var f, n := cache.Flat(), FrameLength();
      if frameDirty && frameOffset != NO_FRAME {
        var writeSize := FRAME;
        if frameOffset + writeSize > bitmapSize {
          writeSize := bitmapSize - frameOffset;
        }
        assert writeSize == n;
        hide FrameLength;
        cache.MemWrite(BITMAP_ADDRESS + frameOffset, frameBitmap[..writeSize]);
        frameDirty := false;
        ReadBack(f, BITMAP_ADDRESS + frameOffset, frameBitmap[..n]);
      }
      CleanImage();
    }

    /** With a clean window there is nothing between the image and the sector cache. */
    lemma CleanImage()
      requires Valid() && !frameDirty
      ensures Image() == cache.Flat()
    {
      hide WriteRange, ReadRange, FrameLength;
      if frameOffset != NO_FRAME { WriteBack(cache.Flat(), BITMAP_ADDRESS + frameOffset, FrameLength()); }
    }

    /** fs_bitmap_sync: load the frame holding this bit, writing the old one back first. */
    method BitmapSync(bitIndex: nat)
      requires Valid() && bitIndex / 8 < bitmapSize
      modifies this, frameBitmap, cache, cache.disk, cache.window
      ensures Valid() && Image() == old(Image())
      ensures frameOffset == FrameOf(bitIndex / 8)
    {
      FrameOfFacts(bitIndex / 8);
      hide Geometry, FrameOf, WriteRange, ReadRange, FrameLength;
      var windowStart := FrameOf(bitIndex / 8);
      if frameOffset != windowStart {
        BitmapFlush();
        LoadFrame(windowStart);
      }
    }

    method LoadFrame(windowStart: nat)
      requires Valid() && !frameDirty && windowStart % FRAME == 0 && windowStart < bitmapSize
      modifies this, frameBitmap, cache, cache.disk, cache.window
      ensures Valid() && Image() == old(Image()) && frameOffset == windowStart
    {
      CleanImage();
      frameOffset := windowStart;
      var readSize := FRAME;
      if frameOffset + readSize > bitmapSize {
        readSize := bitmapSize - frameOffset;
      }
      var data := cache.MemRead(BITMAP_ADDRESS + frameOffset, readSize);
      forall i | 0 <= i < readSize { frameBitmap[i] := data[i]; }
      assert frameBitmap[..readSize] == data;
      frameDirty := false;
      CleanImage();
    }

    /** fs_bitmap_get */
    method BitmapGet(index: nat) returns (used: bool)
      requires Valid() && index / 8 < bitmapSize
      modifies this, frameBitmap, cache, cache.disk, cache.window
      ensures Valid() && Image() == old(Image())
      ensures used == Used(Image(), index)
    {
      hide WriteRange, ReadRange, FrameLength, FrameOf, Geometry;
      BitmapSync(index);
      var localByte := index / 8 - frameOffset;
      InFrame(index / 8);
      AndPow2(frameBitmap[localByte], index % 8);
      used := BitAnd(frameBitmap[localByte], Pow2(index % 8)) != 0;
    }

    /** The byte of the window that stands for byte b of the bitmap. */
    lemma InFrame(b: nat)
      requires Valid() && b < bitmapSize && frameOffset == FrameOf(b)
      ensures frameOffset <= b && b - frameOffset < FrameLength() <= FRAME == frameBitmap.Length && BITMAP_ADDRESS + b < |Image()|
      ensures At(Image(), BITMAP_ADDRESS + b) == frameBitmap[b - frameOffset]
    {
      FrameOfFacts(b);
      FrameFits();
      FrameCovers(b);
      hide WriteRange, ReadRange, FrameLength, FrameOf, At;
      AtOfWrite(cache.Flat(), BITMAP_ADDRESS + frameOffset, frameBitmap[..FrameLength()], BITMAP_ADDRESS + b);
    }

    lemma FrameCovers(b: nat)
      requires Valid() && frameOffset <= b < bitmapSize && b < frameOffset + FRAME
      ensures frameOffset != NO_FRAME && b - frameOffset < FrameLength() <= FRAME == frameBitmap.Length
    {
      hide WriteRange, ReadRange, FrameOf;
    }

    /** fs_bitmap_set */
    method BitmapSet(index: nat)
      requires Valid() && index / 8 < bitmapSize
      modifies this, frameBitmap, cache, cache.disk, cache.window
      ensures Valid() && Image() == MarkUsed(old(Image()), index)
    {
      hide WriteRange, ReadRange, FrameLength, FrameOf, Geometry;
      BitmapSync(index);
      var localByte := index / 8 - frameOffset;
      InFrame(index / 8);
      var b := frameBitmap[localByte];
      AndPow2(b, index % 8);
      if BitAnd(b, Pow2(index % 8)) == 0 {
        StoreInFrame(index, WithBit(b, index % 8));
      } else {
        SetAgain(b, index % 8);
      }
    }

    /** fs_bitmap_clear */
    method BitmapClear(index: nat)
      requires Valid() && index / 8 < bitmapSize
      modifies this, frameBitmap, cache, cache.disk, cache.window
      ensures Valid() && Image() == MarkFree(old(Image()), index)
    {
      hide WriteRange, ReadRange, FrameLength, FrameOf, Geometry;
      BitmapSync(index);
      var localByte := index / 8 - frameOffset;
      InFrame(index / 8);
      var b := frameBitmap[localByte];
      AndPow2(b, index % 8);
      if BitAnd(b, Pow2(index % 8)) != 0 {
        StoreInFrame(index, WithoutBit(b, index % 8));
      } else {
        ClearAgain(b, index % 8);
      }
    }

    method StoreInFrame(index: nat, b: byte)
      requires Valid() && index / 8 < bitmapSize && frameOffset == FrameOf(index / 8)
      modifies this`frameDirty, frameBitmap
      ensures Valid() && Image() == Put(old(Image()), BITMAP_ADDRESS + index / 8, b)
    {
      InFrame(index / 8);
      FrameFits();
      ghost var f, n, at := cache.Flat(), FrameLength(), index / 8 - frameOffset;
      ghost var was := frameBitmap[..n];
      hide WriteRange, ReadRange, FrameLength, FrameOf;
      frameBitmap[index / 8 - frameOffset] := b;
      frameDirty := true;
      assert frameBitmap[..n] == was[at := b];
      PutInWrite(f, BITMAP_ADDRESS + frameOffset, was, at, b);
    }

    /** The bytes that hold the block bitmap are not in this range. */
    predicate ClearOfBitmap(address: nat, size: nat) {
      address + size <= BITMAP_ADDRESS || BITMAP_ADDRESS + bitmapSize <= address
    }

    /** fs_mem_read anywhere but in the bitmap. */
    method Read(address: nat, size: nat) returns (data: seq<byte>)
      requires Valid() && address + size <= U32 && ClearOfBitmap(address, size)
      modifies cache, cache.disk, cache.window
      ensures Valid() && Image() == old(Image())
      ensures data == ReadRange(Image(), address, size)
    {
      hide WriteRange, ReadRange, FrameLength;
      SeenThroughWindow(address, size);
      ghost var f := cache.Flat();
      data := cache.MemRead(address, size);
      assert cache.Flat() == f;
    }

    lemma FrameFits()
      requires Valid()
      ensures frameOffset != NO_FRAME ==> frameOffset + FrameLength() <= bitmapSize && BITMAP_ADDRESS + frameOffset + FrameLength() <= |cache.Flat()|
      ensures frameOffset != NO_FRAME ==> FrameLength() <= frameBitmap.Length
    {
    }

    lemma SeenThroughWindow(address: nat, size: nat)
      requires Valid() && ClearOfBitmap(address, size)
      ensures ReadRange(Image(), address, size) == ReadRange(cache.Flat(), address, size)
    {
      FrameFits();
      hide WriteRange, ReadRange, FrameLength;
      if frameOffset != NO_FRAME {
        ReadAfterWrite(cache.Flat(), BITMAP_ADDRESS + frameOffset, frameBitmap[..FrameLength()], address, size);
      }
    }

    /** fs_mem_write anywhere but in the bitmap. */
    method Write(address: nat, data: seq<byte>)
      requires Valid() && address + |data| <= U32 && ClearOfBitmap(address, |data|)
      modifies cache, cache.disk, cache.window
      ensures Valid() && Image() == WriteRange(old(Image()), address, data)
    {
      FrameFits();
      hide WriteRange, ReadRange, FrameLength;
      ghost var f := cache.Flat();
      ghost var n := FrameLength();
      cache.MemWrite(address, data);
      if frameOffset != NO_FRAME {
        WritesCommute(f, address, data, BITMAP_ADDRESS + frameOffset, frameBitmap[..n]);
        ReadAside(f, address, data, BITMAP_ADDRESS + frameOffset, n);
      }
    }

    /** fs_device_sync: bitmap window first, then the sector. Afterwards nothing is pending and the
        disk is the image. */
    method DeviceSync()
      requires Valid()
      modifies this, cache, cache.disk, cache.window
      ensures Valid() && !frameDirty && !cache.dirty
      ensures Image() == old(Image()) && Flatten(cache.disk.sectors) == Image()
    {
      hide WriteRange, ReadRange, FrameLength;
      BitmapFlush();
      cache.Sync();
    }
  }

  lemma ReadBack(f: seq<byte>, a: nat, data: seq<byte>)
    requires a + |data| <= |f|
    ensures ReadRange(WriteRange(f, a, data), a, |data|) == data
  {
    forall i | 0 <= i < |data| ensures ReadRange(WriteRange(f, a, data), a, |data|)[i] == data[i] {
      assert At(WriteRange(f, a, data), a + i) == data[i];
    }
  }

  lemma PutInWrite(f: seq<byte>, a: nat, data: seq<byte>, k: nat, b: byte)
    requires k < |data| && a + k < |f|
    ensures WriteRange(f, a, data[k := b]) == Put(WriteRange(f, a, data), a + k, b)
  {
  }

  /** Setting a set bit, or clearing a clear one, gives the same byte; the code skips the store. */
  lemma {:induction false} SetAgain(b: nat, k: nat)
    requires Bit(b, k)
    ensures BitOr(b, Pow2(k)) == b
    decreases k
  {
    if k == 0 { OrWithNothing(b / 2); }
    else if b == 0 { BitOfZero(k); }
    else {
      SetAgain(b / 2, k - 1);
      OrStep(b, k);
    }
  }

  lemma OrStep(b: nat, k: nat)
    requires k > 0
    ensures BitOr(b, Pow2(k)) == b % 2 + 2 * BitOr(b / 2, Pow2(k - 1))
  {
    assert Pow2(k) == 2 * Pow2(k - 1);
  }

  lemma AndNotStep(b: nat, k: nat)
    requires k > 0
    ensures BitAndNot(b, Pow2(k)) == b % 2 + 2 * BitAndNot(b / 2, Pow2(k - 1))
  {
    assert Pow2(k) == 2 * Pow2(k - 1);
  }

  lemma {:induction false} ClearAgain(b: nat, k: nat)
    requires !Bit(b, k)
    ensures BitAndNot(b, Pow2(k)) == b
    decreases k
  {
    if k == 0 { AndNotNothing(b / 2); }
    else if b != 0 {
      ClearAgain(b / 2, k - 1);
      AndNotStep(b, k);
      hide BitAndNot;
    }
  }

  lemma {:induction false} AndNotNothing(b: nat)
    ensures BitAndNot(b, 0) == b
  {
    if b != 0 { AndNotNothing(b / 2); }
  }
}
