/** fs_device_open and fs_device_format (kernel/fs/basefs/device.c:4-35, 145-175): a formatted disk
    opens with the geometry it was formatted with and holds no allocations. */
module Format {
  import opened Basics
  import opened Bits
  import opened SectorCache
  import opened Device
  import opened AllocationMap
  import opened Allocator

  const FS_MAGIC: byte := 0xAA
  const PARTITION: nat := 16           // sizeof(FSDeviceHeader)
  const PARTITION_SIZE: nat := 32      // sizeof(FSPartitionBlock), magic last

  /** The device header: id 0x13, name "fs". */
  function DeviceHeaderBytes(): (d: seq<byte>)
    ensures |d| == PARTITION
  {
    [0x13, 0x66, 0x73, 0, 0, 0, 0, 0, 0, 0, 0, 0, 0, 0, 0, 0]
  }

  /** The partition block: sizes, no root directory yet, name "storage". */
  function PartitionBytes(capacity: nat, sectorSize: nat): (d: seq<byte>)
    requires capacity < U32 && sectorSize < U32
    ensures |d| == PARTITION_SIZE
  {
    Encode(capacity) + Encode(sectorSize) + Encode(0)
      + [0x73, 0x74, 0x6F, 0x72, 0x61, 0x67, 0x65, 0, 0, 0, 0, 0, 0, 0, 0, 0]
      + [0, 0, 0, FS_MAGIC]
  }

  function Magic(f: seq<byte>): byte { At(f, PARTITION + PARTITION_SIZE - 1) }

  function TotalSize(f: seq<byte>): nat { U32At(f, PARTITION) }

  function SectorSizeOf(f: seq<byte>): nat { U32At(f, PARTITION + 4) }

  /** What becomes of fs_device_open: it divides by a stored sector size of zero, refuses a device
      without the magic byte, or computes a geometry from the stored sizes. */
  datatype Opening =
    | DivideError
    | Refused
    | Opened(poolSize: nat, sectorSize: nat, blockCount: nat, bitmapSize: nat, reservedBlocks: nat)

  /** The disk says it is formatted, with sectors of no bytes. */
  predicate Traps(f: seq<byte>) {
    Magic(f) == FS_MAGIC && SectorSizeOf(f) == 0
  }

  /** The geometry of a device of this size. */
  function ExactGeometry(poolSize: nat, sectorSize: nat): Opening
    requires sectorSize > 0
  {
    var blocks := Blocks(poolSize, sectorSize);
    Opened(poolSize, sectorSize, blocks, BitmapBytes(blocks), BlocksFor(BITMAP_ADDRESS + BitmapBytes(blocks), sectorSize))
  }

  /** No sum in computing the geometry exceeds 32 bits. */
  predicate SumsFit(poolSize: nat, sectorSize: nat)
    requires sectorSize > 0
  {
    && Blocks(poolSize, sectorSize) + 7 < U32
    && BITMAP_ADDRESS + BitmapBytes(Blocks(poolSize, sectorSize)) + sectorSize - 1 < U32
  }

  /** The geometry as computed in 32-bit words. */
  function WordGeometry(poolSize: nat, sectorSize: nat): Opening
    requires sectorSize > 0
  {
    var blocks := Blocks(poolSize, sectorSize);
    var bitmap := (blocks + 7) % U32 / 8;
    var meta := (BITMAP_ADDRESS + bitmap) % U32;
    Opened(poolSize, sectorSize, blocks, bitmap, Blocks((meta + sectorSize - 1) % U32, sectorSize))
  }

  /** It is right if and only if none of its sums wraps. */
  lemma GeometryIsExact(poolSize: nat, sectorSize: nat)
    requires poolSize < U32 && 0 < sectorSize < U32
    ensures WordGeometry(poolSize, sectorSize) == ExactGeometry(poolSize, sectorSize) <==> SumsFit(poolSize, sectorSize)
  {
    var blocks := Blocks(poolSize, sectorSize);
    BlocksAtMost(poolSize, sectorSize);
    BitmapWord(blocks);
    hide Blocks, BlocksFor, BitmapBytes;
    if blocks + 7 < U32 {
      BlocksForIs(BITMAP_ADDRESS + BitmapBytes(blocks), sectorSize);
      ReservedWord(BITMAP_ADDRESS + BitmapBytes(blocks), sectorSize);
    }
  }

  lemma BitmapWord(blocks: nat)
    requires blocks < U32
    ensures (blocks + 7) % U32 / 8 == BitmapBytes(blocks) <==> blocks + 7 < U32
    ensures BITMAP_ADDRESS + BitmapBytes(blocks) < U32
  {
  }

  lemma ReservedWord(meta: nat, sectorSize: nat)
    requires meta < U32 && 0 < sectorSize < U32
    ensures Blocks((meta % U32 + sectorSize - 1) % U32, sectorSize) == Blocks(meta + sectorSize - 1, sectorSize) <==> meta + sectorSize - 1 < U32
  {
    hide Blocks;
    if meta + sectorSize - 1 >= U32 { BlocksWrapped(meta + sectorSize - 1, sectorSize); }
  }

  lemma GeometrySizes(poolSize: nat, sectorSize: nat)
    requires sectorSize > 0
    ensures var r := WordGeometry(poolSize, sectorSize); r.Opened? && r.poolSize == poolSize && r.sectorSize == sectorSize
  {
    hide Blocks;
  }

  lemma BlocksAtMost(n: nat, d: nat)
    requires d > 0
    ensures Blocks(n, d) <= n
  {
    var q := n / d;
    assert n == q * d + n % d;
    MulLe(1, d, q);
  }

  lemma BlocksForIs(n: nat, d: nat)
    requires d > 0
    ensures BlocksFor(n, d) == Blocks(n + d - 1, d)
  {
  }

  lemma BlocksWrapped(n: nat, d: nat)
    requires 0 < d < U32 <= n < 2 * U32
    ensures Blocks(n % U32, d) < Blocks(n, d)
  {
    assert n % U32 == n - U32;
    ShorterByAWrap(n, n - U32, d);
  }

  /** fs_device_open, on any disk. */
  method FsDeviceOpen(disk: Disk, window: array<byte>) returns (cache: SectorCache, r: Opening)
    requires disk.Valid() && window.Length == SECTOR
    modifies disk, window
    ensures disk.sectors == old(disk.sectors)
    ensures fresh(cache) && cache.disk == disk && cache.window == window && cache.Valid() && cache.Flat() == Flatten(disk.sectors)
    ensures r.Refused? <==> Magic(Flatten(disk.sectors)) != FS_MAGIC
    ensures r.DivideError? <==> Traps(Flatten(disk.sectors))
    ensures r.Opened? ==> var f := Flatten(disk.sectors); SectorSizeOf(f) > 0 && r == WordGeometry(TotalSize(f), SectorSizeOf(f))
  {
    ghost var f := Flatten(disk.sectors);
    cache := new SectorCache(disk, window);
    var data := cache.MemRead(PARTITION, PARTITION_SIZE);
    ReadPartition(f, data);
    if data[PARTITION_SIZE - 1] != FS_MAGIC { return cache, Refused; }
    var sectorSize, poolSize := U32At(data, 4), U32At(data, 0);
    if sectorSize == 0 { return cache, DivideError; }
    hide Blocks;
    var blockCount := Blocks(poolSize, sectorSize);
    var bitmapSize := (blockCount + 7) % U32 / 8;
    var metaSize := (BITMAP_ADDRESS + bitmapSize) % U32;
    var reservedBlocks := Blocks((metaSize + sectorSize - 1) % U32, sectorSize);
    return cache, Opened(poolSize, sectorSize, blockCount, bitmapSize, reservedBlocks);
  }

  /** The device a stored geometry describes lies inside the disk. */
  ghost predicate Fits(f: seq<byte>) {
    && Magic(f) == FS_MAGIC && SectorSizeOf(f) > 0 && TotalSize(f) <= |f| && SumsFit(TotalSize(f), SectorSizeOf(f))
    && BITMAP_ADDRESS + BitmapBytes(Blocks(TotalSize(f), SectorSizeOf(f))) <= TotalSize(f)
  }

  /** An open context with the bitmap window that is part of it. */
  method Attach(cache: SectorCache, frame: array<byte>, r: Opening) returns (d: Device)
    requires cache.Valid() && frame.Length == FRAME && frame != cache.window && Fits(cache.Flat())
    requires r == WordGeometry(TotalSize(cache.Flat()), SectorSizeOf(cache.Flat()))
    ensures fresh(d) && d.cache == cache && d.frameBitmap == frame && d.Valid() && d.Image() == cache.Flat()
    ensures r == Opened(d.poolSize, d.sectorSize, d.blockCount, d.bitmapSize, d.reservedBlocks)
  {
    WordAt(cache.Flat(), PARTITION);
    WordAt(cache.Flat(), PARTITION + 4);
    GeometryIsExact(r.poolSize, r.sectorSize);
    d := new Device(cache, frame, r.poolSize, r.sectorSize);
  }

  lemma WordAt(f: seq<byte>, a: nat)
    ensures U32At(f, a) < U32
  {
  }

  lemma ReadPartition(f: seq<byte>, data: seq<byte>)
    requires data == ReadRange(f, PARTITION, PARTITION_SIZE)
    ensures data[PARTITION_SIZE - 1] == Magic(f) && U32At(data, 0) == TotalSize(f) && U32At(data, 4) == SectorSizeOf(f)
  {
  }

  // ---------------------------------------------------------------- format

  /** The flat image once format has written its headers and cleared the bitmap. */
  function Cleared(f: seq<byte>, capacity: nat, sectorSize: nat): seq<byte>
    requires capacity < U32 && 0 < sectorSize < U32
  {
    WriteRange(WriteRange(WriteRange(f, 0, DeviceHeaderBytes()), PARTITION, PartitionBytes(capacity, sectorSize)),
               BITMAP_ADDRESS, Zeros(BitmapBytes(Blocks(capacity, sectorSize))))
  }

  function FormatLayout(capacity: nat, sectorSize: nat): Layout
    requires sectorSize > 0
  {
    var blocks := Blocks(capacity, sectorSize);
    Layout(sectorSize, blocks, BlocksFor(BITMAP_ADDRESS + BitmapBytes(blocks), sectorSize))
  }

  /** Writes the headers and an empty bitmap, and makes sure they are on the disk. */
  method WriteHeaders(cache: SectorCache, capacity: nat, sectorSize: nat)
    requires cache.Valid()
    requires capacity < U32 && 0 < sectorSize < U32 && BITMAP_ADDRESS + BitmapBytes(Blocks(capacity, sectorSize)) < U32
    modifies cache, cache.disk, cache.window
    ensures cache.disk.Valid() && Flatten(cache.disk.sectors) == Cleared(old(cache.Flat()), capacity, sectorSize)
  {
    cache.MemWrite(0, DeviceHeaderBytes());
    cache.MemWrite(PARTITION, PartitionBytes(capacity, sectorSize));
    ghost var h := cache.Flat();
    var size := BitmapBytes(Blocks(capacity, sectorSize));
    assert WriteRange(h, BITMAP_ADDRESS, Zeros(0)) == h;
    for i := 0 to size
      invariant cache.Valid()
      invariant cache.Flat() == WriteRange(h, BITMAP_ADDRESS, Zeros(i))
    {
      assert Zeros(i + 1) == Zeros(i) + [0];
      WriteRangeStep(h, BITMAP_ADDRESS, Zeros(i), 0);
      cache.WriteByte(BITMAP_ADDRESS + i, 0);
    }
    cache.Sync();
  }

  lemma PartitionWord(p: seq<byte>, a: nat, d: seq<byte>)
    requires |d| == 4 && a + 4 <= |p| && p[a..a + 4] == d
    ensures U32At(p, a) == Decode(d)
  {
    assert p[a] == p[a..a + 4][0] && p[a + 1] == p[a..a + 4][1] && p[a + 2] == p[a..a + 4][2] && p[a + 3] == p[a..a + 4][3];
  }

  predicate ZeroBytes(h: seq<byte>, from: nat, n: nat) {
    forall a: nat :: from <= a < from + n ==> At(h, a) == 0
  }

  lemma ClearedPartition(f: seq<byte>, capacity: nat, sectorSize: nat, k: nat)
    requires capacity < U32 && 0 < sectorSize < U32 && BITMAP_ADDRESS <= |f| && k < PARTITION_SIZE
    ensures At(Cleared(f, capacity, sectorSize), PARTITION + k) == PartitionBytes(capacity, sectorSize)[k]
  {
    hide PartitionBytes, WriteRange, DeviceHeaderBytes, Zeros, BitmapBytes, Blocks;
    var f1 := WriteRange(f, 0, DeviceHeaderBytes());
    var f2 := WriteRange(f1, PARTITION, PartitionBytes(capacity, sectorSize));
    AtOfWrite(f2, BITMAP_ADDRESS, Zeros(BitmapBytes(Blocks(capacity, sectorSize))), PARTITION + k);
    AtOfWrite(f1, PARTITION, PartitionBytes(capacity, sectorSize), PARTITION + k);
  }

  lemma ClearedBitmap(f: seq<byte>, capacity: nat, sectorSize: nat)
    requires capacity < U32 && 0 < sectorSize < U32
    ensures ZeroBytes(Cleared(f, capacity, sectorSize), BITMAP_ADDRESS, BitmapBytes(Blocks(capacity, sectorSize)))
  {
    hide WriteRange, PartitionBytes, DeviceHeaderBytes, BitmapBytes, Blocks;
    var n := BitmapBytes(Blocks(capacity, sectorSize));
    var g := WriteRange(WriteRange(f, 0, DeviceHeaderBytes()), PARTITION, PartitionBytes(capacity, sectorSize));
    forall a: nat | BITMAP_ADDRESS <= a < BITMAP_ADDRESS + n ensures At(Cleared(f, capacity, sectorSize), a) == 0 {
      AtOfWrite(g, BITMAP_ADDRESS, Zeros(n), a);
    }
  }

  /** A name in a field of this many bytes, padded with zeros. */
  predicate TextAt(h: seq<byte>, a: nat, name: string, room: nat) {
    forall x: nat :: a <= x < a + room ==> At(h, x) == if x - a < |name| then name[x - a] as int else 0
  }

  /** The two headers of this image are those format writes: device id and name; sizes, no root
      directory yet, name and magic byte. */
  predicate HasHeader(h: seq<byte>, capacity: nat, sectorSize: nat) {
    && At(h, 0) == 0x13 && TextAt(h, 1, "fs", 15)
    && TotalSize(h) == capacity && SectorSizeOf(h) == sectorSize && U32At(h, 24) == 0
    && TextAt(h, 28, "storage", 19) && At(h, 47) == 0xAA
  }

  lemma ClearedDevice(f: seq<byte>, capacity: nat, sectorSize: nat, k: nat)
    requires capacity < U32 && 0 < sectorSize < U32 && BITMAP_ADDRESS <= |f| && k < PARTITION
    ensures At(Cleared(f, capacity, sectorSize), k) == DeviceHeaderBytes()[k]
  {
    hide PartitionBytes, WriteRange, DeviceHeaderBytes, Zeros, BitmapBytes, Blocks;
    var f1 := WriteRange(f, 0, DeviceHeaderBytes());
    var f2 := WriteRange(f1, PARTITION, PartitionBytes(capacity, sectorSize));
    AtOfWrite(f2, BITMAP_ADDRESS, Zeros(BitmapBytes(Blocks(capacity, sectorSize))), k);
    AtOfWrite(f1, PARTITION, PartitionBytes(capacity, sectorSize), k);
    AtOfWrite(f, 0, DeviceHeaderBytes(), k);
  }

  /** What format writes is such a header. */
  lemma WrittenHeader(capacity: nat, sectorSize: nat)
    requires capacity < U32 && sectorSize < U32
    ensures HasHeader(DeviceHeaderBytes() + PartitionBytes(capacity, sectorSize), capacity, sectorSize)
  {
    var b := DeviceHeaderBytes() + PartitionBytes(capacity, sectorSize);
    DecodeOfEncode(capacity);
    DecodeOfEncode(sectorSize);
    assert Encode(0) == [0, 0, 0, 0];
    hide Encode, U32At;
    PartitionWord(b, 16, Encode(capacity));
    PartitionWord(b, 20, Encode(sectorSize));
    PartitionWord(b, 24, Encode(0));
  }

  /** The header is in the first 48 bytes. */
  lemma SameHeader(b: seq<byte>, h: seq<byte>, capacity: nat, sectorSize: nat)
    requires HasHeader(b, capacity, sectorSize) && forall x: nat :: x < BITMAP_ADDRESS ==> At(h, x) == At(b, x)
    ensures HasHeader(h, capacity, sectorSize) && Magic(h) == FS_MAGIC
  {
    hide At;
  }

  lemma ClearedHeader(f: seq<byte>, capacity: nat, sectorSize: nat)
    requires capacity < U32 && 0 < sectorSize < U32 && BITMAP_ADDRESS <= |f|
    ensures var h := Cleared(f, capacity, sectorSize); HasHeader(h, capacity, sectorSize) && Magic(h) == FS_MAGIC
  {
    var d, p, h := DeviceHeaderBytes(), PartitionBytes(capacity, sectorSize), Cleared(f, capacity, sectorSize);
    WrittenHeader(capacity, sectorSize);
    hide Cleared, PartitionBytes, DeviceHeaderBytes, HasHeader;
    forall x: nat | x < BITMAP_ADDRESS ensures At(h, x) == At(d + p, x) {
      if x < PARTITION { ClearedDevice(f, capacity, sectorSize, x); } else { ClearedPartition(f, capacity, sectorSize, x - PARTITION); }
    }
    SameHeader(d + p, h, capacity, sectorSize);
  }

  /** A device that format can lay out. */
  ghost predicate Formattable(size: nat, capacity: nat, sectorSize: nat) {
    && 0 < sectorSize < U32 && capacity < FS_NULL && capacity <= size && SumsFit(capacity, sectorSize)
    && WellFormed(FormatLayout(capacity, sectorSize))
    && BITMAP_ADDRESS + BitmapBytes(Blocks(capacity, sectorSize)) <= capacity
  }

  /** fs_device_format. It opens the disk as it finds it first, and gets no further, having changed
      nothing, exactly if that divides by zero. Otherwise the formatted disk opens again, with the given
      geometry, and holds the reserved blocks and nothing else; everything is on the disk when it
      returns. */
  method FsDeviceFormat(disk: Disk, window: array<byte>, frame: array<byte>, capacity: nat,
      sectorSize: nat) returns (r: Option<Device>)
    requires disk.Valid() && window.Length == SECTOR && frame.Length == FRAME && frame != window
    requires Formattable(|Flatten(disk.sectors)|, capacity, sectorSize)
    modifies disk, window, frame
    ensures disk.Valid()
    ensures r.None? <==> Traps(old(Flatten(disk.sectors)))
    ensures r.None? ==> disk.sectors == old(disk.sectors)
    ensures r.Some? ==>
              var d := r.value;
              && fresh(d) && d.cache.disk == disk && Ready(d, map[]) && LayoutOf(d) == FormatLayout(capacity, sectorSize)
              && Flatten(disk.sectors) == d.Image() && HasHeader(d.Image(), capacity, sectorSize)
  {
    hide Blocks, BlocksFor, BitmapBytes, Magic, TotalSize, SectorSizeOf, WordGeometry, Cleared, U32At, WellFormed, Allocated, Device.Valid, Flatten;
    ghost var f := Flatten(disk.sectors);
    Prepare(f, capacity, sectorSize);
    var cache, first := FsDeviceOpen(disk, window);
    if first.DivideError? { return None; }
    WriteHeaders(cache, capacity, sectorSize);
    var again, second := FsDeviceOpen(disk, window);
    GeometrySizes(capacity, sectorSize);
    var d := Attach(again, frame, second);
    FinishFormat(d, f, capacity, sectorSize);
    return Some(d);
  }

  /** A disk that says it is formatted but has no sector size cannot be formatted. */
  lemma TrappingDisk()
    ensures exists s: seq<seq<byte>> :: |s| == 1 && |s[0]| == SECTOR && Traps(Flatten(s))
  {
    var sector := Zeros(47) + [FS_MAGIC] + Zeros(464);
    var s: seq<seq<byte>> := [sector];
    assert |s[0]| == SECTOR;
    assert Flatten(s) == sector;
  }

  lemma Prepare(f: seq<byte>, capacity: nat, sectorSize: nat)
    requires Formattable(|f|, capacity, sectorSize)
    ensures var h := Cleared(f, capacity, sectorSize);
            HasHeader(h, capacity, sectorSize) && Fits(h) && !Traps(h) && Magic(h) == FS_MAGIC
  {
    ClearedHeader(f, capacity, sectorSize);
  }

  method FinishFormat(d: Device, ghost f: seq<byte>, capacity: nat, sectorSize: nat)
    requires Formattable(|f|, capacity, sectorSize)
    requires d.Valid() && d.poolSize == capacity && d.sectorSize == sectorSize && d.Image() == Cleared(f, capacity, sectorSize)
    modifies d, d.frameBitmap, d.cache, d.cache.disk, d.cache.window
    ensures Ready(d, map[]) && LayoutOf(d) == FormatLayout(capacity, sectorSize)
    ensures d.cache.disk.Valid() && Flatten(d.cache.disk.sectors) == d.Image()
    ensures HasHeader(d.Image(), capacity, sectorSize)
  {
    GeometryIs(d, capacity, sectorSize);
    MarkBlocks(d, 0, d.reservedBlocks);
    d.DeviceSync();
    FormattedFacts(d, f, capacity, sectorSize);
  }

  lemma GeometryIs(d: Device, capacity: nat, sectorSize: nat)
    requires d.Valid() && d.poolSize == capacity && d.sectorSize == sectorSize && 0 < sectorSize
    requires WellFormed(FormatLayout(capacity, sectorSize))
    ensures LayoutOf(d) == FormatLayout(capacity, sectorSize) && d.reservedBlocks <= d.blockCount
  {
  }

  lemma FormattedBits(f: seq<byte>, g: Layout)
    requires WellFormed(g) && BlockAddress(g, g.blockCount) <= |f| && ZeroBytes(f, BITMAP_ADDRESS, BitmapBytes(g.blockCount))
    ensures Allocated(MarkRun(f, 0, g.reserved), g, map[])
  {
    MarkBeyond(f, g, 0, g.reserved);
    forall i | 0 <= i < g.blockCount ensures Used(MarkRun(f, 0, g.reserved), i) <==> i < g.reserved {
      MarkRunFacts(f, 0, g.reserved, i);
      BlockInBitmap(g, i);
      BitOfZero(i % 8);
    }
  }

  lemma FormattedFacts(d: Device, f: seq<byte>, capacity: nat, sectorSize: nat)
    requires Formattable(|f|, capacity, sectorSize)
    requires d.Valid() && LayoutOf(d) == FormatLayout(capacity, sectorSize)
    requires d.Image() == MarkRun(Cleared(f, capacity, sectorSize), 0, d.reservedBlocks)
    ensures Ready(d, map[]) && HasHeader(d.Image(), capacity, sectorSize)
  {
    var h, g := Cleared(f, capacity, sectorSize), LayoutOf(d);
    ClearedBitmap(f, capacity, sectorSize);
    ClearedHeader(f, capacity, sectorSize);
    hide HasHeader;
    CapacityCovers(g, capacity);
    FormattedBits(h, g);
    MarkBeyond(h, g, 0, g.reserved);
    MarkRunFacts(h, 0, g.reserved, 0);
    SameHeader(h, MarkRun(h, 0, g.reserved), capacity, sectorSize);
    hide Cleared, MarkRun, Device.Valid, Allocated, WellFormed;
  }

  lemma CapacityCovers(g: Layout, capacity: nat)
    requires g.sectorSize > 0 && g.blockCount == Blocks(capacity, g.sectorSize)
    ensures BlockAddress(g, g.blockCount) <= capacity
  {
    assert capacity == capacity / g.sectorSize * g.sectorSize + capacity % g.sectorSize;
  }
}
