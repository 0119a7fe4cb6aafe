/** The first-fit block allocator of kernel/fs/basefs/device.c over the cached device: every
    bitmap bit and header word goes through the bitmap window and the sector cache. */
module Allocator {
  import opened Basics
  import opened Bits
  import opened SectorCache
  import opened Device
  import opened AllocationMap

  ghost predicate Ready(d: Device, live: Allocations)
    reads d, d.frameBitmap, d.cache, d.cache.disk, d.cache.window
  {
    d.Valid() && Allocated(d.Image(), LayoutOf(d), live)
  }

  function LayoutOf(d: Device): Layout {
    Layout(d.sectorSize, d.blockCount, d.reservedBlocks)
  }

  /** The block count fs_alloc and fs_free compute, in 32-bit arithmetic. */
  function BlocksNeeded(size: nat, sectorSize: nat): nat
    requires sectorSize > 0
  {
    ((HEADER + size + sectorSize - 1) % U32) / sectorSize
  }

  /** It is the number of blocks the allocation takes exactly when the sum does not wrap. */
  lemma BlocksNeededIsExact(g: Layout, size: nat)
    requires 0 < g.sectorSize < U32 && size < U32
    ensures BlocksNeeded(size, g.sectorSize) == Run(g, size) <==> HEADER + size + g.sectorSize - 1 < U32
  {
    var x := HEADER + size + g.sectorSize - 1;
    if x >= U32 {
      assert x % U32 <= x - U32;
      ShorterByAWrap(x, x % U32, g.sectorSize);
    }
  }

  lemma ShorterByAWrap(x: nat, y: nat, d: nat)
    requires y + U32 <= x && U32 > d > 0
    ensures y / d < x / d
  {
    var p, q := y / d, x / d;
    assert y == p * d + y % d && x == q * d + x % d;
    assert q * d > p * d;
    if q <= p { MulLe(q, p, d); }
  }

  /** The image after fs_alloc has stored an allocation at block s, with the block count it computes. */
  function AfterStoring(f: seq<byte>, g: Layout, s: nat, size: nat): seq<byte>
    requires g.sectorSize > 0 && size < U32
  {
    WriteRange(MarkRun(f, s, BlocksNeeded(size, g.sectorSize)), BlockAddress(g, s), Encode(size))
  }

  /** Storing an allocation in free blocks keeps the bits and headers exact if and only if the sum for
      its block count does not wrap: otherwise its run would not even fit the device. */
  lemma StoringKeepsIff(f: seq<byte>, g: Layout, live: Allocations, s: nat, size: nat)
    requires Allocated(f, g, live) && size < U32 && FreeRun(f, g, s, BlocksNeeded(size, g.sectorSize))
    ensures Allocated(AfterStoring(f, g, s, size), g, live[s := size]) <==> HEADER + size + g.sectorSize - 1 < U32
  {
    SectorFits(g);
    BlocksNeededIsExact(g, size);
    hide AfterStoring, AfterAlloc, BlocksNeeded, Run, FreeRun, BitsExact, HeadersStored, RunsDisjoint, WellFormed;
    if HEADER + size + g.sectorSize - 1 < U32 {
      AllocKeeps(f, g, live, s, size);
      StoringIsAlloc(f, g, s, size);
    } else if Allocated(AfterStoring(f, g, s, size), g, live[s := size]) {
      LiveSizeFits(g, live[s := size], s);
    }
  }

  lemma StoringIsAlloc(f: seq<byte>, g: Layout, s: nat, size: nat)
    requires g.sectorSize > 0 && size < U32 && BlocksNeeded(size, g.sectorSize) == Run(g, size)
    ensures AfterStoring(f, g, s, size) == AfterAlloc(f, g, s, size)
  {
  }

  lemma SectorFits(g: Layout)
    requires WellFormed(g)
    ensures 0 < g.sectorSize < U32
  {
    MulLe(1, g.blockCount, g.sectorSize);
  }

  /** The search of fs_alloc: the lowest run of n free blocks, if there is one. */
  method FindFreeRun(d: Device, n: nat, ghost live: Allocations) returns (found: bool, runStart: nat)
    requires Ready(d, live) && n > 0
    modifies d, d.frameBitmap, d.cache, d.cache.disk, d.cache.window
    ensures Ready(d, live) && d.Image() == old(d.Image())
    ensures found ==> FreeRun(d.Image(), LayoutOf(d), runStart, n)
    ensures forall s: nat :: (found ==> s < runStart) ==> !FreeRun(d.Image(), LayoutOf(d), s, n)
  {
    hide *;
    ReadyFacts(d, live);
    ghost var f, g := d.Image(), LayoutOf(d);
    SearchStarts(f, g, n);
    runStart := 0;
    var runLength: nat := 0;
    var i: nat := d.reservedBlocks;
    while i < d.blockCount
      invariant d.Valid() && Ready(d, live) && d.Image() == f
      invariant Searching(f, g, n, i, runStart, runLength)
      decreases d.blockCount - i
    {
      ReadyFacts(d, live);
      BlockInBitmap(g, i);
      var used := d.BitmapGet(i);
      MakeReady(d, live, f);
      SearchStep(f, g, n, i, runStart, runLength);
      if !used {
        if runLength == 0 { runStart := i; }
        runLength := runLength + 1;
        if runLength >= n { return true, runStart; }
      } else {
        runLength := 0;
      }
      i := i + 1;
    }
    SearchFails(f, g, n, i, runStart, runLength);
    return false, runStart;
  }

  lemma BlockInBitmap(g: Layout, i: nat)
    requires i < g.blockCount
    ensures i / 8 < BitmapBytes(g.blockCount)
  {
  }

  lemma ReadyFacts(d: Device, live: Allocations)
    requires Ready(d, live)
    ensures d.Valid() && d.sectorSize > 0 && WellFormed(LayoutOf(d)) && Allocated(d.Image(), LayoutOf(d), live)
    ensures LayoutOf(d) == Layout(d.sectorSize, d.blockCount, d.reservedBlocks)
    ensures d.reservedBlocks <= d.blockCount && d.bitmapSize == BitmapBytes(d.blockCount)
  {
  }

  lemma MakeReady(d: Device, live: Allocations, f: seq<byte>)
    requires d.Valid() && d.Image() == f && Allocated(f, LayoutOf(d), live)
    ensures Ready(d, live)
  {
  }

  lemma SearchStarts(f: seq<byte>, g: Layout, n: nat)
    requires n > 0 && g.reserved <= g.blockCount
    ensures Searching(f, g, n, g.reserved, 0, 0)
  {
  }

  /** Blocks below i have been looked at: the last runLength of them are free and the one before
      those is not, and no n free blocks in a row end below i. */
  ghost predicate Searching(f: seq<byte>, g: Layout, n: nat, i: nat, runStart: nat, runLength: nat) {
    && g.reserved <= i <= g.blockCount && runLength < n
    && (runLength > 0 ==> g.reserved <= runStart && runStart + runLength == i)
    && (forall j :: i - runLength <= j < i ==> !Used(f, j))
    && g.reserved <= i - runLength
    && (i - runLength > g.reserved ==> Used(f, i - runLength - 1))
    && (forall s: nat :: s + n <= i ==> !FreeRun(f, g, s, n))
  }

  lemma SearchStep(f: seq<byte>, g: Layout, n: nat, i: nat, runStart: nat, runLength: nat)
    requires n > 0 && i < g.blockCount && Searching(f, g, n, i, runStart, runLength)
    ensures Used(f, i) ==> Searching(f, g, n, i + 1, runStart, 0)
    ensures var s := if runLength == 0 then i else runStart;
            && (!Used(f, i) && runLength + 1 < n ==> Searching(f, g, n, i + 1, s, runLength + 1))
            && (!Used(f, i) && runLength + 1 >= n ==> FreeRun(f, g, s, n) && forall r: nat :: r < s ==> !FreeRun(f, g, r, n))
  {
    forall s: nat | s + n <= i + 1 && (Used(f, i) || s < i - runLength) ensures !FreeRun(f, g, s, n) {
      if g.reserved <= s && s + n == i + 1 {
        var j := if Used(f, i) then i else i - runLength - 1;
        assert s <= j < s + n && Used(f, j);
      }
    }
  }

  lemma SearchFails(f: seq<byte>, g: Layout, n: nat, i: nat, runStart: nat, runLength: nat)
    requires Searching(f, g, n, i, runStart, runLength) && i >= g.blockCount
    ensures forall s: nat :: !FreeRun(f, g, s, n)
  {
  }

  lemma InBitmap(d: Device, i: nat)
    requires d.Valid() && i < d.blockCount
    ensures i / 8 < d.bitmapSize
  {
  }

  method MarkBlocks(d: Device, s: nat, n: nat)
    requires d.Valid() && s + n <= d.blockCount
    modifies d, d.frameBitmap, d.cache, d.cache.disk, d.cache.window
    ensures d.Valid() && d.Image() == MarkRun(old(d.Image()), s, n)
  {
    hide Used, MarkUsed, Device.Valid, Device.Image;
    ghost var f := d.Image();
    for j := s to s + n
      invariant d.Valid() && d.Image() == MarkRun(f, s, j - s)
    {
      InBitmap(d, j);
      d.BitmapSet(j);
    }
  }

  method ClearBlocks(d: Device, s: nat, n: nat)
    requires d.Valid() && s + n <= d.blockCount
    modifies d, d.frameBitmap, d.cache, d.cache.disk, d.cache.window
    ensures d.Valid() && d.Image() == UnmarkRun(old(d.Image()), s, n)
  {
    hide Used, MarkFree, Device.Valid, Device.Image;
    ghost var f := d.Image();
    for i := 0 to n
      invariant d.Valid() && d.Image() == UnmarkRun(f, s, i)
    {
      InBitmap(d, s + i);
      d.BitmapClear(s + i);
    }
  }

  /** Where a header word of a block beyond the reserved ones lies. */
  lemma HeaderPlace(d: Device, s: nat, n: nat, size: nat)
    requires d.Valid() && WellFormed(LayoutOf(d)) && d.reservedBlocks <= s && n == Run(LayoutOf(d), size) && s + n <= d.blockCount
    ensures var a := BlockAddress(LayoutOf(d), s);
            && a == s * d.sectorSize && a + HEADER + size < FS_NULL && a + 4 <= U32
            && d.ClearOfBitmap(a, 4) && d.ClearOfBitmap(a + HEADER, size)
  {
    BeyondBitmap(LayoutOf(d), s);
    SeparateBytes(LayoutOf(d), s, size, d.blockCount);
  }

  lemma AllocFacts(d: Device, live: Allocations, size: nat)
    requires Ready(d, live) && HEADER + size + d.sectorSize - 1 < U32
    ensures d.Valid() && d.sectorSize > 0 && LayoutOf(d).sectorSize > 0 && size < U32 && WellFormed(LayoutOf(d))
    ensures BlocksNeeded(size, d.sectorSize) == Run(LayoutOf(d), size)
    ensures Allocated(d.Image(), LayoutOf(d), live)
  {
    BlocksNeededIsExact(LayoutOf(d), size);
  }

  lemma FoundFacts(d: Device, live: Allocations, s: nat, size: nat)
    requires Ready(d, live) && size < U32 && FreeRun(d.Image(), LayoutOf(d), s, Run(LayoutOf(d), size))
    ensures d.Valid() && WellFormed(LayoutOf(d)) && d.reservedBlocks <= s && s + Run(LayoutOf(d), size) <= d.blockCount
  {
  }

  /** fs_alloc. With room it takes the lowest free run that is long enough; it fails only when
      there is no such run. */
  method FsAlloc(d: Device, size: nat, ghost live: Allocations) returns (address: nat, ghost s: nat)
    requires Ready(d, live) && HEADER + size + d.sectorSize - 1 < U32
    modifies d, d.frameBitmap, d.cache, d.cache.disk, d.cache.window
    ensures address == FS_NULL ==>
              Ready(d, live) && d.Image() == old(d.Image()) && forall r: nat :: !FreeRun(d.Image(), LayoutOf(d), r, Run(LayoutOf(d), size))
    ensures address != FS_NULL ==>
              && address == BlockAddress(LayoutOf(d), s) + HEADER
              && FreeRun(old(d.Image()), LayoutOf(d), s, Run(LayoutOf(d), size))
              && (forall r: nat :: r < s ==> !FreeRun(old(d.Image()), LayoutOf(d), r, Run(LayoutOf(d), size)))
              && s !in live && Ready(d, live[s := size])
              && d.Image() == AfterAlloc(old(d.Image()), LayoutOf(d), s, size)
              && OnlyHeader(old(d.Image()), d.Image(), LayoutOf(d), s)
  {
    hide *;
    AllocFacts(d, live, size);
    ghost var f, g := d.Image(), LayoutOf(d);
    var blocksNeeded := BlocksNeeded(size, d.sectorSize);
    var found, runStart := FindFreeRun(d, blocksNeeded, live);
    s := runStart;
    if !found {
      return FS_NULL, s;
    }
    FoundFacts(d, live, s, size);
    AllocKeeps(f, g, live, s, size);
    AllocBytes(f, g, live, s, size);
    MarkBlocks(d, runStart, blocksNeeded);
    d.BitmapFlush();
    HeaderPlace(d, s, blocksNeeded, size);
    address := runStart * d.sectorSize;
    d.Write(address, Encode(size));
    AfterAllocIs(f, g, s, size);
    MakeReady(d, live[s := size], AfterAlloc(f, g, s, size));
    address := address + HEADER;
  }

  lemma AfterAllocIs(f: seq<byte>, g: Layout, s: nat, size: nat)
    requires g.sectorSize > 0 && size < U32
    ensures AfterAlloc(f, g, s, size) == WriteRange(MarkRun(f, s, Run(g, size)), BlockAddress(g, s), Encode(size))
  {
  }

  lemma FreeFacts(d: Device, live: Allocations, s: nat)
    requires Ready(d, live) && s in live
    ensures var a, n := BlockAddress(LayoutOf(d), s), Run(LayoutOf(d), live[s]);
            && d.Valid() && d.sectorSize > 0 && LayoutOf(d).sectorSize > 0 && WellFormed(LayoutOf(d)) && d.reservedBlocks <= s && s + n <= d.blockCount
            && a == s * d.sectorSize && a / d.sectorSize == s
            && BlocksNeeded(live[s], d.sectorSize) == n
            && U32At(d.Image(), a) == live[s] && U32At(ReadRange(d.Image(), a, 4), 0) == live[s]
            && Allocated(d.Image(), LayoutOf(d), live)
  {
    BlockStart(LayoutOf(d), s);
    LiveSizeFits(LayoutOf(d), live, s);
    BlocksNeededIsExact(LayoutOf(d), live[s]);
    U32OfRead(d.Image(), BlockAddress(LayoutOf(d), s));
  }

  lemma AfterFreeIs(f: seq<byte>, g: Layout, s: nat, size: nat)
    requires g.sectorSize > 0
    ensures AfterFree(f, g, s, size) == WriteRange(UnmarkRun(f, s, Run(g, size)), BlockAddress(g, s), Encode(0))
  {
  }

  /** fs_free on the address of a live allocation: exactly that allocation goes. */
  method FsFree(d: Device, address: nat, ghost live: Allocations, ghost s: nat)
    requires Ready(d, live) && s in live && address == BlockAddress(LayoutOf(d), s) + HEADER
    modifies d, d.frameBitmap, d.cache, d.cache.disk, d.cache.window
    ensures Ready(d, live - {s}) && d.Image() == AfterFree(old(d.Image()), LayoutOf(d), s, live[s])
    ensures OnlyHeader(old(d.Image()), d.Image(), LayoutOf(d), s) && U32At(d.Image(), BlockAddress(LayoutOf(d), s)) == 0
  {
    hide *;
    FreeFacts(d, live, s);
    ghost var f, g, size := d.Image(), LayoutOf(d), live[s];
    HeaderPlace(d, s, Run(g, size), size);
    FreeKeeps(f, g, live, s);
    FreeBytes(f, g, live, s);
    var allocAddress := address - HEADER;
    var header := d.Read(allocAddress, 4);
    var blocks := BlocksNeeded(U32At(header, 0), d.sectorSize);
    var startBlock := allocAddress / d.sectorSize;
    ClearBlocks(d, startBlock, blocks);
    d.Write(allocAddress, Encode(0));
    AfterFreeIs(f, g, s, size);
    d.BitmapFlush();
    MakeReady(d, live - {s}, AfterFree(f, g, s, size));
  }

  /** An allocation that is freed again leaves the bitmap as it was, bit for bit. */
  lemma FreeUndoesAlloc(f: seq<byte>, g: Layout, live: Allocations, s: nat, size: nat)
    requires Allocated(f, g, live) && size < U32 && FreeRun(f, g, s, Run(g, size))
    ensures var h := AfterFree(AfterAlloc(f, g, s, size), g, s, size);
            Allocated(h, g, live) && forall i :: 0 <= i < g.blockCount ==> (Used(h, i) <==> Used(f, i))
  {
    AllocKeeps(f, g, live, s, size);
    FreeKeeps(AfterAlloc(f, g, s, size), g, live[s := size], s);
    assert live[s := size] - {s} == live;
    hide AfterFree, AfterAlloc, Used;
  }

  // ---------------------------------------------------------------- enumeration

  /** b is the first allocation with a payload at or after block start. */
  ghost predicate IsNext(live: Allocations, start: nat, b: nat) {
    b in live && live[b] > 0 && start <= b && forall c :: c in live && start <= c < b ==> live[c] == 0
  }

  /** No run reaches across block i from below. */
  ghost predicate Boundary(g: Layout, live: Allocations, i: nat)
    requires g.sectorSize > 0
  {
    forall b :: b in live && b < i ==> b + Run(g, live[b]) <= i
  }

  lemma BoundaryStep(f: seq<byte>, g: Layout, live: Allocations, i: nat)
    requires Allocated(f, g, live) && g.reserved <= i < g.blockCount && Boundary(g, live, i)
    ensures Used(f, i) <==> i in live
    ensures i in live ==> U32At(f, BlockAddress(g, i)) == live[i] && (live[i] == 0 ==> Boundary(g, live, i + 1))
    ensures i !in live ==> Boundary(g, live, i + 1)
  {
    if Covered(g, live, i) {
      var b :| b in live && InRun(g, live, b, i);
      assert b == i;
    }
    if i in live {
      assert InRun(g, live, i, i);
      if live[i] == 0 { OneBlock(g); }
    }
  }

  lemma OneBlock(g: Layout)
    requires HEADER <= g.sectorSize
    ensures Run(g, 0) == 1
  {
    Quotient(HEADER + g.sectorSize - 1, g.sectorSize, 1, HEADER - 1);
  }

  /** fs_find_next's loop: the first allocation at or after start that has a payload. An allocation
      of no bytes stores a zero size word and is passed over. */
  method FindFrom(d: Device, start: nat, ghost live: Allocations) returns (address: nat, ghost b: nat)
    requires Ready(d, live) && d.reservedBlocks <= start && Boundary(LayoutOf(d), live, start)
    modifies d, d.frameBitmap, d.cache, d.cache.disk, d.cache.window
    ensures Ready(d, live) && d.Image() == old(d.Image())
    ensures address == FS_NULL ==> forall c :: c in live && start <= c ==> live[c] == 0
    ensures address != FS_NULL ==> IsNext(live, start, b) && address == BlockAddress(LayoutOf(d), b) + HEADER
  {
    hide *;
    ReadyFacts(d, live);
    ghost var f, g := d.Image(), LayoutOf(d);
    var i: nat := start;
    b := 0;
    while i < d.blockCount
      invariant d.Valid() && Ready(d, live) && d.Image() == f
      invariant start <= i && Boundary(g, live, i)
      invariant forall c :: c in live && start <= c < i ==> live[c] == 0
      decreases d.blockCount - i
    {
      ReadyFacts(d, live);
      BlockInBitmap(g, i);
      BoundaryStep(f, g, live, i);
      var used := d.BitmapGet(i);
      if used {
        HeaderReadable(f, d, g, live, i);
        var header := d.Read(i * d.sectorSize, 4);
        if U32At(header, 0) != 0 {
          MakeReady(d, live, f);
          b := i;
          NextIs(live, start, b);
          return i * d.sectorSize + HEADER, b;
        }
      }
      MakeReady(d, live, f);
      i := i + 1;
    }
    ReadyFacts(d, live);
    NoneBeyond(f, g, live);
    return FS_NULL, b;
  }

  lemma NextIs(live: Allocations, start: nat, b: nat)
    requires b in live && live[b] > 0 && start <= b && forall c :: c in live && start <= c < b ==> live[c] == 0
    ensures IsNext(live, start, b)
  {
  }

  lemma NoneBeyond(f: seq<byte>, g: Layout, live: Allocations)
    requires Allocated(f, g, live)
    ensures forall c :: c in live ==> c < g.blockCount
  {
  }

  lemma HeaderReadable(f: seq<byte>, d: Device, g: Layout, live: Allocations, i: nat)
    requires d.Valid() && Allocated(f, g, live) && i in live && g == LayoutOf(d)
    ensures var a := BlockAddress(g, i);
            && a == i * d.sectorSize && a + HEADER < FS_NULL && a + 4 <= U32 && d.ClearOfBitmap(a, 4)
            && U32At(f, a) == live[i] && U32At(ReadRange(f, a, 4), 0) == live[i]
  {
    HeaderPlace(d, i, Run(g, live[i]), live[i]);
    U32OfRead(f, BlockAddress(g, i));
  }

  /** Where the allocations after a given one, or all of them, begin. */
  function PlaceAfter(g: Layout, previous: nat, p: nat): nat {
    if previous == FS_NULL then g.reserved else p + 1
  }

  /** fs_find_next: the first live allocation with a payload, or the first after a given one. */
  method FsFindNext(d: Device, previous: nat, ghost live: Allocations, ghost p: nat) returns (address: nat,
      ghost b: nat)
    requires Ready(d, live)
    requires previous != FS_NULL ==> p in live && previous == BlockAddress(LayoutOf(d), p) + HEADER
    modifies d, d.frameBitmap, d.cache, d.cache.disk, d.cache.window
    ensures Ready(d, live) && d.Image() == old(d.Image())
    ensures address == FS_NULL ==> forall c :: c in live && PlaceAfter(LayoutOf(d), previous, p) <= c ==> live[c] == 0
    ensures address != FS_NULL ==>
              && IsNext(live, PlaceAfter(LayoutOf(d), previous, p), b)
              && address == BlockAddress(LayoutOf(d), b) + HEADER
  {
    hide *;
    ReadyFacts(d, live);
    ghost var f, g := d.Image(), LayoutOf(d);
    var startBlock: nat := d.reservedBlocks;
    if previous != FS_NULL {
      FreeFacts(d, live, p);
      HeaderPlace(d, p, Run(g, live[p]), live[p]);
      var headerAddress := previous - HEADER;
      var header := d.Read(headerAddress, 4);
      var used := BlocksNeeded(U32At(header, 0), d.sectorSize);
      startBlock := headerAddress / d.sectorSize + used;
      MakeReady(d, live, f);
    }
    StartsAtBoundary(f, g, live, previous, p);
    address, b := FindFrom(d, startBlock, live);
    NextAfter(f, g, live, previous, p, startBlock, address, b);
  }

  lemma StartsAtBoundary(f: seq<byte>, g: Layout, live: Allocations, previous: nat, p: nat)
    requires Allocated(f, g, live) && (previous != FS_NULL ==> p in live)
    ensures var start := if previous == FS_NULL then g.reserved else p + Run(g, live[p]);
            g.reserved <= start && Boundary(g, live, start)
  {
  }

  lemma NextAfter(f: seq<byte>, g: Layout, live: Allocations, previous: nat, p: nat, start: nat, address: nat, b: nat)
    requires Allocated(f, g, live) && (previous != FS_NULL ==> p in live)
    requires start == if previous == FS_NULL then g.reserved else p + Run(g, live[p])
    requires address == FS_NULL ==> forall c :: c in live && start <= c ==> live[c] == 0
    requires address != FS_NULL ==> IsNext(live, start, b)
    ensures address == FS_NULL ==> forall c :: c in live && PlaceAfter(g, previous, p) <= c ==> live[c] == 0
    ensures address != FS_NULL ==> IsNext(live, PlaceAfter(g, previous, p), b)
  {
  }

  // ---------------------------------------------------------------- used space

  /** Block i is reserved or belongs to an allocation with a payload. */
  ghost predicate Visible(g: Layout, live: Allocations, i: nat)
    requires g.sectorSize > 0
  {
    i < g.reserved || exists b :: b in live && live[b] > 0 && InRun(g, live, b, i)
  }

  ghost function CountVisible(g: Layout, live: Allocations, n: nat): (c: nat)
    requires g.sectorSize > 0
    ensures c <= n
  {
    if n == 0 then 0 else CountVisible(g, live, n - 1) + if Visible(g, live, n - 1) then 1 else 0
  }

  ghost function CountUsed(f: seq<byte>, n: nat): nat {
    if n == 0 then 0 else CountUsed(f, n - 1) + if Used(f, n - 1) then 1 else 0
  }

  lemma {:induction false} CountAll(g: Layout, live: Allocations, i: nat, n: nat)
    requires g.sectorSize > 0 && i <= n && forall j :: i <= j < n ==> Visible(g, live, j)
    ensures CountVisible(g, live, n) == CountVisible(g, live, i) + (n - i)
  {
    if i < n { CountAll(g, live, i, n - 1); }
  }

  lemma {:induction false} CountNone(g: Layout, live: Allocations, i: nat, n: nat)
    requires g.sectorSize > 0 && i <= n && forall j :: i <= j < n ==> !Visible(g, live, j)
    ensures CountVisible(g, live, n) == CountVisible(g, live, i)
  {
    if i < n { CountNone(g, live, i, n - 1); }
  }

  lemma CountReserved(g: Layout, live: Allocations)
    requires g.sectorSize > 0
    ensures CountVisible(g, live, g.reserved) == g.reserved
  {
    CountAll(g, live, 0, g.reserved);
  }

  /** Between the end of one counted run and the next there is nothing to count, and then a run. */
  lemma CountRun(f: seq<byte>, g: Layout, live: Allocations, e: nat, b: nat)
    requires Allocated(f, g, live) && g.reserved <= e && Boundary(g, live, e) && IsNext(live, e, b)
    ensures var n := Run(g, live[b]);
            && b + n <= g.blockCount && Boundary(g, live, b + n)
            && CountVisible(g, live, b + n) == CountVisible(g, live, e) + n
  {
    forall j | e <= j < b ensures !Visible(g, live, j) { GapInvisible(g, live, e, b, j); }
    CountNone(g, live, e, b);
    forall j | b <= j < b + Run(g, live[b]) ensures Visible(g, live, j) { assert InRun(g, live, b, j); }
    CountAll(g, live, b, b + Run(g, live[b]));
  }

  lemma GapInvisible(g: Layout, live: Allocations, e: nat, b: nat, j: nat)
    requires g.sectorSize > 0 && g.reserved <= e <= j < b && Boundary(g, live, e)
    requires forall c :: c in live && e <= c < b ==> live[c] == 0
    ensures !Visible(g, live, j)
  {
  }

  lemma CountEnd(f: seq<byte>, g: Layout, live: Allocations, e: nat)
    requires Allocated(f, g, live) && g.reserved <= e <= g.blockCount && Boundary(g, live, e)
    requires forall c :: c in live && e <= c ==> live[c] == 0
    ensures CountVisible(g, live, g.blockCount) == CountVisible(g, live, e)
  {
    forall j | e <= j < g.blockCount ensures !Visible(g, live, j) { GapInvisible(g, live, e, g.blockCount, j); }
    CountNone(g, live, e, g.blockCount);
  }

  /** Every set bit is counted exactly when no live allocation is empty. */
  lemma VisibleIsUsed(f: seq<byte>, g: Layout, live: Allocations)
    requires Allocated(f, g, live)
    ensures CountVisible(g, live, g.blockCount) == CountUsed(f, g.blockCount) <==> forall b :: b in live ==> live[b] > 0
  {
    CountsCompare(f, g, live, g.blockCount);
    forall b | b in live && live[b] == 0 ensures Used(f, b) && !Visible(g, live, b) {
      assert InRun(g, live, b, b);
    }
  }

  lemma {:induction false} CountsCompare(f: seq<byte>, g: Layout, live: Allocations, n: nat)
    requires Allocated(f, g, live) && n <= g.blockCount
    ensures CountVisible(g, live, n) <= CountUsed(f, n)
    ensures CountVisible(g, live, n) == CountUsed(f, n) <==> forall i :: 0 <= i < n ==> (Used(f, i) ==> Visible(g, live, i))
  {
    if n > 0 {
      CountsCompare(f, g, live, n - 1);
      assert Visible(g, live, n - 1) ==> Used(f, n - 1);
    }
  }

  /** fs_get_used_bytes. The two guards against corrupt headers never fire on a well-formed image. */
  method FsGetUsedBytes(d: Device, ghost live: Allocations) returns (usedBytes: nat)
    requires Ready(d, live)
    modifies d, d.frameBitmap, d.cache, d.cache.disk, d.cache.window
    ensures Ready(d, live) && d.Image() == old(d.Image())
    ensures usedBytes == BlockAddress(LayoutOf(d), CountVisible(LayoutOf(d), live, d.blockCount))
  {
    hide *;
    ReadyFacts(d, live);
    ghost var f, g := d.Image(), LayoutOf(d);
    BytesInPool(d, f, live, g.reserved);
    CountReserved(g, live);
    usedBytes := d.reservedBlocks * d.sectorSize;
    if usedBytes > d.poolSize { assert false; }             // a corrupt reserved count
    ghost var e: nat := g.reserved;
    StartsAtBoundary(f, g, live, FS_NULL, 0);
    var currentAlloc: nat;
    ghost var b: nat;
    currentAlloc, b := FsFindNext(d, FS_NULL, live, 0);
    FollowingNext(f, g, live, FS_NULL, 0, currentAlloc, b);
    ReadyFacts(d, live);
    while currentAlloc != FS_NULL
      invariant d.Valid() && Ready(d, live) && d.Image() == f
      invariant g.reserved <= e <= g.blockCount && Boundary(g, live, e)
      invariant usedBytes == BlockAddress(g, CountVisible(g, live, e))
      invariant currentAlloc != FS_NULL ==> IsNext(live, e, b) && currentAlloc == BlockAddress(g, b) + HEADER
      invariant currentAlloc == FS_NULL ==> forall c :: c in live && e <= c ==> live[c] == 0
      decreases g.blockCount - e
    {
      ReadyFacts(d, live);
      NextFacts(live, e, b);
      FreeFacts(d, live, b);
      HeaderPlace(d, b, Run(g, live[b]), live[b]);
      var headerAddr := currentAlloc - HEADER;
      var header := d.Read(headerAddr, 4);
      MakeReady(d, live, f);
      var size := U32At(header, 0);
      UsedStep(d, f, live, e, b);
      if size == 0 || size > d.poolSize { assert false; }   // a corrupt header
      var blocksUsed := BlocksNeeded(size, d.sectorSize);
      var blockBytes := blocksUsed * d.sectorSize;
      if usedBytes + blockBytes > d.poolSize { assert false; }
      usedBytes := usedBytes + blockBytes;
      e := b + blocksUsed;
      ghost var p, previous := b, currentAlloc;
      currentAlloc, b := FsFindNext(d, currentAlloc, live, p);
      FollowingNext(f, g, live, previous, p, currentAlloc, b);
      ReadyFacts(d, live);
    }
    CountEnd(f, g, live, e);
  }

  lemma NextFacts(live: Allocations, e: nat, b: nat)
    requires IsNext(live, e, b)
    ensures b in live && live[b] > 0 && e <= b
  {
  }

  lemma FollowingNext(f: seq<byte>, g: Layout, live: Allocations, previous: nat, p: nat, address: nat, b: nat)
    requires Allocated(f, g, live) && (previous != FS_NULL ==> p in live)
    requires address == FS_NULL ==> forall c :: c in live && PlaceAfter(g, previous, p) <= c ==> live[c] == 0
    requires address != FS_NULL ==> IsNext(live, PlaceAfter(g, previous, p), b)
    ensures var e := if previous == FS_NULL then g.reserved else p + Run(g, live[p]);
            && (address == FS_NULL ==> forall c :: c in live && e <= c ==> live[c] == 0)
            && (address != FS_NULL ==> IsNext(live, e, b))
  {
  }

  lemma BlocksInPool(poolSize: nat, sectorSize: nat, n: nat)
    requires sectorSize > 0 && n <= Blocks(poolSize, sectorSize)
    ensures n * sectorSize <= poolSize
  {
    var all := poolSize / sectorSize;
    assert all * sectorSize <= poolSize;
    MulLe(n, all, sectorSize);
  }

  lemma GeometryIs(d: Device)
    requires d.Valid()
    ensures d.sectorSize > 0 && d.blockCount == Blocks(d.poolSize, d.sectorSize)
  {
    hide Blocks;
  }

  /** So many blocks from the start of the pool fit in it. */
  lemma BytesInPool(d: Device, f: seq<byte>, live: Allocations, n: nat)
    requires d.Valid() && Allocated(f, LayoutOf(d), live) && n <= d.blockCount
    ensures BlockAddress(LayoutOf(d), n) <= d.poolSize && n * d.sectorSize == BlockAddress(LayoutOf(d), n)
  {
    GeometryIs(d);
    hide Device.Valid, Allocated, Blocks;
    BlocksInPool(d.poolSize, d.sectorSize, n);
  }

  lemma UsedStep(d: Device, f: seq<byte>, live: Allocations, e: nat, b: nat)
    requires d.Valid() && Allocated(f, LayoutOf(d), live) && d.reservedBlocks <= e
    requires Boundary(LayoutOf(d), live, e) && IsNext(live, e, b)
    ensures var g := LayoutOf(d); var n := Run(g, live[b]);
            && b + n <= g.blockCount && Boundary(g, live, b + n) && e < b + n
            && live[b] <= d.poolSize
            && BlockAddress(g, CountVisible(g, live, b + n)) == BlockAddress(g, CountVisible(g, live, e)) + n * d.sectorSize <= d.poolSize
  {
    LayoutFacts(d);
    hide *;
    NextFacts(live, e, b);
    var g := LayoutOf(d);
    var n := Run(g, live[b]);
    CountRun(f, g, live, e, b);
    BytesInPool(d, f, live, CountVisible(g, live, b + n));
    PayloadInPool(d, f, live, b);
    AddBlocks(g, CountVisible(g, live, e), n);
  }

  lemma LayoutFacts(d: Device)
    requires d.Valid()
    ensures var g := LayoutOf(d);
            g.sectorSize == d.sectorSize > 0 && g.blockCount == d.blockCount && g.reserved == d.reservedBlocks
  {
  }

  lemma AddBlocks(g: Layout, a: nat, n: nat)
    ensures BlockAddress(g, a + n) == BlockAddress(g, a) + n * g.sectorSize
  {
  }

  lemma PayloadInPool(d: Device, f: seq<byte>, live: Allocations, b: nat)
    requires d.Valid() && Allocated(f, LayoutOf(d), live) && b in live
    ensures live[b] <= d.poolSize
  {
    BytesInPool(d, f, live, d.blockCount);
    SeparateBytes(LayoutOf(d), b, live[b], d.blockCount);
  }
}
