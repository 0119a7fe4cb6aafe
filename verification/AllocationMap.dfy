/** What a formatted basefs image means to the block allocator (kernel/fs/basefs/device.c): live
    allocations are runs of whole blocks, each starting with its size, pairwise disjoint, and the
    set bits of the bitmap are exactly the reserved blocks and the blocks of those runs. */
module AllocationMap {
  import opened Basics
  import opened Bits
  import opened SectorCache
  import opened Device

  const HEADER: nat := 4      // sizeof(FSAllocHeader)
  const FS_NULL: nat := 0xFFFF_FFFF

  datatype Layout = Layout(sectorSize: nat, blockCount: nat, reserved: nat)

  /** Live allocations: first block to size in bytes. */
  type Allocations = map<nat, nat>

  function BlockAddress(g: Layout, b: nat): nat {
    b * g.sectorSize
  }

  predicate WellFormed(g: Layout) {
    && HEADER <= g.sectorSize && g.reserved <= g.blockCount
    && BITMAP_ADDRESS + BitmapBytes(g.blockCount) <= BlockAddress(g, g.reserved)
    && BlockAddress(g, g.blockCount) < FS_NULL
  }

  /** Blocks an allocation of this many bytes takes. */
  function Run(g: Layout, size: nat): (n: nat)
    requires g.sectorSize > 0
    ensures n >= 1
  {
    BlocksFor(HEADER + size, g.sectorSize)
  }

  // ---------------------------------------------------------------- 32-bit little-endian words

  function U32At(f: seq<byte>, a: nat): (n: nat)
    ensures n < U32
  {
    At(f, a) + 0x100 * At(f, a + 1) + 0x1_0000 * At(f, a + 2) + 0x100_0000 * At(f, a + 3)
  }

  lemma DecodeEncode(f: seq<byte>, a: nat, n: nat)
    requires n < U32 && a + 4 <= |f|
    ensures U32At(WriteRange(f, a, Encode(n)), a) == n
  {
    hide WriteRange, At, Encode;
    var d := Encode(n);
    AtOfWrite(f, a, d, a);
    AtOfWrite(f, a, d, a + 1);
    AtOfWrite(f, a, d, a + 2);
    AtOfWrite(f, a, d, a + 3);
    DecodeOfEncode(n);
  }

  lemma U32Aside(f: seq<byte>, a: nat, data: seq<byte>, c: nat)
    requires c + 4 <= a || a + |data| <= c
    ensures U32At(WriteRange(f, a, data), c) == U32At(f, c)
  {
    var g := WriteRange(f, a, data);
    assert At(g, c) == At(f, c) && At(g, c + 1) == At(f, c + 1) && At(g, c + 2) == At(f, c + 2) && At(g, c + 3) == At(f, c + 3);
  }

  lemma U32OfRead(f: seq<byte>, a: nat)
    ensures var d := ReadRange(f, a, 4); U32At(d, 0) == U32At(f, a)
  {
  }

  // ---------------------------------------------------------------- the invariant

  predicate InRun(g: Layout, live: Allocations, b: nat, i: nat)
    requires g.sectorSize > 0 && b in live
  {
    b <= i < b + Run(g, live[b])
  }

  ghost predicate Covered(g: Layout, live: Allocations, i: nat)
    requires g.sectorSize > 0
  {
    exists b :: b in live && InRun(g, live, b, i)
  }

  ghost predicate RunsFit(g: Layout, live: Allocations)
    requires g.sectorSize > 0
  {
    forall b :: b in live ==> live[b] < U32 && g.reserved <= b && b + Run(g, live[b]) <= g.blockCount
  }

  ghost predicate RunsDisjoint(g: Layout, live: Allocations)
    requires g.sectorSize > 0
  {
    forall b, c :: b in live && c in live && b < c ==> b + Run(g, live[b]) <= c
  }

  ghost predicate HeadersStored(f: seq<byte>, g: Layout, live: Allocations) {
    forall b :: b in live ==> U32At(f, BlockAddress(g, b)) == live[b]
  }

  ghost predicate BitsExact(f: seq<byte>, g: Layout, live: Allocations)
    requires g.sectorSize > 0
  {
    forall i :: 0 <= i < g.blockCount ==> (Used(f, i) <==> i < g.reserved || Covered(g, live, i))
  }

  ghost predicate Allocated(f: seq<byte>, g: Layout, live: Allocations) {
    && WellFormed(g) && BlockAddress(g, g.blockCount) <= |f|
    && RunsFit(g, live) && RunsDisjoint(g, live)
    && HeadersStored(f, g, live) && BitsExact(f, g, live)
  }

  /** Blocks s .. s + n are all free. */
  ghost predicate FreeRun(f: seq<byte>, g: Layout, s: nat, n: nat) {
    g.reserved <= s && s + n <= g.blockCount && forall i :: s <= i < s + n ==> !Used(f, i)
  }

  // ---------------------------------------------------------------- block arithmetic

  /** A run has room for its header and its payload. */
  lemma RunHolds(g: Layout, size: nat)
    requires g.sectorSize > 0
    ensures HEADER + size <= Run(g, size) * g.sectorSize
  {
    var ss, x := g.sectorSize, HEADER + size + g.sectorSize - 1;
    assert x == x / ss * ss + x % ss;
  }

  /** And it is the shortest that has. */
  lemma RunIsLeast(g: Layout, size: nat, n: nat)
    requires g.sectorSize > 0
    ensures HEADER + size <= n * g.sectorSize <==> Run(g, size) <= n
  {
    RunHolds(g, size);
    var ss, k := g.sectorSize, Run(g, size);
    var x := HEADER + size + ss - 1;
    assert x == x / ss * ss + x % ss;
    if k <= n { MulLe(k, n, ss); }
    if n < k { MulLe(n + 1, k, ss); }
  }

  /** The run of a live allocation lies inside the device behind a reserved block, so the sum its block
      count is computed from does not wrap. */
  lemma LiveSizeFits(g: Layout, live: Allocations, b: nat)
    requires WellFormed(g) && RunsFit(g, live) && b in live
    ensures HEADER + live[b] + g.sectorSize - 1 < U32 && 0 < g.sectorSize < U32
  {
    RunHolds(g, live[b]);
    ReservedFirst(g);
    hide Run, BitmapBytes;
    RunBelow(g.sectorSize, b, Run(g, live[b]), g.blockCount);
  }

  lemma ReservedFirst(g: Layout)
    requires WellFormed(g)
    ensures g.reserved >= 1 && g.blockCount * g.sectorSize < FS_NULL
  {
    assert BlockAddress(g, g.reserved) == g.reserved * g.sectorSize;
  }

  lemma RunBelow(sectorSize: nat, b: nat, n: nat, count: nat)
    requires b >= 1 && b + n <= count
    ensures sectorSize + n * sectorSize <= count * sectorSize
  {
    MulLe(1 + n, count, sectorSize);
  }

  /** The bytes of a block beyond the reserved ones are beyond the bitmap. */
  lemma BeyondBitmap(g: Layout, b: nat)
    requires WellFormed(g) && g.reserved <= b
    ensures BITMAP_ADDRESS + BitmapBytes(g.blockCount) <= BlockAddress(g, b)
  {
    MulLe(g.reserved, b, g.sectorSize);
  }

  lemma BlockStart(g: Layout, b: nat)
    requires g.sectorSize > 0
    ensures (BlockAddress(g, b)) / g.sectorSize == b
  {
    Quotient(BlockAddress(g, b), g.sectorSize, b, 0);
  }

  // ---------------------------------------------------------------- marking runs

  function MarkRun(f: seq<byte>, s: nat, n: nat): seq<byte> {
    if n == 0 then f else MarkUsed(MarkRun(f, s, n - 1), s + n - 1)
  }

  function UnmarkRun(f: seq<byte>, s: nat, n: nat): seq<byte> {
    if n == 0 then f else MarkFree(UnmarkRun(f, s, n - 1), s + n - 1)
  }

  /** The bitmap byte of the last block of a run. */
  lemma RunBytes(s: nat, n: nat)
    requires n > 0
    ensures (s + n - 1) / 8 < (s + n + 7) / 8 && (s + (n - 1) + 7) / 8 <= (s + n + 7) / 8
  {
  }

  lemma {:induction false} MarkRunBits(f: seq<byte>, s: nat, n: nat, j: nat)
    requires BITMAP_ADDRESS + (s + n + 7) / 8 <= |f|
    ensures Used(MarkRun(f, s, n), j) == (s <= j < s + n || Used(f, j)) && |MarkRun(f, s, n)| == |f|
  {
    if n > 0 {
      hide Used, MarkUsed, MarkFree;
      MarkRunBits(f, s, n - 1, j);
      RunBytes(s, n);
      MarkFacts(MarkRun(f, s, n - 1), s + n - 1, j);
    }
  }

  lemma {:induction false} MarkRunAside(f: seq<byte>, s: nat, n: nat, a: nat)
    requires a < BITMAP_ADDRESS || BITMAP_ADDRESS + (s + n + 7) / 8 <= a
    ensures At(MarkRun(f, s, n), a) == At(f, a)
  {
    if n > 0 {
      hide WithBit, WithoutBit;
      RunBytes(s, n);
      MarkRunAside(f, s, n - 1, a);
    }
  }

  lemma MarkRunFacts(f: seq<byte>, s: nat, n: nat, j: nat)
    requires BITMAP_ADDRESS + (s + n + 7) / 8 <= |f|
    ensures Used(MarkRun(f, s, n), j) == (s <= j < s + n || Used(f, j))
    ensures |MarkRun(f, s, n)| == |f|
    ensures forall a: nat :: a < BITMAP_ADDRESS || BITMAP_ADDRESS + (s + n + 7) / 8 <= a ==> At(MarkRun(f, s, n), a) == At(f, a)
  {
    hide Used, MarkRun, At;
    MarkRunBits(f, s, n, j);
    forall a: nat | a < BITMAP_ADDRESS || BITMAP_ADDRESS + (s + n + 7) / 8 <= a ensures At(MarkRun(f, s, n), a) == At(f, a) {
      MarkRunAside(f, s, n, a);
    }
  }

  lemma {:induction false} UnmarkRunBits(f: seq<byte>, s: nat, n: nat, j: nat)
    requires BITMAP_ADDRESS + (s + n + 7) / 8 <= |f|
    ensures Used(UnmarkRun(f, s, n), j) == (!(s <= j < s + n) && Used(f, j)) && |UnmarkRun(f, s, n)| == |f|
  {
    if n > 0 {
      hide Used, MarkUsed, MarkFree;
      UnmarkRunBits(f, s, n - 1, j);
      RunBytes(s, n);
      MarkFacts(UnmarkRun(f, s, n - 1), s + n - 1, j);
    }
  }

  lemma {:induction false} UnmarkRunAside(f: seq<byte>, s: nat, n: nat, a: nat)
    requires a < BITMAP_ADDRESS || BITMAP_ADDRESS + (s + n + 7) / 8 <= a
    ensures At(UnmarkRun(f, s, n), a) == At(f, a)
  {
    if n > 0 {
      hide WithBit, WithoutBit;
      RunBytes(s, n);
      UnmarkRunAside(f, s, n - 1, a);
    }
  }

  lemma UnmarkRunFacts(f: seq<byte>, s: nat, n: nat, j: nat)
    requires BITMAP_ADDRESS + (s + n + 7) / 8 <= |f|
    ensures Used(UnmarkRun(f, s, n), j) == (!(s <= j < s + n) && Used(f, j))
    ensures |UnmarkRun(f, s, n)| == |f|
    ensures forall a: nat :: a < BITMAP_ADDRESS || BITMAP_ADDRESS + (s + n + 7) / 8 <= a ==> At(UnmarkRun(f, s, n), a) == At(f, a)
  {
    hide Used, UnmarkRun, At;
    UnmarkRunBits(f, s, n, j);
    forall a: nat | a < BITMAP_ADDRESS || BITMAP_ADDRESS + (s + n + 7) / 8 <= a ensures At(UnmarkRun(f, s, n), a) == At(f, a) {
      UnmarkRunAside(f, s, n, a);
    }
  }

  // ---------------------------------------------------------------- what the operations do

  /** The image after allocating size bytes at block s. */
  function AfterAlloc(f: seq<byte>, g: Layout, s: nat, size: nat): seq<byte>
    requires g.sectorSize > 0 && size < U32
  {
    WriteRange(MarkRun(f, s, Run(g, size)), BlockAddress(g, s), Encode(size))
  }

  /** ... and after freeing the allocation of size bytes at block s. */
  function AfterFree(f: seq<byte>, g: Layout, s: nat, size: nat): seq<byte>
    requires g.sectorSize > 0
  {
    WriteRange(UnmarkRun(f, s, Run(g, size)), BlockAddress(g, s), Encode(0))
  }

  /** Bits of the bitmap are untouched by writes beyond it. */
  lemma UsedAside(f: seq<byte>, g: Layout, a: nat, data: seq<byte>, i: nat)
    requires i < g.blockCount && BITMAP_ADDRESS + BitmapBytes(g.blockCount) <= a
    ensures Used(WriteRange(f, a, data), i) == Used(f, i)
  {
    assert At(WriteRange(f, a, data), BITMAP_ADDRESS + i / 8) == At(f, BITMAP_ADDRESS + i / 8);
  }

  /** Two separate runs occupy separate bytes; in particular neither's header is in the other. */
  lemma SeparateBytes(g: Layout, b: nat, size: nat, c: nat)
    requires g.sectorSize > 0 && b + Run(g, size) <= c
    ensures BlockAddress(g, b) + HEADER + size <= BlockAddress(g, c)
  {
    RunHolds(g, size);
    MulLe(b + Run(g, size), c, g.sectorSize);
    assert (b + Run(g, size)) * g.sectorSize == BlockAddress(g, b) + Run(g, size) * g.sectorSize;
  }

  lemma FreeRunIsSeparate(f: seq<byte>, g: Layout, live: Allocations, s: nat, n: nat, b: nat)
    requires Allocated(f, g, live) && FreeRun(f, g, s, n) && n > 0 && b in live
    ensures b + Run(g, live[b]) <= s || s + n <= b
  {
    if b < s + n && s < b + Run(g, live[b]) {
      var i := if b < s then s else b;
      assert InRun(g, live, b, i);
      assert Covered(g, live, i);
      assert false;
    }
  }

  lemma BitmapBelowBlocks(g: Layout, s: nat, n: nat)
    requires WellFormed(g) && s + n <= g.blockCount
    ensures (s + n + 7) / 8 <= BitmapBytes(g.blockCount)
  {
  }

  /** Reading a header word beyond the bitmap sees through the marking of blocks. */
  lemma HeaderAside(f: seq<byte>, f': seq<byte>, g: Layout, b: nat)
    requires WellFormed(g) && g.reserved <= b
    requires forall a :: BITMAP_ADDRESS + BitmapBytes(g.blockCount) <= a ==> At(f', a) == At(f, a)
    ensures U32At(f', BlockAddress(g, b)) == U32At(f, BlockAddress(g, b))
  {
    BeyondBitmap(g, b);
  }

  lemma MarkBeyond(f: seq<byte>, g: Layout, s: nat, n: nat)
    requires WellFormed(g) && s + n <= g.blockCount && BlockAddress(g, g.blockCount) <= |f|
    ensures BITMAP_ADDRESS + (s + n + 7) / 8 <= |f|
    ensures |MarkRun(f, s, n)| == |f| == |UnmarkRun(f, s, n)|
    ensures forall a :: BITMAP_ADDRESS + BitmapBytes(g.blockCount) <= a ==> At(MarkRun(f, s, n), a) == At(f, a) && At(UnmarkRun(f, s, n), a) == At(f, a)
  {
    BitmapBelowBlocks(g, s, n);
    BeyondBitmap(g, g.blockCount);
    MarkRunFacts(f, s, n, 0);
    UnmarkRunFacts(f, s, n, 0);
  }

  lemma AllocBits(f: seq<byte>, g: Layout, live: Allocations, s: nat, size: nat)
    requires Allocated(f, g, live) && size < U32 && FreeRun(f, g, s, Run(g, size))
    ensures BitsExact(AfterAlloc(f, g, s, size), g, live[s := size])
  {
    var n, live', h := Run(g, size), live[s := size], AfterAlloc(f, g, s, size);
    MarkBeyond(f, g, s, n);
    BeyondBitmap(g, s);
    FreshStart(f, g, live, s, n);
    forall i | 0 <= i < g.blockCount ensures Used(h, i) <==> i < g.reserved || Covered(g, live', i) {
      UsedAside(MarkRun(f, s, n), g, BlockAddress(g, s), Encode(size), i);
      MarkRunFacts(f, s, n, i);
      hide Used, MarkRun, WriteRange;
      if s <= i < s + n { assert InRun(g, live', s, i); }
      if Covered(g, live, i) {
        var b :| b in live && InRun(g, live, b, i);
        assert InRun(g, live', b, i);
      }
      if Covered(g, live', i) {
        var b :| b in live' && InRun(g, live', b, i);
        if b != s { assert InRun(g, live, b, i); }
      }
    }
  }

  lemma FreshStart(f: seq<byte>, g: Layout, live: Allocations, s: nat, n: nat)
    requires Allocated(f, g, live) && FreeRun(f, g, s, n) && n > 0
    ensures s !in live
  {
    if s in live { FreeRunIsSeparate(f, g, live, s, n, s); }
  }

  /** A word written at the start of one run is not part of another run's header. */
  lemma HeaderElsewhere(f: seq<byte>, m: seq<byte>, g: Layout, s: nat, sSize: nat, word: nat, b: nat, bSize: nat)
    requires WellFormed(g) && g.reserved <= b && word < U32
    requires forall a :: BITMAP_ADDRESS + BitmapBytes(g.blockCount) <= a ==> At(m, a) == At(f, a)
    requires b + Run(g, bSize) <= s || s + Run(g, sSize) <= b
    ensures U32At(WriteRange(m, BlockAddress(g, s), Encode(word)), BlockAddress(g, b)) == U32At(f, BlockAddress(g, b))
  {
    HeaderAside(f, m, g, b);
    if b + Run(g, bSize) <= s { SeparateBytes(g, b, bSize, s); } else { SeparateBytes(g, s, sSize, b); }
    hide U32At, Encode;
    U32Aside(m, BlockAddress(g, s), Encode(word), BlockAddress(g, b));
  }

  lemma HeaderThere(m: seq<byte>, g: Layout, s: nat, size: nat, word: nat)
    requires g.sectorSize > 0 && s + Run(g, size) <= g.blockCount && BlockAddress(g, g.blockCount) <= |m| && word < U32
    ensures U32At(WriteRange(m, BlockAddress(g, s), Encode(word)), BlockAddress(g, s)) == word
  {
    SeparateBytes(g, s, size, g.blockCount);
    DecodeEncode(m, BlockAddress(g, s), word);
  }

  lemma AllocHeaders(f: seq<byte>, g: Layout, live: Allocations, s: nat, size: nat)
    requires Allocated(f, g, live) && size < U32 && FreeRun(f, g, s, Run(g, size))
    ensures HeadersStored(AfterAlloc(f, g, s, size), g, live[s := size])
  {
    var n, live', m := Run(g, size), live[s := size], MarkRun(f, s, Run(g, size));
    MarkBeyond(f, g, s, n);
    hide U32At, MarkRun, WriteRange, BlockAddress, BitsExact, Encode;
    forall b | b in live' ensures U32At(AfterAlloc(f, g, s, size), BlockAddress(g, b)) == live'[b] {
      if b == s {
        HeaderThere(m, g, s, size, size);
      } else {
        FreeRunIsSeparate(f, g, live, s, n, b);
        HeaderElsewhere(f, m, g, s, size, size, b, live[b]);
      }
    }
  }

  /** Allocating in a free run keeps the image well formed and adds exactly that run. */
  lemma AllocKeeps(f: seq<byte>, g: Layout, live: Allocations, s: nat, size: nat)
    requires Allocated(f, g, live) && size < U32 && FreeRun(f, g, s, Run(g, size))
    ensures s !in live && Allocated(AfterAlloc(f, g, s, size), g, live[s := size])
  {
    FreshStart(f, g, live, s, Run(g, size));
    AllocBits(f, g, live, s, size);
    AllocHeaders(f, g, live, s, size);
    MarkBeyond(f, g, s, Run(g, size));
    forall b | b in live ensures b + Run(g, live[b]) <= s || s + Run(g, size) <= b {
      FreeRunIsSeparate(f, g, live, s, Run(g, size), b);
    }
    hide BitsExact, HeadersStored, MarkRun, Used;
    assert RunsDisjoint(g, live[s := size]);
  }

  lemma OnlyOwner(g: Layout, live: Allocations, s: nat, i: nat)
    requires g.sectorSize > 0 && RunsDisjoint(g, live) && s in live && InRun(g, live, s, i)
    ensures forall b :: b in live && b != s ==> !InRun(g, live, b, i)
  {
  }

  lemma FreeBits(f: seq<byte>, g: Layout, live: Allocations, s: nat)
    requires Allocated(f, g, live) && s in live
    ensures BitsExact(AfterFree(f, g, s, live[s]), g, live - {s})
  {
    var n, live', h := Run(g, live[s]), live - {s}, AfterFree(f, g, s, live[s]);
    MarkBeyond(f, g, s, n);
    BeyondBitmap(g, s);
    forall i | 0 <= i < g.blockCount ensures Used(h, i) <==> i < g.reserved || Covered(g, live', i) {
      UsedAside(UnmarkRun(f, s, n), g, BlockAddress(g, s), Encode(0), i);
      UnmarkRunFacts(f, s, n, i);
      hide Used, UnmarkRun, WriteRange;
      if s <= i < s + n {
        OnlyOwner(g, live, s, i);
        assert !Covered(g, live', i);
      } else {
        if Covered(g, live, i) {
          var b :| b in live && InRun(g, live, b, i);
          assert b != s && InRun(g, live', b, i);
        }
        if Covered(g, live', i) {
          var b :| b in live' && InRun(g, live', b, i);
          assert InRun(g, live, b, i);
        }
      }
    }
  }

  lemma FreeHeaders(f: seq<byte>, g: Layout, live: Allocations, s: nat)
    requires Allocated(f, g, live) && s in live
    ensures HeadersStored(AfterFree(f, g, s, live[s]), g, live - {s})
  {
    var n, live', m := Run(g, live[s]), live - {s}, UnmarkRun(f, s, Run(g, live[s]));
    MarkBeyond(f, g, s, n);
    hide U32At, UnmarkRun, WriteRange, BlockAddress, BitsExact, Encode;
    forall b | b in live' ensures U32At(AfterFree(f, g, s, live[s]), BlockAddress(g, b)) == live'[b] {
      assert b < s || s < b;
      HeaderElsewhere(f, m, g, s, live[s], 0, b, live[b]);
    }
  }

  /** Freeing a live allocation keeps the image well formed and removes exactly its run. */
  lemma FreeKeeps(f: seq<byte>, g: Layout, live: Allocations, s: nat)
    requires Allocated(f, g, live) && s in live
    ensures Allocated(AfterFree(f, g, s, live[s]), g, live - {s})
  {
    FreeBits(f, g, live, s);
    FreeHeaders(f, g, live, s);
    MarkBeyond(f, g, s, Run(g, live[s]));
    hide BitsExact, HeadersStored, UnmarkRun, Used;
  }

  /** Outside the bitmap only the header word of block s differs. */
  ghost predicate OnlyHeader(f: seq<byte>, f': seq<byte>, g: Layout, s: nat) {
    && |f'| == |f|
    && (forall a: nat :: a < BITMAP_ADDRESS ==> At(f', a) == At(f, a))
    && (forall a: nat :: BITMAP_ADDRESS + BitmapBytes(g.blockCount) <= a && !(BlockAddress(g, s) <= a < BlockAddress(g, s) + 4) ==>
         At(f', a) == At(f, a))
  }

  /** Allocating stores the size in front of the run, and freeing a zero; no other byte outside the
      bitmap changes. */
  lemma AllocBytes(f: seq<byte>, g: Layout, live: Allocations, s: nat, size: nat)
    requires Allocated(f, g, live) && size < U32 && FreeRun(f, g, s, Run(g, size))
    ensures OnlyHeader(f, AfterAlloc(f, g, s, size), g, s) && U32At(AfterAlloc(f, g, s, size), BlockAddress(g, s)) == size
  {
    HeaderBytes(f, MarkRun(f, s, Run(g, size)), g, s, size, size);
  }

  lemma FreeBytes(f: seq<byte>, g: Layout, live: Allocations, s: nat)
    requires Allocated(f, g, live) && s in live
    ensures OnlyHeader(f, AfterFree(f, g, s, live[s]), g, s) && U32At(AfterFree(f, g, s, live[s]), BlockAddress(g, s)) == 0
  {
    HeaderBytes(f, UnmarkRun(f, s, Run(g, live[s])), g, s, live[s], 0);
  }

  lemma HeaderBytes(f: seq<byte>, m: seq<byte>, g: Layout, s: nat, size: nat, word: nat)
    requires WellFormed(g) && BlockAddress(g, g.blockCount) <= |f| && g.reserved <= s && s + Run(g, size) <= g.blockCount && word < U32
    requires m == MarkRun(f, s, Run(g, size)) || m == UnmarkRun(f, s, Run(g, size))
    ensures OnlyHeader(f, WriteRange(m, BlockAddress(g, s), Encode(word)), g, s)
    ensures U32At(WriteRange(m, BlockAddress(g, s), Encode(word)), BlockAddress(g, s)) == word
  {
    MarkBeyond(f, g, s, Run(g, size));
    BitmapBelowBlocks(g, s, Run(g, size));
    MarkRunFacts(f, s, Run(g, size), 0);
    UnmarkRunFacts(f, s, Run(g, size), 0);
    HeaderThere(m, g, s, size, word);
    BeyondBitmap(g, s);
    hide MarkRun, UnmarkRun, Run, BitmapBytes, WellFormed, BlockAddress, U32At, Encode;
    var h := WriteRange(m, BlockAddress(g, s), Encode(word));
    forall a: nat ensures At(h, a) == if a < |m| && BlockAddress(g, s) <= a < BlockAddress(g, s) + 4 then Encode(word)[a - BlockAddress(g, s)] else At(m, a) {
      AtOfWrite(m, BlockAddress(g, s), Encode(word), a);
    }
    hide WriteRange, At;
  }

  lemma PayloadAside(f: seq<byte>, g: Layout, live: Allocations, s: nat, offset: nat, data: seq<byte>, b: nat)
    requires Allocated(f, g, live) && s in live && offset + |data| <= live[s] && b in live
    ensures U32At(WriteRange(f, BlockAddress(g, s) + HEADER + offset, data), BlockAddress(g, b)) == U32At(f, BlockAddress(g, b))
  {
    if b < s { SeparateBytes(g, b, live[b], s); }
    if s < b { SeparateBytes(g, s, live[s], b); }
    hide U32At;
    U32Aside(f, BlockAddress(g, s) + HEADER + offset, data, BlockAddress(g, b));
  }

  /** Writing inside the payload of a live allocation disturbs no bookkeeping. */
  lemma PayloadWriteKeeps(f: seq<byte>, g: Layout, live: Allocations, s: nat, offset: nat, data: seq<byte>)
    requires Allocated(f, g, live) && s in live && offset + |data| <= live[s]
    ensures Allocated(WriteRange(f, BlockAddress(g, s) + HEADER + offset, data), g, live)
  {
    var a := BlockAddress(g, s) + HEADER + offset;
    var h := WriteRange(f, a, data);
    BeyondBitmap(g, s);
    forall i | 0 <= i < g.blockCount ensures Used(h, i) == Used(f, i) { UsedAside(f, g, a, data, i); }
    forall b | b in live ensures U32At(h, BlockAddress(g, b)) == U32At(f, BlockAddress(g, b)) {
      PayloadAside(f, g, live, s, offset, data, b);
    }
    hide Used, U32At, WriteRange, BlockAddress;
  }

  /** Payloads of different live allocations do not overlap, and none reaches the bitmap. */
  lemma PayloadsSeparate(f: seq<byte>, g: Layout, live: Allocations, b: nat, c: nat)
    requires Allocated(f, g, live) && b in live && c in live && b < c
    ensures BITMAP_ADDRESS + BitmapBytes(g.blockCount) <= BlockAddress(g, b)
    ensures BlockAddress(g, b) + HEADER + live[b] <= BlockAddress(g, c)
  {
    BeyondBitmap(g, b);
    SeparateBytes(g, b, live[b], c);
  }
}
