/** Every run of allocations, writes and frees on a formatted image
    (kernel/fs/basefs/device.c:66-143). */
module AllocationRuns {
  import opened Basics
  import opened Bits
  import opened SectorCache
  import opened Device
  import opened AllocationMap

  /** Free and Write name a live allocation by its first block. */
  datatype Op = Alloc(size: nat) | Free(block: nat) | Write(block: nat, offset: nat, data: seq<byte>)

  datatype Volume = Volume(image: seq<byte>, live: Allocations)

  /** The lowest free run of n blocks from block at on, or None. */
  ghost function FirstRun(f: seq<byte>, g: Layout, n: nat, at: nat): Option<nat>
    decreases g.blockCount - at
  {
    if at >= g.blockCount then None
    else if FreeRun(f, g, at, n) then Some(at)
    else FirstRun(f, g, n, at + 1)
  }

  lemma {:induction false} FirstRunIsLowest(f: seq<byte>, g: Layout, n: nat, at: nat)
    requires n > 0
    ensures var r := FirstRun(f, g, n, at);
            && (r.Some? ==> at <= r.value && FreeRun(f, g, r.value, n))
            && forall s: nat :: at <= s < (if r.Some? then r.value else g.blockCount) ==> !FreeRun(f, g, s, n)
    ensures FirstRun(f, g, n, at).None? ==> forall s: nat :: at <= s ==> !FreeRun(f, g, s, n)
    decreases g.blockCount - at
  {
    if at < g.blockCount && !FreeRun(f, g, at, n) { FirstRunIsLowest(f, g, n, at + 1); }
  }

  ghost predicate Enabled(g: Layout, v: Volume, op: Op) {
    match op
    case Alloc(size) => g.sectorSize > 0 && HEADER + size + g.sectorSize - 1 < U32
    case Free(b) => b in v.live && g.sectorSize > 0
    case Write(b, offset, data) => b in v.live && offset + |data| <= v.live[b]
  }

  ghost function Apply(g: Layout, v: Volume, op: Op): Volume
    requires Enabled(g, v, op)
  {
    match op
    case Alloc(size) =>
      var s := FirstRun(v.image, g, Run(g, size), 0);
      if s.None? then v else Volume(AfterAlloc(v.image, g, s.value, size), v.live[s.value := size])
    case Free(b) => Volume(AfterFree(v.image, g, b, v.live[b]), v.live - {b})
    case Write(b, offset, data) => v.(image := WriteRange(v.image, BlockAddress(g, b) + HEADER + offset, data))
  }

  ghost predicate IsRun(g: Layout, v: Volume, ops: seq<Op>)
    decreases |ops|
  {
    ops == [] || (Enabled(g, v, ops[0]) && IsRun(g, Apply(g, v, ops[0]), ops[1..]))
  }

  ghost function After(g: Layout, v: Volume, ops: seq<Op>): Volume
    requires IsRun(g, v, ops)
    decreases |ops|
  {
    if ops == [] then v else After(g, Apply(g, v, ops[0]), ops[1..])
  }

  lemma StepKeeps(g: Layout, v: Volume, op: Op)
    requires Allocated(v.image, g, v.live) && Enabled(g, v, op)
    ensures Allocated(Apply(g, v, op).image, g, Apply(g, v, op).live)
  {
    hide Allocated, AfterAlloc, AfterFree, FreeRun, FirstRun, BlockAddress;
    match op
    case Alloc(size) =>
      FirstRunIsLowest(v.image, g, Run(g, size), 0);
      var s := FirstRun(v.image, g, Run(g, size), 0);
      if s.Some? { AllocKeeps(v.image, g, v.live, s.value, size); }
    case Free(b) => FreeKeeps(v.image, g, v.live, b);
    case Write(b, offset, data) => PayloadWriteKeeps(v.image, g, v.live, b, offset, data);
  }

  /** After every run the set bits are exactly the reserved blocks and the disjoint runs of the live
      allocations. */
  lemma {:induction false} RunKeeps(g: Layout, v: Volume, ops: seq<Op>)
    requires Allocated(v.image, g, v.live) && IsRun(g, v, ops)
    ensures Allocated(After(g, v, ops).image, g, After(g, v, ops).live)
    decreases |ops|
  {
    if ops != [] {
      StepKeeps(g, v, ops[0]);
      hide Allocated, Apply, Enabled;
      RunKeeps(g, Apply(g, v, ops[0]), ops[1..]);
    }
  }

  /** A run that has given everything back leaves only the reserved blocks marked: nothing leaks. */
  lemma NothingLeaks(g: Layout, v: Volume, ops: seq<Op>)
    requires Allocated(v.image, g, v.live) && IsRun(g, v, ops) && After(g, v, ops).live == map[]
    ensures forall i :: 0 <= i < g.blockCount ==> (Used(After(g, v, ops).image, i) <==> i < g.reserved)
  {
    RunKeeps(g, v, ops);
    hide Used, After, IsRun, WellFormed;
  }

  // ---------------------------------------------------------------- contents over a run

  ghost predicate Leaves(op: Op, b: nat) {
    !(op.Free? && op.block == b) && !(op.Write? && op.block == b)
  }

  ghost function PayloadOf(g: Layout, v: Volume, b: nat): seq<byte>
    requires b in v.live
  {
    ReadRange(v.image, BlockAddress(g, b) + HEADER, v.live[b])
  }

  /** Two images with the same bytes in a range read the same there. */
  lemma SameRead(f: seq<byte>, f': seq<byte>, a: nat, n: nat)
    requires forall x :: a <= x < a + n ==> At(f', x) == At(f, x)
    ensures ReadRange(f', a, n) == ReadRange(f, a, n)
  {
    forall i | 0 <= i < n ensures ReadRange(f', a, n)[i] == ReadRange(f, a, n)[i] {
      assert At(f', a + i) == At(f, a + i);
    }
  }

  lemma AllocLeaves(f: seq<byte>, g: Layout, live: Allocations, s: nat, size: nat, b: nat)
    requires Allocated(f, g, live) && size < U32 && FreeRun(f, g, s, Run(g, size)) && b in live
    ensures s != b
    ensures ReadRange(AfterAlloc(f, g, s, size), BlockAddress(g, b) + HEADER, live[b]) == ReadRange(f, BlockAddress(g, b) + HEADER, live[b])
  {
    AllocKeeps(f, g, live, s, size);
    MarkBeyond(f, g, s, Run(g, size));
    BeyondBitmap(g, b);
    HeaderApart(f, g, live, s, size, b);
    hide Allocated, FreeRun, MarkRun, WriteRange, ReadRange, Run;
    var m := MarkRun(f, s, Run(g, size));
    SameRead(f, m, BlockAddress(g, b) + HEADER, live[b]);
    ReadAside(m, BlockAddress(g, s), Encode(size), BlockAddress(g, b) + HEADER, live[b]);
  }

  /** The header of a newly taken run lies outside every payload. */
  lemma HeaderApart(f: seq<byte>, g: Layout, live: Allocations, s: nat, size: nat, b: nat)
    requires Allocated(f, g, live) && size < U32 && FreeRun(f, g, s, Run(g, size)) && b in live && s !in live
    requires Allocated(AfterAlloc(f, g, s, size), g, live[s := size])
    ensures BlockAddress(g, b) + HEADER + live[b] <= BlockAddress(g, s) || BlockAddress(g, s) + HEADER <= BlockAddress(g, b) + HEADER
  {
    if b < s {
      PayloadsSeparate(AfterAlloc(f, g, s, size), g, live[s := size], b, s);
    } else {
      MulLe(s, b, g.sectorSize);
    }
  }

  lemma FreeLeaves(f: seq<byte>, g: Layout, live: Allocations, s: nat, b: nat)
    requires Allocated(f, g, live) && s in live && b in live && b != s
    ensures ReadRange(AfterFree(f, g, s, live[s]), BlockAddress(g, b) + HEADER, live[b]) == ReadRange(f, BlockAddress(g, b) + HEADER, live[b])
  {
    MarkBeyond(f, g, s, Run(g, live[s]));
    BeyondBitmap(g, b);
    if b < s { PayloadsSeparate(f, g, live, b, s); } else { MulLe(s, b, g.sectorSize); }
    hide Allocated, UnmarkRun, WriteRange, ReadRange, Run;
    var m := UnmarkRun(f, s, Run(g, live[s]));
    SameRead(f, m, BlockAddress(g, b) + HEADER, live[b]);
    ReadAside(m, BlockAddress(g, s), Encode(0), BlockAddress(g, b) + HEADER, live[b]);
  }

  lemma WriteLeaves(f: seq<byte>, g: Layout, live: Allocations, s: nat, offset: nat, data: seq<byte>, b: nat)
    requires Allocated(f, g, live) && s in live && b in live && b != s && offset + |data| <= live[s]
    ensures var h := WriteRange(f, BlockAddress(g, s) + HEADER + offset, data);
            ReadRange(h, BlockAddress(g, b) + HEADER, live[b]) == ReadRange(f, BlockAddress(g, b) + HEADER, live[b])
  {
    if b < s { PayloadsSeparate(f, g, live, b, s); } else { PayloadsSeparate(f, g, live, s, b); }
    hide Allocated, WriteRange, ReadRange;
    ReadAside(f, BlockAddress(g, s) + HEADER + offset, data, BlockAddress(g, b) + HEADER, live[b]);
  }

  lemma StepLeaves(g: Layout, v: Volume, op: Op, b: nat)
    requires Allocated(v.image, g, v.live) && Enabled(g, v, op) && b in v.live && Leaves(op, b)
    ensures b in Apply(g, v, op).live && Apply(g, v, op).live[b] == v.live[b]
    ensures PayloadOf(g, Apply(g, v, op), b) == PayloadOf(g, v, b)
  {
    hide Allocated, AfterAlloc, AfterFree, FreeRun, FirstRun, BlockAddress, WriteRange, ReadRange;
    match op
    case Alloc(size) =>
      FirstRunIsLowest(v.image, g, Run(g, size), 0);
      var s := FirstRun(v.image, g, Run(g, size), 0);
      if s.Some? { AllocLeaves(v.image, g, v.live, s.value, size, b); }
    case Free(s) => FreeLeaves(v.image, g, v.live, s, b);
    case Write(s, offset, data) => WriteLeaves(v.image, g, v.live, s, offset, data, b);
  }

  /** A payload only changes by writes to it: whatever else is allocated, freed and written, it reads
      back the same. */
  lemma {:induction false} PayloadSurvives(g: Layout, v: Volume, ops: seq<Op>, b: nat)
    requires Allocated(v.image, g, v.live) && IsRun(g, v, ops) && b in v.live
    requires forall op :: op in ops ==> Leaves(op, b)
    ensures b in After(g, v, ops).live && After(g, v, ops).live[b] == v.live[b]
    ensures PayloadOf(g, After(g, v, ops), b) == PayloadOf(g, v, b)
    decreases |ops|
  {
    if ops != [] {
      StepKeeps(g, v, ops[0]);
      StepLeaves(g, v, ops[0], b);
      hide Allocated, Apply, Enabled, PayloadOf, Leaves;
      PayloadSurvives(g, Apply(g, v, ops[0]), ops[1..], b);
    }
  }

  // ---------------------------------------------------------------- how many there can be

  lemma {:induction false} RangeSize(s: set<nat>, lo: nat, hi: nat)
    requires lo <= hi && forall x :: x in s ==> lo <= x < hi
    ensures |s| <= hi - lo
    decreases hi - lo
  {
    if lo < hi {
      RangeSize(s - {hi - 1}, lo, hi - 1);
    } else {
      assert s == {};
    }
  }

  /** There are never more live allocations than blocks, so a walk over distinct ones ends within
      that many steps. */
  lemma AllocationsFit(f: seq<byte>, g: Layout, live: Allocations)
    requires Allocated(f, g, live)
    ensures |live| <= g.blockCount - g.reserved && g.blockCount < U32 / 4
  {
    forall b | b in live ensures g.reserved <= b < g.blockCount {}
    RangeSize(live.Keys, g.reserved, g.blockCount);
    assert |live| == |live.Keys|;
    hide Run, HeadersStored, BitsExact, RunsDisjoint, RunsFit;
    MulLe(HEADER, g.sectorSize, g.blockCount);
  }
}
