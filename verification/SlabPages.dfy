/** One page of the slab allocator (kernel/arch/x86/slab.c:10-59): equal slots behind a header, the
    free ones threaded into a list through their own first word and poisoned behind it. */
module SlabPages {
  import opened Basics

  type Addr = nat

  const PAGE_SIZE: nat := 4096
  const PAGE_HEADER: nat := 16     // sizeof(SlabPage), already a multiple of 4
  const WORD: nat := 4
  const POISON: byte := 0xAA
  const CLASSES: nat := 6

  /** Object size of each malloc cache. */
  function Size(c: nat): (n: nat)
    ensures 16 <= n <= 512
  {
    if c == 0 then 16 else if c == 1 then 32 else if c == 2 then 64 else if c == 3 then 128 else if c == 4 then 256 else 512
  }

  /** Slots in a page. */
  function Slots(c: nat): (n: nat)
    ensures 1 <= n
  {
    (PAGE_SIZE - PAGE_HEADER) / Size(c)
  }

  function Slot(b: Addr, c: nat, k: nat): Addr {
    b + PAGE_HEADER + k * Size(c)
  }

  predicate Aligned(a: Addr) {
    a % PAGE_SIZE == 0
  }

  function PageBase(a: Addr): Addr {
    a - a % PAGE_SIZE
  }

  ghost predicate IsSlot(b: Addr, c: nat, a: Addr) {
    exists k: nat :: k < Slots(c) && a == Slot(b, c, k)
  }

  /** A slot lies inside its page and is never page aligned, so an address tells a slot from a large
      allocation and leads back to the page. */
  lemma SlotFacts(b: Addr, c: nat, k: nat)
    requires Aligned(b) && k < Slots(c)
    ensures b + PAGE_HEADER <= Slot(b, c, k) && Slot(b, c, k) + Size(c) <= b + PAGE_SIZE
    ensures PageBase(Slot(b, c, k)) == b && !Aligned(Slot(b, c, k))
  {
    InPage(k, Size(c), PAGE_SIZE - PAGE_HEADER);
    BaseIs(b, Slot(b, c, k));
  }

  lemma BaseIs(b: Addr, a: Addr)
    requires Aligned(b) && b < a < b + PAGE_SIZE
    ensures PageBase(a) == b && !Aligned(a)
  {
    assert a == b + (a - b) && (a - b) % PAGE_SIZE == a - b;
    assert a % PAGE_SIZE == a - b;
  }

  lemma InPage(k: nat, size: nat, room: nat)
    requires size > 0 && k < room / size
    ensures k * size + size <= room
  {
    var n := room / size;
    FloorBelow(n, room, size);
    TimesMonotone(k + 1, n, size);
    assert (k + 1) * size == k * size + size;
  }

  lemma FloorBelow(n: nat, room: nat, size: nat)
    requires size > 0 && n == room / size
    ensures n * size <= room
  {
  }

  lemma TimesMonotone(a: nat, b: nat, c: nat)
    requires a <= b
    ensures a * c <= b * c
  {
  }

  lemma SlotsApart(b: Addr, c: nat, j: nat, k: nat)
    requires j < k
    ensures Slot(b, c, j) + Size(c) <= Slot(b, c, k)
  {
    assert (k - j) * Size(c) >= Size(c);
  }

  // ---------------------------------------------------------------- the free list

  type Memory = map<Addr, seq<byte>>

  function Poison(n: nat): seq<byte> {
    seq<byte>(n, i => POISON)
  }

  /** What a free slot holds. */
  function FreeContent(next: Addr, c: nat): (d: seq<byte>)
    requires next < U32
    ensures |d| == Size(c)
  {
    Encode(next) + Poison(Size(c) - WORD)
  }

  function Nth(fl: seq<Addr>, i: nat): Addr {
    if i < |fl| then fl[i] else 0
  }

  /** The i-th slot of a free list: of page b, poisoned, and linked to the one after it. */
  ghost predicate FreeSlot(b: Addr, c: nat, mem: Memory, fl: seq<Addr>, i: nat)
    requires i < |fl|
  {
    && IsSlot(b, c, fl[i]) && 0 < fl[i] < U32 && Nth(fl, i + 1) < U32
    && fl[i] in mem && mem[fl[i]] == FreeContent(Nth(fl, i + 1), c)
  }

  /** The slots of fl are linked in this order from head. */
  ghost predicate FreeOk(b: Addr, c: nat, head: Addr, mem: Memory, fl: seq<Addr>) {
    head == Nth(fl, 0) && Distinct(fl) && forall i :: 0 <= i < |fl| ==> FreeSlot(b, c, mem, fl, i)
  }

  datatype Page = Page(owner: nat, head: Addr, used: nat)

  ghost predicate PageOk(b: Addr, pg: Page, mem: Memory, fl: seq<Addr>) {
    && Aligned(b) && 0 < b && b + PAGE_SIZE <= U32 && pg.owner < CLASSES
    && FreeOk(b, pg.owner, pg.head, mem, fl)
    && pg.used + |fl| == Slots(pg.owner)
    && forall a :: IsSlot(b, pg.owner, a) ==> a in mem && |mem[a]| == Size(pg.owner)
  }

  /** A page only depends on the memory of its own slots. */
  lemma PageFrame(b: Addr, pg: Page, mem: Memory, mem': Memory, fl: seq<Addr>)
    requires PageOk(b, pg, mem, fl)
    requires forall a :: a in mem && PageBase(a) == b ==> a in mem' && mem'[a] == mem[a]
    ensures PageOk(b, pg, mem', fl)
  {
    hide IsSlot, PageBase, Slot, FreeContent, Distinct;
    forall a | IsSlot(b, pg.owner, a) ensures PageBase(a) == b { SlotHome(b, pg.owner, a); }
    forall i | 0 <= i < |fl| ensures FreeSlot(b, pg.owner, mem', fl, i) { assert FreeSlot(b, pg.owner, mem, fl, i); }
  }

  lemma SlotHome(b: Addr, c: nat, a: Addr)
    requires Aligned(b) && IsSlot(b, c, a)
    ensures PageBase(a) == b && !Aligned(a) && b < a && a + Size(c) <= b + PAGE_SIZE
  {
    var k: nat :| k < Slots(c) && a == Slot(b, c, k);
    SlotFacts(b, c, k);
  }

  /** No more free slots than slots. */
  ghost function SlotSet(b: Addr, c: nat, n: nat): set<Addr> {
    if n == 0 then {} else SlotSet(b, c, n - 1) + {Slot(b, c, n - 1)}
  }

  lemma {:induction false} SlotSetIs(b: Addr, c: nat, n: nat)
    ensures |SlotSet(b, c, n)| <= n
    ensures forall k: nat :: k < n ==> Slot(b, c, k) in SlotSet(b, c, n)
  {
    if n > 0 {
      SlotSetIs(b, c, n - 1);
      hide Slot;
    }
  }

  lemma {:induction false} DistinctWithin(s: seq<Addr>, all: set<Addr>)
    requires Distinct(s) && forall a :: a in s ==> a in all
    ensures |s| <= |all|
  {
    if s != [] {
      var last := s[|s| - 1];
      DistinctWithin(s[..|s| - 1], all - {last});
    }
  }

  lemma SlotsFit(b: Addr, c: nat, fl: seq<Addr>)
    requires Distinct(fl) && forall i :: 0 <= i < |fl| ==> IsSlot(b, c, fl[i])
    ensures |fl| <= Slots(c)
  {
    SlotSetIs(b, c, Slots(c));
    forall a | a in fl ensures a in SlotSet(b, c, Slots(c)) {
      var k: nat :| k < Slots(c) && a == Slot(b, c, k);
    }
    DistinctWithin(fl, SlotSet(b, c, Slots(c)));
  }

  // ---------------------------------------------------------------- taking and giving back a slot

  /** Unlinking the first free slot. */
  lemma PopOk(b: Addr, pg: Page, mem: Memory, fl: seq<Addr>)
    requires PageOk(b, pg, mem, fl) && fl != []
    ensures pg.head == fl[0] && pg.head in mem && IsSlot(b, pg.owner, pg.head) && pg.head != 0
    ensures |mem[pg.head]| == Size(pg.owner) && mem[pg.head][WORD..] == Poison(Size(pg.owner) - WORD)
    ensures var next := Decode(mem[pg.head][..WORD]); PageOk(b, Page(pg.owner, next, pg.used + 1), mem, fl[1..])
  {
    var next := Nth(fl, 1);
    FreeAt(b, pg, mem, fl, 0);
    assert FreeContent(next, pg.owner)[..WORD] == Encode(next);
    assert FreeContent(next, pg.owner)[WORD..] == Poison(Size(pg.owner) - WORD);
    DecodeOfEncode(next);
    PopChain(b, pg.owner, pg.head, mem, fl);
    hide FreeOk, FreeContent, IsSlot, Decode, Encode, Poison;
  }

  /** What holds of the i-th free slot of a page. */
  lemma FreeAt(b: Addr, pg: Page, mem: Memory, fl: seq<Addr>, i: nat)
    requires PageOk(b, pg, mem, fl) && i < |fl|
    ensures IsSlot(b, pg.owner, fl[i]) && 0 < fl[i] < U32 && Nth(fl, i + 1) < U32
    ensures fl[i] in mem && mem[fl[i]] == FreeContent(Nth(fl, i + 1), pg.owner)
  {
    hide IsSlot, FreeContent;
    assert FreeSlot(b, pg.owner, mem, fl, i);
  }

  lemma TailDistinct(fl: seq<Addr>)
    requires Distinct(fl) && fl != []
    ensures Distinct(fl[1..])
  {
    forall i, j | 0 <= i < j < |fl| - 1 ensures fl[1..][i] != fl[1..][j] { assert fl[i + 1] != fl[j + 1]; }
  }

  lemma TailSlot(b: Addr, c: nat, mem: Memory, fl: seq<Addr>, i: nat)
    requires i + 1 < |fl| && FreeSlot(b, c, mem, fl, i + 1)
    ensures FreeSlot(b, c, mem, fl[1..], i)
  {
    hide IsSlot, FreeContent;
  }

  lemma PopChain(b: Addr, c: nat, head: Addr, mem: Memory, fl: seq<Addr>)
    requires FreeOk(b, c, head, mem, fl) && fl != []
    ensures FreeOk(b, c, Nth(fl, 1), mem, fl[1..])
    ensures head == fl[0] && head in mem && Nth(fl, 1) < U32 && mem[head] == FreeContent(Nth(fl, 1), c) && IsSlot(b, c, head) && 0 < head
  {
    TailDistinct(fl);
    assert FreeSlot(b, c, mem, fl, 0);
    hide FreeSlot, Distinct, IsSlot, FreeContent;
    forall i | 0 <= i < |fl| - 1 ensures FreeSlot(b, c, mem, fl[1..], i) { TailSlot(b, c, mem, fl, i); }
  }

  /** Linking a handed-out slot in front again: the page had a live slot to give back. */
  lemma PushOk(b: Addr, pg: Page, mem: Memory, fl: seq<Addr>, a: Addr)
    requires PageOk(b, pg, mem, fl) && IsSlot(b, pg.owner, a) && a !in fl
    ensures pg.used > 0 && pg.head < U32
    ensures PageOk(b, Page(pg.owner, a, pg.used - 1), mem[a := FreeContent(pg.head, pg.owner)], [a] + fl)
  {
    SlotHome(b, pg.owner, a);
    PushChain(b, pg.owner, pg.head, mem, fl, a);
    AllAreSlots(b, pg.owner, a, mem[a := FreeContent(pg.head, pg.owner)], [a] + fl);
    SlotsFit(b, pg.owner, [a] + fl);
    hide FreeOk, FreeContent, IsSlot;
  }

  lemma FrontDistinct(fl: seq<Addr>, a: Addr)
    requires Distinct(fl) && a !in fl
    ensures Distinct([a] + fl)
  {
    var more := [a] + fl;
    assert forall i :: 1 <= i < |more| ==> more[i] == fl[i - 1];
  }

  lemma PushedSlot(b: Addr, c: nat, mem: Memory, fl: seq<Addr>, i: nat, a: Addr, data: seq<byte>)
    requires i < |fl| && FreeSlot(b, c, mem, fl, i) && a !in fl
    ensures FreeSlot(b, c, mem[a := data], [a] + fl, i + 1)
  {
    hide IsSlot, FreeContent;
    assert ([a] + fl)[i + 1] == fl[i] && fl[i] != a;
  }

  lemma PushChain(b: Addr, c: nat, head: Addr, mem: Memory, fl: seq<Addr>, a: Addr)
    requires FreeOk(b, c, head, mem, fl) && IsSlot(b, c, a) && a !in fl && 0 < a < U32
    ensures head < U32 && FreeOk(b, c, a, mem[a := FreeContent(head, c)], [a] + fl)
  {
    FrontDistinct(fl, a);
    HeadFits(b, c, head, mem, fl);
    var more, mem' := [a] + fl, mem[a := FreeContent(head, c)];
    assert Nth(more, 1) == head;
    assert FreeSlot(b, c, mem', more, 0);
    hide FreeSlot, Distinct, IsSlot, FreeContent;
    forall i | 1 <= i < |more| ensures FreeSlot(b, c, mem', more, i) {
      PushedSlot(b, c, mem, fl, i - 1, a, FreeContent(head, c));
    }
  }

  lemma HeadFits(b: Addr, c: nat, head: Addr, mem: Memory, fl: seq<Addr>)
    requires FreeOk(b, c, head, mem, fl)
    ensures head < U32 && (head == 0 <==> fl == [])
  {
    if fl != [] { assert FreeSlot(b, c, mem, fl, 0); }
  }

  lemma AllAreSlots(b: Addr, c: nat, head: Addr, mem: Memory, fl: seq<Addr>)
    requires FreeOk(b, c, head, mem, fl)
    ensures Distinct(fl) && forall i :: 0 <= i < |fl| ==> IsSlot(b, c, fl[i])
  {
    forall i | 0 <= i < |fl| ensures IsSlot(b, c, fl[i]) { assert FreeSlot(b, c, mem, fl, i); }
  }

  // ---------------------------------------------------------------- a new page

  ghost function AllSlots(b: Addr, c: nat): (fl: seq<Addr>)
    ensures |fl| == Slots(c) && forall k :: 0 <= k < |fl| ==> fl[k] == Slot(b, c, k)
  {
    seq(Slots(c), k requires 0 <= k => Slot(b, c, k))
  }

  /** Every slot threaded to the next one and poisoned. */
  ghost predicate Threaded(b: Addr, c: nat, mem: Memory) {
    forall k :: 0 <= k < Slots(c) ==> FreeSlot(b, c, mem, AllSlots(b, c), k)
  }

  lemma LinkStep(b: Addr, c: nat, mem: Memory, mem': Memory, fl: seq<Addr>, i: nat)
    requires i < |fl| && Distinct(fl) && IsSlot(b, c, fl[i]) && 0 < fl[i] < U32 && Nth(fl, i + 1) < U32
    requires mem' == mem[fl[i] := FreeContent(Nth(fl, i + 1), c)]
    requires forall k :: 0 <= k < i ==> FreeSlot(b, c, mem, fl, k)
    ensures forall k :: 0 <= k <= i ==> FreeSlot(b, c, mem', fl, k)
  {
    hide FreeContent, IsSlot;
    forall k | 0 <= k < i ensures FreeSlot(b, c, mem', fl, k) { assert FreeSlot(b, c, mem, fl, k) && fl[k] != fl[i]; }
  }

  lemma AllSlotsDistinct(b: Addr, c: nat)
    requires 0 < b
    ensures Distinct(AllSlots(b, c)) && forall i :: 0 <= i < Slots(c) ==> IsSlot(b, c, AllSlots(b, c)[i]) && AllSlots(b, c)[i] > 0
  {
    var fl: seq<Addr> := AllSlots(b, c);
    forall i, j | 0 <= i < j < |fl| ensures fl[i] != fl[j] { SlotsApart(b, c, i, j); }
    forall i | 0 <= i < |fl| ensures IsSlot(b, c, fl[i]) && fl[i] > 0 { assert fl[i] == Slot(b, c, i); }
  }

  /** Then it is a page of free slots. */
  lemma FreshOk(b: Addr, c: nat, mem: Memory)
    requires Aligned(b) && 0 < b && b + PAGE_SIZE <= U32 && c < CLASSES && Threaded(b, c, mem)
    ensures PageOk(b, Page(c, Slot(b, c, 0), 0), mem, AllSlots(b, c))
  {
    var fl: seq<Addr> := AllSlots(b, c);
    AllSlotsDistinct(b, c);
    forall a | IsSlot(b, c, a) ensures a in mem && |mem[a]| == Size(c) {
      var k: nat :| k < Slots(c) && a == Slot(b, c, k);
      assert fl[k] == a;
      assert FreeSlot(b, c, mem, fl, k);
    }
    assert fl[0] == Slot(b, c, 0);
    hide FreeContent, Slot, Slots, Distinct, IsSlot, AllSlots, FreeSlot;
  }
}
