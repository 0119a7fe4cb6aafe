/** malloc, free and realloc (kernel/arch/x86/slab.c:14-139, kernel/arch/x86/malloc.c:9-151): six slab
    caches for small objects and whole pages for large ones. */
module KernelHeap {
  import opened Basics
  import opened SlabPages

  const SLAB_MAX_SIZE: nat := 512

  /** The allocator's state. lists holds the pages of each cache in list order; large maps a large
      allocation to the page count kept one page in front of it; free, known to no program, lists
      the free slots of each slab page in order. */
  datatype State = State(pages: map<Addr, Page>, lists: seq<seq<Addr>>, mem: Memory, large: map<Addr, nat>, free: map<Addr, seq<Addr>>)

  // ---------------------------------------------------------------- the invariant

  ghost predicate SlabsOk(s: State) {
    forall b :: b in s.pages ==> b in s.free && PageOk(b, s.pages[b], s.mem, s.free[b])
  }

  ghost predicate ListsOk(s: State) {
    && |s.lists| == CLASSES
    && (forall c :: 0 <= c < CLASSES ==> Distinct(s.lists[c]))
    && (forall c, b :: 0 <= c < CLASSES && b in s.lists[c] ==> b in s.pages && s.pages[b].owner == c)
    && (forall b :: b in s.pages ==> s.pages[b].owner < CLASSES && b in s.lists[s.pages[b].owner])
  }

  /** The bytes from the count page to the end of a large allocation. */
  ghost predicate LargeShape(p: Addr, n: nat) {
    Aligned(p) && n >= 2 && PAGE_SIZE < p && p - PAGE_SIZE + n * PAGE_SIZE <= U32
  }

  ghost predicate PageApart(b: Addr, p: Addr, n: nat) {
    b + PAGE_SIZE <= p - PAGE_SIZE || p - PAGE_SIZE + n * PAGE_SIZE <= b
  }

  ghost predicate LargeApart(p: Addr, n: nat, q: Addr, k: nat) {
    p - PAGE_SIZE + n * PAGE_SIZE <= q - PAGE_SIZE || q - PAGE_SIZE + k * PAGE_SIZE <= p - PAGE_SIZE
  }

  ghost predicate LargeOk(s: State) {
    && (forall p :: p in s.large ==> LargeShape(p, s.large[p]) && p in s.mem && |s.mem[p]| == (s.large[p] - 1) * PAGE_SIZE)
    && (forall b, p :: b in s.pages && p in s.large ==> PageApart(b, p, s.large[p]))
    && (forall p, q :: p in s.large && q in s.large && p != q ==> LargeApart(p, s.large[p], q, s.large[q]))
  }

  ghost predicate Ok(s: State) {
    SlabsOk(s) && ListsOk(s) && LargeOk(s)
  }

  /** Every page kept has a live object. */
  ghost predicate NoEmptyPage(s: State) {
    forall b :: b in s.pages ==> s.pages[b].used > 0
  }

  /** Handed out and not given back. */
  ghost predicate Live(s: State, a: Addr) {
    || a in s.large
    || (PageBase(a) in s.pages && PageBase(a) in s.free && IsSlot(PageBase(a), s.pages[PageBase(a)].owner, a)
        && a !in s.free[PageBase(a)])
  }

  /** How many bytes an allocation has room for. */
  ghost function Capacity(s: State, a: Addr): nat
    requires Live(s, a)
  {
    if a in s.large then (if s.large[a] == 0 then 0 else (s.large[a] - 1) * PAGE_SIZE) else Size(s.pages[PageBase(a)].owner)
  }

  lemma LiveHeld(s: State, a: Addr)
    requires Ok(s) && Live(s, a)
    ensures a in s.mem && |s.mem[a]| == Capacity(s, a) && a != 0
    ensures a in s.large <==> Aligned(a)
  {
    if a !in s.large { SlotHome(PageBase(a), s.pages[PageBase(a)].owner, a); }
  }

  /** The slots of one page are separate. */
  lemma SamePageApart(p: Addr, c: nat, a: Addr, b: Addr)
    requires IsSlot(p, c, a) && IsSlot(p, c, b) && a < b
    ensures a + Size(c) <= b
  {
    var j: nat :| j < Slots(c) && a == Slot(p, c, j);
    var k: nat :| k < Slots(c) && b == Slot(p, c, k);
    hide Slots, Size;
    if j < k { SlotsApart(p, c, j, k); }
    if k < j { SlotsApart(p, c, k, j); }
    hide Slot;
  }

  /** A slab object lies inside its page. */
  lemma SlotWithin(s: State, a: Addr)
    requires Ok(s) && Live(s, a) && a !in s.large
    ensures var b := PageBase(a);
            && b in s.pages && Aligned(b) && IsSlot(b, s.pages[b].owner, a) && b < a
            && a + Capacity(s, a) <= b + PAGE_SIZE && Capacity(s, a) == Size(s.pages[b].owner)
  {
    hide IsSlot, PageBase, ListsOk, LargeOk;
    var b := PageBase(a);
    PageShape(b, s.pages[b], s.mem, s.free[b]);
    SlotHome(b, s.pages[b].owner, a);
  }

  /** Live allocations occupy separate memory. */
  lemma LiveApart(s: State, a: Addr, b: Addr)
    requires Ok(s) && Live(s, a) && Live(s, b) && a < b
    ensures a + Capacity(s, a) <= b
  {
    if a !in s.large { SlotWithin(s, a); }
    if b !in s.large { SlotWithin(s, b); }
    hide SlabsOk, ListsOk, IsSlot, Live, PageBase;
    if a !in s.large && b !in s.large {
      var c, d := PageBase(a), PageBase(b);
      if c == d {
        SamePageApart(c, s.pages[c].owner, a, b);
      } else {
        AlignedApart(c, d);
      }
    } else if a !in s.large {
      assert PageApart(PageBase(a), b, s.large[b]) && LargeShape(b, s.large[b]);
    } else if b !in s.large {
      assert PageApart(PageBase(b), a, s.large[a]) && LargeShape(a, s.large[a]);
    } else {
      assert LargeApart(a, s.large[a], b, s.large[b]) && LargeShape(b, s.large[b]) && LargeShape(a, s.large[a]);
    }
  }

  lemma AlignedApart(c: Addr, d: Addr)
    requires Aligned(c) && Aligned(d) && c != d
    ensures c + PAGE_SIZE <= d || d + PAGE_SIZE <= c
  {
  }

  // ---------------------------------------------------------------- what operations may do

  /** Exactly p was handed out; what others hold is untouched. */
  ghost predicate Gained(s: State, s': State, p: Addr) {
    && !Live(s, p) && Live(s', p)
    && (forall a :: a != p ==> (Live(s, a) <==> Live(s', a)))
    && (forall a :: Live(s, a) ==> a in s.mem && a in s'.mem && s'.mem[a] == s.mem[a])
    && (forall a :: Live(s, a) ==> Live(s', a) && Capacity(s', a) == Capacity(s, a))
  }

  /** Exactly p was given back; what others hold is untouched. */
  ghost predicate Lost(s: State, s': State, p: Addr) {
    Gained(s', s, p)
  }

  // ---------------------------------------------------------------- steps on one page

  ghost function Popped(s: State, b: Addr): State
    requires b in s.pages && b in s.free && s.free[b] != []
  {
    var pg, fl := s.pages[b], s.free[b];
    s.(pages := s.pages[b := Page(pg.owner, Nth(fl, 1), pg.used + 1)], free := s.free[b := fl[1..]])
  }

  lemma PoppedOk(s: State, b: Addr)
    requires Ok(s) && b in s.pages && s.free[b] != []
    ensures var a := s.pages[b].head; var pg := s.pages[b];
            && a == s.free[b][0] && a in s.mem && |s.mem[a]| == Size(pg.owner)
            && s.mem[a][WORD..] == Poison(Size(pg.owner) - WORD) && Decode(s.mem[a][..WORD]) == Nth(s.free[b], 1)
    ensures Ok(Popped(s, b)) && Gained(s, Popped(s, b), s.pages[b].head) && s.pages[b].head != 0
    ensures Capacity(Popped(s, b), s.pages[b].head) == Size(s.pages[b].owner)
  {
    PoppedSlabs(s, b);
    PoppedLists(s, b);
    PoppedLive(s, b);
    hide SlabsOk, ListsOk, PageOk, Live, IsSlot;
  }

  lemma PoppedSlabs(s: State, b: Addr)
    requires SlabsOk(s) && b in s.pages && s.free[b] != []
    ensures SlabsOk(Popped(s, b)) && s.pages[b].head == s.free[b][0]
    ensures var a := s.pages[b].head; var pg := s.pages[b];
            && a in s.mem && |s.mem[a]| == Size(pg.owner) && a != 0
            && s.mem[a][WORD..] == Poison(Size(pg.owner) - WORD) && Decode(s.mem[a][..WORD]) == Nth(s.free[b], 1)
  {
    PopOk(b, s.pages[b], s.mem, s.free[b]);
    PopNext(b, s.pages[b], s.mem, s.free[b]);
    hide PageOk;
  }

  lemma PopNext(b: Addr, pg: Page, mem: Memory, fl: seq<Addr>)
    requires PageOk(b, pg, mem, fl) && fl != []
    ensures fl[0] in mem && |mem[fl[0]]| >= WORD && Decode(mem[fl[0]][..WORD]) == Nth(fl, 1)
  {
    FreeAt(b, pg, mem, fl, 0);
    PopChain(b, pg.owner, pg.head, mem, fl);
    assert FreeContent(Nth(fl, 1), pg.owner)[..WORD] == Encode(Nth(fl, 1));
    DecodeOfEncode(Nth(fl, 1));
  }

  lemma PoppedLists(s: State, b: Addr)
    requires ListsOk(s) && LargeOk(s) && b in s.pages && b in s.free && s.free[b] != []
    ensures ListsOk(Popped(s, b)) && LargeOk(Popped(s, b))
  {
  }

  lemma PoppedHead(s: State, b: Addr)
    requires Ok(s) && b in s.pages && s.free[b] != []
    ensures var a := s.free[b][0];
            && PageBase(a) == b && IsSlot(b, s.pages[b].owner, a) && a !in s.large && a !in s.free[b][1..]
            && !Live(s, a) && Live(Popped(s, b), a) && Capacity(Popped(s, b), a) == Size(s.pages[b].owner)
  {
    hide PageOk, IsSlot, PageBase, LargeShape, PageApart, LargeApart, ListsOk;
    var a, fl, pg := s.free[b][0], s.free[b], s.pages[b];
    FreeAt(b, pg, s.mem, fl, 0);
    PageShape(b, pg, s.mem, fl);
    SlotHome(b, pg.owner, a);
    HeadOnce(fl);
    if a in s.large { LargeAligned(s, a); }
    hide LargeOk, SlabsOk;
  }

  lemma PageShape(b: Addr, pg: Page, mem: Memory, fl: seq<Addr>)
    requires PageOk(b, pg, mem, fl)
    ensures Aligned(b) && 0 < b && b + PAGE_SIZE <= U32 && pg.owner < CLASSES && Distinct(fl)
  {
  }

  lemma HeadOnce(fl: seq<Addr>)
    requires Distinct(fl) && fl != []
    ensures fl[0] !in fl[1..] && fl[0] in fl
  {
    assert forall i :: 0 <= i < |fl| - 1 ==> fl[1..][i] == fl[i + 1];
  }

  lemma LargeAligned(s: State, p: Addr)
    requires LargeOk(s) && p in s.large
    ensures Aligned(p) && s.large[p] >= 2
  {
    assert LargeShape(p, s.large[p]);
  }

  lemma InTail(fl: seq<Addr>, x: Addr)
    requires fl != [] && x != fl[0]
    ensures x in fl <==> x in fl[1..]
  {
    assert fl == [fl[0]] + fl[1..];
  }

  lemma PoppedAt(s: State, b: Addr, x: Addr)
    requires Ok(s) && b in s.pages && s.free[b] != [] && x != s.free[b][0]
    ensures Live(s, x) <==> Live(Popped(s, b), x)
    ensures Live(s, x) ==> Capacity(Popped(s, b), x) == Capacity(s, x) && x in s.mem
  {
    hide PageOk, IsSlot, PageBase, ListsOk, LargeOk;
    InTail(s.free[b], x);
    if Live(s, x) { LiveHeld(s, x); }
    hide SlabsOk;
  }

  lemma PoppedLive(s: State, b: Addr)
    requires Ok(s) && b in s.pages && s.free[b] != []
    ensures Gained(s, Popped(s, b), s.free[b][0])
    ensures Capacity(Popped(s, b), s.free[b][0]) == Size(s.pages[b].owner)
  {
    PoppedHead(s, b);
    forall x | x != s.free[b][0]
      ensures Live(s, x) <==> Live(Popped(s, b), x)
      ensures Live(s, x) ==> Capacity(Popped(s, b), x) == Capacity(s, x) && x in s.mem
    {
      PoppedAt(s, b, x);
    }
    hide Live, Capacity, Ok;
  }

  // ---- giving a slot back

  ghost function Pushed(s: State, b: Addr, a: Addr): State
    requires b in s.pages && b in s.free && s.pages[b].used > 0 && s.pages[b].head < U32
  {
    var pg := s.pages[b];
    s.(pages := s.pages[b := Page(pg.owner, a, pg.used - 1)], free := s.free[b := [a] + s.free[b]],
       mem := s.mem[a := FreeContent(pg.head, pg.owner)])
  }

  ghost predicate LiveSlot(s: State, b: Addr, a: Addr) {
    b in s.pages && b in s.free && PageBase(a) == b && IsSlot(b, s.pages[b].owner, a) && a !in s.free[b] && a !in s.large
  }

  lemma LiveSlotUsed(s: State, b: Addr, a: Addr)
    requires SlabsOk(s) && LiveSlot(s, b, a)
    ensures s.pages[b].used > 0 && s.pages[b].head < U32
  {
    PushOk(b, s.pages[b], s.mem, s.free[b], a);
  }

  lemma PushedSlabs(s: State, b: Addr, a: Addr)
    requires SlabsOk(s) && LiveSlot(s, b, a) && s.pages[b].used > 0 && s.pages[b].head < U32
    ensures SlabsOk(Pushed(s, b, a))
  {
    hide PageOk, PageBase, IsSlot, FreeContent;
    var s' := Pushed(s, b, a);
    PushOk(b, s.pages[b], s.mem, s.free[b], a);
    forall d | d in s'.pages && d != b ensures d in s'.free && PageOk(d, s'.pages[d], s'.mem, s'.free[d]) {
      PageFrame(d, s.pages[d], s.mem, s'.mem, s.free[d]);
    }
  }

  lemma PushedRest(s: State, b: Addr, a: Addr)
    requires ListsOk(s) && LargeOk(s) && LiveSlot(s, b, a) && s.pages[b].used > 0 && s.pages[b].head < U32
    ensures ListsOk(Pushed(s, b, a)) && LargeOk(Pushed(s, b, a))
  {
    hide FreeContent, LargeShape, PageApart, LargeApart, IsSlot, PageBase;
  }

  lemma PushedAt(s: State, b: Addr, a: Addr, x: Addr)
    requires Ok(s) && LiveSlot(s, b, a) && s.pages[b].used > 0 && s.pages[b].head < U32
    ensures Live(s, a) && !Live(Pushed(s, b, a), a)
    ensures x != a ==> (Live(s, x) <==> Live(Pushed(s, b, a), x))
    ensures Live(Pushed(s, b, a), x) ==>
              && x != a && Live(s, x) && Capacity(Pushed(s, b, a), x) == Capacity(s, x)
              && x in s.mem && x in Pushed(s, b, a).mem && Pushed(s, b, a).mem[x] == s.mem[x]
  {
    hide PageOk, IsSlot, PageBase, ListsOk, LargeOk, FreeContent;
    if Live(s, x) { LiveHeld(s, x); }
    if x != a { InTail([a] + s.free[b], x); assert ([a] + s.free[b])[1..] == s.free[b]; }
    hide SlabsOk;
  }

  /** slab_free up to the page it may leave empty. */
  lemma PushedOk(s: State, b: Addr, a: Addr)
    requires Ok(s) && LiveSlot(s, b, a)
    ensures s.pages[b].used > 0 && s.pages[b].head < U32
    ensures Ok(Pushed(s, b, a)) && Lost(s, Pushed(s, b, a), a)
  {
    hide Live, Capacity, PageOk, IsSlot, Pushed;
    LiveSlotUsed(s, b, a);
    PushedSlabs(s, b, a);
    PushedRest(s, b, a);
    hide SlabsOk, ListsOk, LargeOk, LiveSlot;
    PushedLost(s, b, a);
  }

  lemma PushedLost(s: State, b: Addr, a: Addr)
    requires Ok(s) && LiveSlot(s, b, a) && s.pages[b].used > 0 && s.pages[b].head < U32
    ensures Lost(s, Pushed(s, b, a), a)
  {
    hide Live, Capacity, Ok, Pushed;
    var s' := Pushed(s, b, a);
    forall x
      ensures Live(s, a) && !Live(s', a)
      ensures x != a ==> (Live(s, x) <==> Live(s', x))
      ensures Live(s', x) ==> x != a && Live(s, x) && Capacity(s', x) == Capacity(s, x)
      ensures Live(s', x) ==> x in s.mem && x in s'.mem && s'.mem[x] == s.mem[x]
    {
      PushedAt(s, b, a, x);
    }
  }

  // ---- giving an empty page back

  ghost function DroppedPage(s: State, b: Addr): State
    requires b in s.pages && s.pages[b].owner < |s.lists|
  {
    var c := s.pages[b].owner;
    s.(pages := s.pages - {b}, lists := s.lists[c := Remove(s.lists[c], b)], free := s.free - {b},
       mem := map a | a in s.mem && PageBase(a) != b :: s.mem[a])
  }

  lemma EmptyHasNoLive(s: State, b: Addr, x: Addr)
    requires SlabsOk(s) && b in s.pages && s.pages[b].used == 0 && IsSlot(b, s.pages[b].owner, x)
    ensures x in s.free[b]
  {
    if x !in s.free[b] { PushOk(b, s.pages[b], s.mem, s.free[b], x); }
  }

  lemma DroppedSlabs(s: State, b: Addr)
    requires Ok(s) && b in s.pages
    ensures SlabsOk(DroppedPage(s, b))
  {
    var s' := DroppedPage(s, b);
    forall d | d in s'.pages ensures d in s'.free && PageOk(d, s'.pages[d], s'.mem, s'.free[d]) {
      PageFrame(d, s.pages[d], s.mem, s'.mem, s.free[d]);
    }
    hide PageOk, PageBase, ListsOk, LargeOk, Remove;
  }

  lemma DroppedLists(s: State, b: Addr)
    requires ListsOk(s) && b in s.pages
    ensures ListsOk(DroppedPage(s, b))
  {
    RemoveFacts(s.lists[s.pages[b].owner], b);
    hide PageBase, Remove, Distinct;
  }

  lemma LargeNotInPage(s: State, b: Addr, p: Addr)
    requires SlabsOk(s) && LargeOk(s) && b in s.pages && p in s.large
    ensures PageBase(p) != b
  {
    assert PageOk(b, s.pages[b], s.mem, s.free[b]);
    assert PageApart(b, p, s.large[p]) && LargeShape(p, s.large[p]);
  }

  lemma DroppedLarge(s: State, b: Addr)
    requires SlabsOk(s) && LargeOk(s) && b in s.pages && s.pages[b].owner < |s.lists|
    ensures LargeOk(DroppedPage(s, b))
  {
    forall p | p in s.large ensures PageBase(p) != b { LargeNotInPage(s, b, p); }
    hide PageBase, LargeShape, PageApart, LargeApart, SlabsOk, Remove;
  }

  lemma DroppedAt(s: State, b: Addr, x: Addr)
    requires Ok(s) && b in s.pages && s.pages[b].used == 0
    ensures Live(s, x) <==> Live(DroppedPage(s, b), x)
    ensures Live(s, x) ==>
              && Capacity(DroppedPage(s, b), x) == Capacity(s, x)
              && x in s.mem && x in DroppedPage(s, b).mem && DroppedPage(s, b).mem[x] == s.mem[x]
  {
    hide PageOk, ListsOk, LargeOk, Remove, SlabsOk;
    if x in s.large { LargeNotInPage(s, b, x); }
    if IsSlot(b, s.pages[b].owner, x) { EmptyHasNoLive(s, b, x); }
    if Live(s, x) { LiveHeld(s, x); }
    hide IsSlot, PageBase;
  }

  ghost predicate Kept(s: State, s': State) {
    && (forall a :: Live(s, a) <==> Live(s', a))
    && (forall a :: Live(s, a) ==> a in s.mem && a in s'.mem && s'.mem[a] == s.mem[a])
    && (forall a :: Live(s, a) ==> Live(s', a) && Capacity(s', a) == Capacity(s, a))
  }

  lemma DroppedOk(s: State, b: Addr)
    requires Ok(s) && b in s.pages && s.pages[b].used == 0
    ensures Ok(DroppedPage(s, b)) && Kept(s, DroppedPage(s, b))
  {
    DroppedSlabs(s, b);
    DroppedLists(s, b);
    DroppedLarge(s, b);
    forall x
      ensures Live(s, x) <==> Live(DroppedPage(s, b), x)
      ensures Live(s, x) ==>
              && Capacity(DroppedPage(s, b), x) == Capacity(s, x)
              && x in s.mem && x in DroppedPage(s, b).mem && DroppedPage(s, b).mem[x] == s.mem[x]
    {
      DroppedAt(s, b, x);
    }
    hide Live, Capacity, SlabsOk, ListsOk, LargeOk, DroppedPage;
  }

  // ---- new pages

  /** n pages from raw on that nothing uses. */
  ghost predicate FreshPages(s: State, raw: Addr, n: nat) {
    && Aligned(raw) && 0 < raw && raw + n * PAGE_SIZE <= U32
    && (forall b :: b in s.pages ==> b + PAGE_SIZE <= raw || raw + n * PAGE_SIZE <= b)
    && (forall p :: p in s.large ==> p - PAGE_SIZE + s.large[p] * PAGE_SIZE <= raw || raw + n * PAGE_SIZE <= p - PAGE_SIZE)
  }

  ghost function Grown(s: State, c: nat, raw: Addr, mem': Memory): State
    requires c < |s.lists|
  {
    s.(pages := s.pages[raw := Page(c, Slot(raw, c, 0), 0)], lists := s.lists[c := [raw] + s.lists[c]],
       free := s.free[raw := AllSlots(raw, c)], mem := mem')
  }

  ghost predicate SameElsewhere(mem: Memory, mem': Memory, raw: Addr) {
    forall a :: a in mem && PageBase(a) != raw ==> a in mem' && mem'[a] == mem[a]
  }

  ghost predicate CanGrow(s: State, c: nat, raw: Addr, mem': Memory) {
    Ok(s) && c < CLASSES && FreshPages(s, raw, 1) && Threaded(raw, c, mem') && SameElsewhere(s.mem, mem', raw)
  }

  lemma GrownSlabs(s: State, c: nat, raw: Addr, mem': Memory)
    requires CanGrow(s, c, raw, mem')
    ensures c < |s.lists| && raw !in s.pages && SlabsOk(Grown(s, c, raw, mem'))
  {
    hide PageOk, PageBase, LargeOk, Slot, AllSlots, Threaded;
    var s' := Grown(s, c, raw, mem');
    FreshOk(raw, c, mem');
    forall d | d in s'.pages && d != raw ensures d in s'.free && PageOk(d, s'.pages[d], s'.mem, s'.free[d]) {
      PageFrame(d, s.pages[d], s.mem, mem', s.free[d]);
    }
  }

  lemma GrownLists(s: State, c: nat, raw: Addr, mem': Memory)
    requires ListsOk(s) && c < CLASSES && raw !in s.pages
    ensures ListsOk(Grown(s, c, raw, mem'))
  {
    assert raw !in s.lists[c];
    InFront(raw, s.lists[c]);
    hide Slot, AllSlots, Distinct;
  }

  lemma InFront(x: Addr, l: seq<Addr>)
    requires Distinct(l) && x !in l
    ensures Distinct([x] + l) && forall y :: y in [x] + l <==> y == x || y in l
  {
    var w := [x] + l;
    assert forall i :: 1 <= i < |w| ==> w[i] == l[i - 1];
    assert forall i :: 0 <= i < |l| ==> w[i + 1] == l[i];
  }

  lemma LargeNotAt(s: State, raw: Addr, p: Addr)
    requires FreshPages(s, raw, 1) && LargeOk(s) && p in s.large
    ensures PageBase(p) != raw
  {
    assert LargeShape(p, s.large[p]) && PageApart(raw, p, s.large[p]);
  }

  lemma GrownLarge(s: State, c: nat, raw: Addr, mem': Memory)
    requires CanGrow(s, c, raw, mem') && c < |s.lists|
    ensures LargeOk(Grown(s, c, raw, mem'))
  {
    forall p | p in s.large ensures PageBase(p) != raw { LargeNotAt(s, raw, p); }
    hide PageBase, LargeShape, LargeApart, SlabsOk, ListsOk, PageApart, Slot, AllSlots, Threaded;
  }

  lemma GrownAt(s: State, c: nat, raw: Addr, mem': Memory, x: Addr)
    requires CanGrow(s, c, raw, mem') && c < |s.lists| && raw !in s.pages
    ensures var s' := Grown(s, c, raw, mem');
            && (Live(s, x) <==> Live(s', x))
            && (Live(s, x) ==> Capacity(s', x) == Capacity(s, x) && x in s.mem && x in s'.mem && s'.mem[x] == s.mem[x])
  {
    hide PageOk, ListsOk, LargeOk, SlabsOk, Slot, Slots, Threaded;
    if x in s.large { LargeNotAt(s, raw, x); }
    if Live(s, x) { LiveHeld(s, x); }
    if IsSlot(raw, c, x) { SlotListed(raw, c, x); }
    hide IsSlot, PageBase, AllSlots, FreshPages;
  }

  lemma SlotListed(b: Addr, c: nat, a: Addr)
    requires IsSlot(b, c, a)
    ensures a in AllSlots(b, c)
  {
    var k: nat :| k < Slots(c) && a == Slot(b, c, k);
    assert AllSlots(b, c)[k] == a;
  }

  lemma GrownKept(s: State, c: nat, raw: Addr, mem': Memory)
    requires CanGrow(s, c, raw, mem') && c < |s.lists| && raw !in s.pages
    ensures Kept(s, Grown(s, c, raw, mem'))
  {
    hide Live, Capacity, CanGrow, Grown;
    var s' := Grown(s, c, raw, mem');
    forall x
      ensures Live(s, x) <==> Live(s', x)
      ensures Live(s, x) ==> Capacity(s', x) == Capacity(s, x)
      ensures Live(s, x) ==> x in s.mem && x in s'.mem && s'.mem[x] == s.mem[x]
    {
      GrownAt(s, c, raw, mem', x);
    }
  }

  /** slab_grow and linking the page in front: nothing becomes live by it. */
  lemma GrownOk(s: State, c: nat, raw: Addr, mem': Memory)
    requires CanGrow(s, c, raw, mem')
    ensures c < |s.lists| && raw !in s.pages && Ok(Grown(s, c, raw, mem')) && Kept(s, Grown(s, c, raw, mem'))
  {
    GrownSlabs(s, c, raw, mem');
    GrownLists(s, c, raw, mem');
    GrownLarge(s, c, raw, mem');
    GrownKept(s, c, raw, mem');
    hide Kept, SlabsOk, ListsOk, LargeOk, Grown;
  }

  // ---- large allocations

  ghost function LargeAdded(s: State, p: Addr, n: nat, data: seq<byte>): State {
    s.(large := s.large[p := n], mem := s.mem[p := data])
  }

  ghost predicate CanAddLarge(s: State, p: Addr, n: nat, data: seq<byte>) {
    Ok(s) && n >= 2 && p >= PAGE_SIZE && FreshPages(s, p - PAGE_SIZE, n) && |data| == (n - 1) * PAGE_SIZE
  }

  lemma LargeAddedFacts(s: State, p: Addr, n: nat, data: seq<byte>)
    requires CanAddLarge(s, p, n, data)
    ensures LargeShape(p, n) && p !in s.large && PageBase(p) == p && p !in s.pages
    ensures (forall b :: b in s.pages ==> PageApart(b, p, n))
    ensures (forall q :: q in s.large ==> LargeApart(p, n, q, s.large[q]) && LargeApart(q, s.large[q], p, n))
  {
    hide SlabsOk, ListsOk;
    AlignedShift(p);
  }

  lemma AlignedShift(p: Addr)
    requires p >= PAGE_SIZE && Aligned(p - PAGE_SIZE)
    ensures Aligned(p) && PageBase(p) == p
  {
  }

  lemma LargeAddedSlabs(s: State, p: Addr, n: nat, data: seq<byte>)
    requires CanAddLarge(s, p, n, data)
    ensures SlabsOk(LargeAdded(s, p, n, data))
  {
    LargeAddedFacts(s, p, n, data);
    hide PageOk, PageBase, LargeOk, ListsOk, FreshPages;
    forall d | d in s.pages ensures d in s.free && PageOk(d, s.pages[d], s.mem[p := data], s.free[d]) {
      PageFrame(d, s.pages[d], s.mem, s.mem[p := data], s.free[d]);
    }
  }

  lemma LargeAddedAt(s: State, p: Addr, n: nat, data: seq<byte>, x: Addr)
    requires CanAddLarge(s, p, n, data)
    ensures var s' := LargeAdded(s, p, n, data);
            && !Live(s, p) && Live(s', p) && Capacity(s', p) == |data|
            && (x != p ==> (Live(s, x) <==> Live(s', x)))
            && (Live(s, x) ==> Live(s', x) && Capacity(s', x) == Capacity(s, x) && x in s.mem && x in s'.mem && s'.mem[x] == s.mem[x])
  {
    LargeAddedFacts(s, p, n, data);
    hide PageOk, LargeOk, ListsOk, SlabsOk, FreshPages;
    if Live(s, x) { LiveHeld(s, x); }
    hide PageBase, IsSlot;
  }

  lemma LargeAddedOk(s: State, p: Addr, n: nat, data: seq<byte>)
    requires CanAddLarge(s, p, n, data)
    ensures Ok(LargeAdded(s, p, n, data)) && Gained(s, LargeAdded(s, p, n, data), p)
    ensures Capacity(LargeAdded(s, p, n, data), p) == |data|
  {
    LargeAddedFacts(s, p, n, data);
    LargeAddedSlabs(s, p, n, data);
    LargeAddedAt(s, p, n, data, p);
    hide PageBase, LargeShape, LargeApart, SlabsOk, PageApart, FreshPages, Live, Capacity, ListsOk;
    var s' := LargeAdded(s, p, n, data);
    assert ListsOk(s') by { LargeAddedLists(s, p, n, data); }
    forall x
      ensures x != p ==> (Live(s, x) <==> Live(s', x))
      ensures Live(s, x) ==> Live(s', x) && Capacity(s', x) == Capacity(s, x) && x in s.mem && x in s'.mem && s'.mem[x] == s.mem[x]
    {
      LargeAddedAt(s, p, n, data, x);
    }
  }

  lemma LargeAddedLists(s: State, p: Addr, n: nat, data: seq<byte>)
    requires ListsOk(s)
    ensures ListsOk(LargeAdded(s, p, n, data))
  {
  }

  ghost function LargeGone(s: State, p: Addr): State {
    s.(large := s.large - {p}, mem := s.mem - {p})
  }

  lemma LargeGoneAt(s: State, p: Addr, x: Addr)
    requires Ok(s) && p in s.large
    ensures var s' := LargeGone(s, p);
            && Live(s, p) && !Live(s', p)
            && (x != p ==> (Live(s, x) <==> Live(s', x)))
            && (Live(s', x) ==> Live(s, x) && Capacity(s', x) == Capacity(s, x) && x in s.mem && x in s'.mem && s'.mem[x] == s.mem[x])
  {
    hide PageOk, ListsOk, LargeApart, PageApart;
    LargeBase(s, p);
    if Live(s, x) { LiveHeld(s, x); }
    hide PageBase, IsSlot, SlabsOk;
  }

  lemma LargeBase(s: State, p: Addr)
    requires SlabsOk(s) && LargeOk(s) && p in s.large
    ensures PageBase(p) !in s.pages && forall b :: b in s.pages ==> PageBase(p) != b
  {
    assert LargeShape(p, s.large[p]);
    forall b | b in s.pages ensures PageBase(p) != b { LargeNotInPage(s, b, p); }
  }

  lemma LargeGoneSlabs(s: State, p: Addr)
    requires Ok(s) && p in s.large
    ensures SlabsOk(LargeGone(s, p)) && ListsOk(LargeGone(s, p)) && LargeOk(LargeGone(s, p))
  {
    hide PageBase, LargeShape, LargeApart, PageApart, PageOk;
    LargeBase(s, p);
    var mem' := s.mem - {p};
    forall d | d in s.pages ensures d in s.free && PageOk(d, s.pages[d], mem', s.free[d]) {
      PageFrame(d, s.pages[d], s.mem, mem', s.free[d]);
    }
  }

  lemma LargeGoneOk(s: State, p: Addr)
    requires Ok(s) && p in s.large
    ensures Ok(LargeGone(s, p)) && Lost(s, LargeGone(s, p), p)
  {
    LargeGoneSlabs(s, p);
    hide Live, Capacity, LargeGone, SlabsOk, ListsOk, LargeOk;
    var s' := LargeGone(s, p);
    forall x
      ensures Live(s, p) && !Live(s', p)
      ensures x != p ==> (Live(s, x) <==> Live(s', x))
      ensures Live(s', x) ==> Live(s, x) && Capacity(s', x) == Capacity(s, x) && x in s.mem && x in s'.mem && s'.mem[x] == s.mem[x]
    {
      LargeGoneAt(s, p, x);
    }
  }
}
