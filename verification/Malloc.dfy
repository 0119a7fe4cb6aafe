/** The allocator's operations (kernel/arch/x86/slab.c:61-139, kernel/arch/x86/malloc.c:25-151), with
    page allocation answered from outside: raw is where it found room, or 0. */
module Malloc {
  import opened Basics
  import opened SlabPages
  import opened KernelHeap

  // ---------------------------------------------------------------- sizes

  /** Pages for a large allocation and the page in front of it, in 32-bit arithmetic. */
  function LargePages(size: nat): nat {
    ((size + PAGE_SIZE) % U32 + PAGE_SIZE - 1) % U32 / PAGE_SIZE
  }

  /** The sum wraps, and the block comes out too small, exactly for sizes within two pages of 4 GiB. */
  lemma LargePagesSuffice(size: nat)
    requires SLAB_MAX_SIZE < size < U32
    ensures LargePages(size) >= 2 && (LargePages(size) - 1) * PAGE_SIZE >= size <==> size <= U32 - 2 * PAGE_SIZE
    ensures size <= U32 - 2 * PAGE_SIZE ==> LargePages(size) >= 2 && size <= (LargePages(size) - 1) * PAGE_SIZE < size + PAGE_SIZE
  {
  }

  function PagesFor(size: nat): nat {
    if size <= SLAB_MAX_SIZE then 1 else LargePages(size)
  }

  /** A smallest cache whose objects are large enough. */
  ghost predicate BestClass(size: nat, c: nat) {
    c < CLASSES && size <= Size(c) && forall j :: 0 <= j < c ==> Size(j) < size
  }

  method FindClass(size: nat) returns (c: nat)
    requires size <= SLAB_MAX_SIZE
    ensures BestClass(size, c)
  {
    c := 0;
    while Size(c) < size
      invariant c < CLASSES && forall j :: 0 <= j < c ==> Size(j) < size
      decreases CLASSES - c
    {
      c := c + 1;
    }
  }

  /** The best cache has the smallest objects that are large enough. */
  lemma BestClassIsLeast(size: nat, c: nat, capacity: nat)
    requires BestClass(size, c)
    ensures (forall j :: 0 <= j < CLASSES && size <= Size(j) ==> capacity <= Size(j)) <==> capacity <= Size(c)
  {
  }

  // ---------------------------------------------------------------- putting steps together

  lemma KeptGained(s: State, s1: State, s2: State, p: Addr)
    requires Kept(s, s1) && Gained(s1, s2, p)
    ensures Gained(s, s2, p)
  {
    hide Live, Capacity;
  }

  lemma LostKept(s: State, s1: State, s2: State, p: Addr)
    requires Lost(s, s1, p) && Kept(s1, s2)
    ensures Lost(s, s2, p)
  {
    hide Live, Capacity;
  }

  /** A program writing into what it holds. */
  ghost function Written(s: State, a: Addr, data: seq<byte>): State {
    s.(mem := s.mem[a := data])
  }

  lemma WrittenOk(s: State, a: Addr, data: seq<byte>)
    requires Ok(s) && Live(s, a) && |data| == Capacity(s, a)
    ensures Ok(Written(s, a, data)) && (forall x :: Live(s, x) <==> Live(Written(s, a, data), x))
    ensures forall x :: Live(s, x) ==> Capacity(Written(s, a, data), x) == Capacity(s, x)
  {
    LiveHeld(s, a);
    WrittenSlabs(s, a, data);
    hide PageOk, ListsOk, IsSlot, PageBase, LargeShape, PageApart, LargeApart, SlabsOk;
    assert ListsOk(Written(s, a, data)) by { WrittenLists(s, a, data); }
  }

  lemma WrittenLists(s: State, a: Addr, data: seq<byte>)
    requires ListsOk(s)
    ensures ListsOk(Written(s, a, data))
  {
  }

  lemma WrittenSlabs(s: State, a: Addr, data: seq<byte>)
    requires Ok(s) && Live(s, a) && a in s.mem && |data| == |s.mem[a]|
    ensures SlabsOk(Written(s, a, data))
  {
    hide ListsOk, IsSlot;
    forall b | b in s.pages ensures b in s.free && PageOk(b, s.pages[b], s.mem[a := data], s.free[b]) {
      if b == PageBase(a) {
        if a in s.large { LargeNotInPage(s, b, a); }
        SlotWritten(b, s.pages[b], s.mem, s.free[b], a, data);
      } else {
        PageFrame(b, s.pages[b], s.mem, s.mem[a := data], s.free[b]);
      }
    }
  }

  lemma SlotWritten(b: Addr, pg: Page, mem: Memory, fl: seq<Addr>, a: Addr, data: seq<byte>)
    requires PageOk(b, pg, mem, fl) && a !in fl && a in mem && |data| == |mem[a]|
    ensures PageOk(b, pg, mem[a := data], fl)
  {
    hide IsSlot, FreeContent, Distinct;
    var mem' := mem[a := data];
    forall i | 0 <= i < |fl| ensures FreeSlot(b, pg.owner, mem', fl, i) { assert FreeSlot(b, pg.owner, mem, fl, i); }
  }

  function Least(a: nat, b: nat): nat {
    if a < b then a else b
  }

  /** The block is still the one to use: the same number of pages, or a slot that is large enough
      while those of no smaller cache are. */
  ghost predicate StillFits(s: State, ptr: Addr, size: nat)
    requires Live(s, ptr)
  {
    if Aligned(ptr) then ptr in s.large && s.large[ptr] == LargePages(size)
    else size <= Capacity(s, ptr) && forall c :: 0 <= c < CLASSES && size <= Size(c) ==> Capacity(s, ptr) <= Size(c)
  }

  /** A block that is still the one to use is large enough. */
  lemma StillFitsHolds(s: State, ptr: Addr, size: nat)
    requires Ok(s) && Live(s, ptr) && 0 < size <= U32 - 2 * PAGE_SIZE && StillFits(s, ptr, size)
    ensures size <= Capacity(s, ptr)
  {
    BlockFacts(s, ptr);
    PagesEnough(size);
    hide Ok, Live, Size, LargePages;
  }

  /** ptr was given back and r handed out instead with the first keep bytes of its contents; what
      others hold is untouched. */
  ghost predicate Moved(s: State, s': State, ptr: Addr, r: Addr, keep: nat) {
    && r != ptr && !Live(s, r) && Live(s', r) && Live(s, ptr) && !Live(s', ptr)
    && ptr in s.mem && r in s'.mem && keep <= |s.mem[ptr]| && keep <= |s'.mem[r]| && s'.mem[r][..keep] == s.mem[ptr][..keep]
    && (forall a :: a != r && a != ptr ==> (Live(s, a) <==> Live(s', a)))
    && (forall a :: a != ptr && Live(s, a) ==>
         Live(s', a) && Capacity(s', a) == Capacity(s, a) && a in s.mem && a in s'.mem && s'.mem[a] == s.mem[a])
  }

  lemma MovedBy(s: State, s1: State, s2: State, s3: State, ptr: Addr, r: Addr, keep: nat)
    requires Gained(s, s1, r) && Lost(s2, s3, ptr) && Live(s, ptr) && r in s1.mem && ptr in s1.mem
    requires keep <= |s1.mem[r]| && keep <= |s1.mem[ptr]|
    requires s2.mem == s1.mem[r := s1.mem[r][..0] + s1.mem[ptr][..keep] + s1.mem[r][keep..]]
    requires forall x :: Live(s1, x) <==> Live(s2, x)
    requires forall x :: Live(s1, x) ==> Live(s2, x) && Capacity(s2, x) == Capacity(s1, x)
    ensures Moved(s, s3, ptr, r, keep) && Live(s1, r) && Live(s3, r) && Capacity(s3, r) == Capacity(s1, r)
  {
    hide Live, Capacity;
    var now := s1.mem[r][..0] + s1.mem[ptr][..keep] + s1.mem[r][keep..];
    assert now[..keep] == s1.mem[ptr][..keep];
    assert s2.mem[r] == now;
  }

  lemma GainedLive(s: State, s1: State, r: Addr, ptr: Addr)
    requires Gained(s, s1, r) && Live(s, ptr) && Ok(s) && Ok(s1)
    ensures r != ptr && Live(s1, r) && Live(s1, ptr) && Capacity(s1, ptr) == Capacity(s, ptr)
    ensures ptr in s1.mem && |s1.mem[ptr]| == Capacity(s, ptr) && r in s1.mem && |s1.mem[r]| == Capacity(s1, r)
  {
    LiveHeld(s1, r);
    LiveHeld(s1, ptr);
    hide Ok, Live, Capacity;
  }

  /** How the operations read a block's capacity from its address. */
  lemma BlockFacts(s: State, ptr: Addr)
    requires Ok(s) && Live(s, ptr)
    ensures Aligned(ptr) ==> ptr in s.large && s.large[ptr] >= 2 && Capacity(s, ptr) == s.large[ptr] * PAGE_SIZE - PAGE_SIZE
    ensures !Aligned(ptr) ==> PageBase(ptr) in s.pages && Capacity(s, ptr) == Size(s.pages[PageBase(ptr)].owner)
  {
    LiveHeld(s, ptr);
    if ptr in s.large { assert LargeShape(ptr, s.large[ptr]); }
    hide PageOk, IsSlot, PageBase;
  }

  lemma PagesEnough(size: nat)
    requires 0 < size <= U32 - 2 * PAGE_SIZE
    ensures (LargePages(size) - 1) * PAGE_SIZE >= size
  {
  }

  lemma SizeBound(c: nat)
    ensures Size(c) <= SLAB_MAX_SIZE
  {
  }

  // ---------------------------------------------------------------- where a slot comes from

  /** No page of cache c has a free slot. */
  ghost predicate Full(s: State, c: nat) {
    c < |s.lists| && forall b :: b in s.lists[c] ==> b in s.pages && s.pages[b].head == 0
  }

  /** The i-th page listed for cache c is the first that has a free slot, and a is its first one. */
  ghost predicate FirstRoom(s: State, c: nat, i: nat, a: Addr) {
    && c < |s.lists| && i < |s.lists[c]|
    && (forall j :: 0 <= j < i ==> s.lists[c][j] in s.pages && s.pages[s.lists[c][j]].head == 0)
    && s.lists[c][i] in s.pages && s.pages[s.lists[c][i]].head == a && a != 0
  }

  /** A cache is full exactly when every slot of its pages is live. */
  lemma FullIsAllLive(s: State, c: nat)
    requires Ok(s) && c < CLASSES
    ensures Full(s, c) <==> forall b, a :: b in s.lists[c] && IsSlot(b, c, a) ==> Live(s, a)
  {
    if Full(s, c) {
      forall b, a | b in s.lists[c] && IsSlot(b, c, a) ensures Live(s, a) { FullPageIsLive(s, c, b, a); }
    } else {
      var b :| b in s.lists[c] && !(b in s.pages && s.pages[b].head == 0);
      FreeSlotIsDead(s, c, b);
    }
  }

  lemma FullPageIsLive(s: State, c: nat, b: Addr, a: Addr)
    requires Ok(s) && c < CLASSES && b in s.lists[c] && b in s.pages && s.pages[b].head == 0 && IsSlot(b, c, a)
    ensures Live(s, a)
  {
    assert PageOk(b, s.pages[b], s.mem, s.free[b]) && s.pages[b].owner == c;
    SlotHome(b, c, a);
    PageIsOk(s, b);
    ListAt(s, b, 0);
    hide PageOk, IsSlot, PageBase;
  }

  lemma FreeSlotIsDead(s: State, c: nat, b: Addr)
    requires Ok(s) && c < CLASSES && b in s.lists[c] && b in s.pages && s.pages[b].head != 0
    ensures IsSlot(b, c, s.pages[b].head) && !Live(s, s.pages[b].head)
  {
    assert PageOk(b, s.pages[b], s.mem, s.free[b]) && s.pages[b].owner == c;
    PageIsOk(s, b);
    ListAt(s, b, 0);
    FreeAt(b, s.pages[b], s.mem, s.free[b], 0);
    assert FreeSlot(b, c, s.mem, s.free[b], 0);
    SlotHome(b, c, s.pages[b].head);
    SlotOf(s, b, s.pages[b].head);
    hide PageOk, IsSlot, PageBase;
  }

  /** Where slab_alloc finds a slot: the first one of the first page that has any; only if none has,
      the first one of a new page, if there is a page to be had. */
  ghost predicate SlotAnswer(s: State, c: nat, raw: Addr, r: Addr) {
    if Full(s, c) then r == if raw == 0 then 0 else raw + 16 else exists i: nat :: FirstRoom(s, c, i, r)
  }

  /** What malloc answers for a size that is not 0. */
  ghost predicate Answer(s: State, size: nat, raw: Addr, r: Addr) {
    if size <= SLAB_MAX_SIZE then forall c: nat :: BestClass(size, c) ==> SlotAnswer(s, c, raw, r)
    else r == if raw == 0 then 0 else raw + PAGE_SIZE
  }

  lemma RoomAnswers(s: State, c: nat, i: nat, raw: Addr, a: Addr)
    requires FirstRoom(s, c, i, a)
    ensures s.pages[s.lists[c][i]].head == a != 0 && !Full(s, c) && SlotAnswer(s, c, raw, a)
  {
  }

  lemma FullAnswers(s: State, c: nat, raw: Addr)
    requires Full(s, c)
    ensures SlotAnswer(s, c, raw, if raw == 0 then 0 else raw + 16)
  {
  }

  lemma ClassFits(size: nat, c: nat)
    requires BestClass(size, c)
    ensures c < CLASSES && size <= Size(c)
  {
  }

  lemma OneBestClass(size: nat, c: nat)
    requires BestClass(size, c)
    ensures forall d: nat :: BestClass(size, d) ==> d == c
    ensures Size(c) == 16 || Size(c) < 2 * size
  {
    if c > 0 { assert Size(c - 1) < size; }
  }

  lemma PoppedKeeps(s: State, b: Addr)
    requires b in s.pages && b in s.free && s.free[b] != []
    requires forall d :: d in s.pages && d != b ==> s.pages[d].used > 0
    ensures Popped(s, b).pages.Keys == s.pages.Keys && Popped(s, b).lists == s.lists && NoEmptyPage(Popped(s, b))
  {
  }

  // ---------------------------------------------------------------- the operations

  class Heap {
    var pages: map<Addr, Page>
    var lists: seq<seq<Addr>>
    var mem: Memory
    var large: map<Addr, nat>
    ghost var free: map<Addr, seq<Addr>>

    ghost function S(): State
      reads this
    {
      State(pages, lists, mem, large, free)
    }

    ghost predicate Valid()
      reads this
    {
      Ok(S()) && NoEmptyPage(S())
    }

    constructor ()
      ensures Valid() && forall a :: !Live(S(), a)
    {
      pages, lists, mem, large, free := map[], [[], [], [], [], [], []], map[], map[], map[];
    }

    // ---- slab.c

    /** Writes the free list through a new page. */
    method ThreadPage(c: nat, raw: Addr)
      requires c < CLASSES && Aligned(raw) && 0 < raw && raw + PAGE_SIZE <= U32
      modifies `mem
      ensures Threaded(raw, c, mem) && SameElsewhere(old(mem), mem, raw)
    {
      hide Size, Slots, FreeContent, AllSlots, FreeSlot, Slot, PageBase, Aligned, IsSlot;
      ghost var fl: seq<Addr> := AllSlots(raw, c);
      AllSlotsDistinct(raw, c);
      SlotsInPage(raw, c);
      var size, maxSlots := Size(c), Slots(c);
      var current := Slot(raw, c, 0);
      for i := 0 to maxSlots - 1
        invariant current == Slot(raw, c, i) && SameElsewhere(old(mem), mem, raw)
        invariant forall j :: 0 <= j < i ==> FreeSlot(raw, c, mem, fl, j)
      {
        NextSlot(raw, c, i);
        ghost var was := mem;
        var next := current + size;
        assert fl[i] == current && fl[i + 1] == next;
        mem := mem[current := FreeContent(next, c)];
        LinkStep(raw, c, was, mem, fl, i);
        current := next;
      }
      ghost var was := mem;
      assert fl[maxSlots - 1] == current;
      mem := mem[current := FreeContent(0, c)];
      LinkStep(raw, c, was, mem, fl, maxSlots - 1);
    }

    /** Makes a new page for cache c and links it in front of the cache's list. */
    method SlabGrow(c: nat, raw: Addr)
      requires Ok(S()) && c < CLASSES && FreshPages(S(), raw, 1)
      modifies this
      ensures |old(lists)| == CLASSES && raw !in old(pages) && S() == Grown(old(S()), c, raw, mem) && Ok(S()) && Kept(old(S()), S())
    {
      ghost var s := S();
      FreshFacts(s, raw);
      OkLists(s);
      hide Ok, FreshPages, Kept, Grown, AllSlots, Slot, Threaded, SameElsewhere;
      ThreadPage(c, raw);
      GrownOk(s, c, raw, mem);
      GrownIs(s, c, raw, mem);
      pages := pages[raw := Page(c, Slot(raw, c, 0), 0)];
      lists := lists[c := [raw] + lists[c]];
      free := free[raw := AllSlots(raw, c)];
    }

    method PoisonIntact(a: Addr, c: nat) returns (ok: bool)
      requires a in mem && |mem[a]| == Size(c)
      ensures ok <==> mem[a][WORD..] == Poison(Size(c) - WORD)
    {
      hide Size;
      var payload := mem[a][WORD..];
      for i := 0 to |payload|
        invariant forall j :: 0 <= j < i ==> payload[j] == POISON
      {
        if payload[i] != POISON {
          assert Poison(Size(c) - WORD)[i] == POISON;
          return false;
        }
      }
      return true;
    }

    /** Takes the first slot off the free list of page b. */
    method PopSlot(b: Addr) returns (crashed: bool, ptr: Addr)
      requires Ok(S()) && b in pages && b in free && free[b] != []
      modifies `pages, `free
      ensures !crashed && S() == Popped(old(S()), b) && ptr == old(pages[b].head)
    {
      hide Ok, Gained, Live, Size, Poison, Popped, Capacity, Decode;
      PopFacts(S(), b);
      var pg := pages[b];
      ptr := pg.head;
      var ok := PoisonIntact(ptr, pg.owner);
      crashed := !ok;
      if crashed { return; }
      var next := Decode(mem[ptr][..WORD]);
      pages := pages[b := Page(pg.owner, next, pg.used + 1)];
      free := free[b := free[b][1..]];
    }

    /** The place of the first page of cache c with a free slot, or the length of the list. */
    method FindRoom(c: nat) returns (i: nat)
      requires Ok(S()) && c < CLASSES
      ensures |lists| == CLASSES && i <= |lists[c]|
      ensures i < |lists[c]| ==> lists[c][i] in pages && FirstRoom(S(), c, i, pages[lists[c][i]].head)
      ensures i == |lists[c]| ==> Full(S(), c)
    {
      OkLists(S());
      hide Ok;
      i := 0;
      while i < |lists[c]| && HeadOf(lists[c][i]) == 0
        modifies {}
        invariant i <= |lists[c]|
        invariant forall j :: 0 <= j < i ==> lists[c][j] in pages && pages[lists[c][j]].head == 0
      {
        ListedPage(S(), c, lists[c][i]);
        i := i + 1;
      }
      if i < |lists[c]| { ListedPage(S(), c, lists[c][i]); }
    }

    /** The first free slot of the first listed page that has one; only if none has, a new page is
        made, which can fail, and its first slot handed out. */
    method SlabAlloc(c: nat, raw: Addr) returns (crashed: bool, ptr: Addr)
      requires Valid() && c < CLASSES && (raw != 0 ==> FreshPages(S(), raw, 1))
      modifies this
      ensures Valid() && !crashed
      ensures ptr == 0 ==> S() == old(S())
      ensures ptr != 0 ==> Gained(old(S()), S(), ptr) && Capacity(S(), ptr) == Size(c)
      ensures ptr == 0 <==> raw == 0 && Full(old(S()), c)
      ensures SlotAnswer(old(S()), c, raw, ptr)
      ensures !Full(old(S()), c) ==> pages.Keys == old(pages).Keys && lists == old(lists)
      ensures Full(old(S()), c) && raw != 0 ==>
                && pages.Keys == old(pages).Keys + {raw}
                && |old(lists)| == CLASSES && lists == old(lists)[c := [raw] + old(lists)[c]]
    {
      ghost var s := S();
      hide Gained, Live, Kept, FreshPages, Size, Ok, Capacity, Full, FirstRoom, SlotAnswer, Popped, Grown;
      var i := FindRoom(c);
      var b := raw;
      if i < |lists[c]| {
        b := lists[c][i];
        ListedPage(s, c, b);
        KeptSame(s);
        RoomAnswers(s, c, i, raw, pages[b].head);
      } else {
        FullAnswers(s, c, raw);
        if raw == 0 { return false, 0; }
        SlabGrow(c, raw);
        NewPage(s, c, raw, mem);
      }
      ghost var s1 := S();
      PoppedOk(s1, b);
      PoppedKeeps(s1, b);
      crashed, ptr := PopSlot(b);
      KeptGained(s, s1, S(), ptr);
    }

    /** Whether a is on the free list of page b. */
    method OnFreeList(b: Addr, a: Addr) returns (found: bool)
      requires Ok(S()) && b in pages && b in free && a != 0
      ensures found <==> a in free[b]
    {
      PageIsOk(S(), b);
      hide PageOk, Ok, Decode, IsSlot;
      ghost var fl: seq<Addr> := free[b];
      var current := pages[b].head;
      ghost var i := 0;
      while current != 0
        invariant i <= |fl| && current == Nth(fl, i) && a !in fl[..i]
        decreases |fl| - i
      {
        ListAt(S(), b, i);
        if current == a { return true; }
        current := Decode(mem[current][..WORD]);
        i := i + 1;
        assert fl[..i] == fl[..i - 1] + [fl[i - 1]];
      }
      ListAt(S(), b, i);
      assert fl[..i] == fl;
      return false;
    }

    /** Poisons slot a and links it in front of the free list of page b. */
    method PushSlot(b: Addr, a: Addr)
      requires b in pages && b in free && pages[b].used > 0 && pages[b].head < U32
      modifies `mem, `pages, `free
      ensures S() == Pushed(old(S()), b, a)
    {
      PushFacts(S(), b, a);
      hide Pushed, Size, FreeContent, Poison, Encode;
      var pg := pages[b];
      mem := mem[a := Poison(Size(pg.owner))];
      mem := mem[a := Encode(pg.head) + mem[a][WORD..]];
      assert mem == old(mem)[a := FreeContent(pg.head, pg.owner)];
      pages := pages[b := Page(pg.owner, a, pg.used - 1)];
      free := free[b := [a] + free[b]];
    }

    /** Gives slot a back; a slot already on the free list of its page is reported instead. */
    method SlabFree(a: Addr) returns (crashed: bool)
      requires Valid() && PageBase(a) in pages && IsSlot(PageBase(a), pages[PageBase(a)].owner, a)
      modifies this
      ensures Valid() && crashed == !Live(old(S()), a)
      ensures if crashed then S() == old(S()) else Lost(old(S()), S(), a)
      ensures !crashed ==>
                var pg := old(pages)[PageBase(a)];
                if pg.used == 1 then pages == old(pages) - {PageBase(a)}
                else pg.used > 1 && pages == old(pages)[PageBase(a) := Page(pg.owner, a, pg.used - 1)]
    {
      ghost var s := S();
      var b := PageBase(a);
      hide Ok, Lost, Live, IsSlot, PageBase, DroppedPage, Kept, Pushed;
      SlotOf(s, b, a);
      crashed := OnFreeList(b, a);
      if crashed { return; }
      PushedOk(s, b, a);
      PushedPages(s, b, a);
      PushSlot(b, a);
      ghost var s1 := S();
      if pages[b].used == 0 {
        DroppedOk(s1, b);
        DroppedPages(s1, b);
        DropPage(b);
        LostKept(s, s1, S(), a);
        assert pages == s.pages - {b};
      }
    }

    /** Unlinks an empty page from its cache's list and returns it. */
    method DropPage(b: Addr)
      requires Ok(S()) && b in pages && pages[b].owner < |lists|
      modifies this
      ensures S() == DroppedPage(old(S()), b)
    {
      ghost var s := S();
      hide Ok, PageBase;
      var c := pages[b].owner;
      var l := lists[c];
      var i := 0;
      while i < |l| && l[i] != b
        invariant i <= |l| && b !in l[..i]
      {
        assert l[..i + 1] == l[..i] + [l[i]];
        i := i + 1;
      }
      if i < |l| {
        assert forall j :: 0 <= j < i ==> l[j] == l[..i][j];
        RemoveAt(l, i);
        lists := lists[c := l[..i] + l[i + 1..]];
      } else {
        assert l[..i] == l;
        RemoveAbsent(l, b);
        assert lists[c := l] == lists;
      }
      pages := pages - {b};
      free := free - {b};
      mem := map a | a in mem && PageBase(a) != b :: mem[a];
    }

    // ---- malloc.c

    /** size bytes: a slot of the best cache, or whole pages behind one that keeps their number. */
    method Alloc(size: nat, raw: Addr) returns (crashed: bool, ptr: Addr)
      requires Valid() && size <= U32 - 2 * PAGE_SIZE && (raw != 0 ==> FreshPages(S(), raw, PagesFor(size)))
      modifies this
      ensures Valid() && !crashed
      ensures ptr == 0 ==> S() == old(S()) && (size == 0 || raw == 0)
      ensures ptr != 0 ==> size > 0 && Gained(old(S()), S(), ptr) && size <= Capacity(S(), ptr)
      ensures ptr != 0 && size <= SLAB_MAX_SIZE ==> exists c :: BestClass(size, c) && Capacity(S(), ptr) == Size(c)
      ensures ptr != 0 && size <= SLAB_MAX_SIZE ==> Capacity(S(), ptr) == 16 || Capacity(S(), ptr) < 2 * size
      ensures ptr != 0 && size > SLAB_MAX_SIZE ==> Capacity(S(), ptr) < size + PAGE_SIZE
      ensures ptr != 0 && size > SLAB_MAX_SIZE ==> ptr in mem && forall i :: 0 <= i < |mem[ptr]| ==> mem[ptr][i] == 0
      ensures size > 0 ==> Answer(old(S()), size, raw, ptr)
      ensures pages.Keys == old(pages).Keys
              || (0 < size <= SLAB_MAX_SIZE && forall c: nat :: BestClass(size, c) ==> Full(old(S()), c))
    {
      hide Ok, Live, Gained, FreshPages, Capacity, Size, Full, SlotAnswer, BestClass;
      if size == 0 { return false, 0; }
      if size <= SLAB_MAX_SIZE {
        var c := FindClass(size);
        OneBestClass(size, c);
        ClassFits(size, c);
        crashed, ptr := SlabAlloc(c, raw);
        return;
      }
      LargePagesSuffice(size);
      var n := LargePages(size);
      if raw == 0 { return false, 0; }
      ghost var s := S();
      ptr := raw + PAGE_SIZE;
      var data := Zeros((n - 1) * PAGE_SIZE);
      LargeAddedOk(s, ptr, n, data);
      large := large[ptr := n];
      mem := mem[ptr := data];
      assert S() == LargeAdded(s, ptr, n, data);
      return false, ptr;
    }

    /** An aligned address is a large allocation, any other one a slot. */
    method Free(ptr: Addr) returns (crashed: bool)
      requires Valid() && (ptr == 0 || Live(S(), ptr))
      modifies this
      ensures Valid() && !crashed
      ensures if ptr == 0 then S() == old(S()) else Lost(old(S()), S(), ptr)
    {
      hide Ok, Lost, FreshPages, Capacity, Size, IsSlot;
      if ptr == 0 { return false; }
      ghost var s := S();
      LiveHeld(s, ptr);
      if Aligned(ptr) {
        LargeGoneOk(s, ptr);
        large := large - {ptr};
        mem := mem - {ptr};
        assert S() == LargeGone(s, ptr);
        return false;
      }
      crashed := SlabFree(ptr);
    }

    /** A program writing into what it was handed. */
    method Write(ptr: Addr, offset: nat, data: seq<byte>)
      requires Valid() && Live(S(), ptr) && offset + |data| <= Capacity(S(), ptr)
      modifies `mem
      ensures Valid() && ptr in old(mem) && |old(mem[ptr])| == Capacity(old(S()), ptr)
      ensures mem == old(mem)[ptr := old(mem[ptr])[..offset] + data + old(mem[ptr])[offset + |data|..]]
      ensures forall x :: Live(old(S()), x) <==> Live(S(), x)
      ensures forall x :: Live(old(S()), x) ==> Live(S(), x) && Capacity(S(), x) == Capacity(old(S()), x)
    {
      hide Ok, Live, Capacity;
      ghost var s := S();
      LiveHeld(s, ptr);
      var now := mem[ptr][..offset] + data + mem[ptr][offset + |data|..];
      WrittenOk(s, ptr, now);
      mem := mem[ptr := now];
      assert S() == Written(s, ptr, now);
    }

    /** Keeps the block when it is still the right size for it, and otherwise moves its contents. */
    method Realloc(ptr: Addr, size: nat, raw: Addr) returns (crashed: bool, r: Addr)
      requires Valid() && (ptr == 0 || Live(S(), ptr))
      requires size <= U32 - 2 * PAGE_SIZE && (raw != 0 ==> FreshPages(S(), raw, PagesFor(size)))
      modifies this
      ensures Valid() && !crashed
      ensures ptr == 0 ==> if r == 0 then S() == old(S()) else Gained(old(S()), S(), r) && size <= Capacity(S(), r)
      ensures ptr != 0 && size == 0 ==> r == 0 && Lost(old(S()), S(), ptr)
      ensures ptr != 0 && size > 0 ==>
                if r == 0 then S() == old(S()) && raw == 0 && !StillFits(old(S()), ptr, size)
                else if StillFits(old(S()), ptr, size) then r == ptr && S() == old(S())
                else Moved(old(S()), S(), ptr, r, Least(Capacity(old(S()), ptr), size)) && size <= Capacity(S(), r)
      ensures size > 0 && (ptr == 0 || !StillFits(old(S()), ptr, size)) ==> Answer(old(S()), size, raw, r)
    {
      hide Answer, Ok, Live, Gained, Lost, FreshPages, Capacity, Size, Moved, Written;
      if ptr == 0 {
        crashed, r := Alloc(size, raw);
        return;
      }
      if size == 0 {
        crashed := Free(ptr);
        return crashed, 0;
      }
      ghost var s := S();
      BlockFacts(s, ptr);
      var oldSize: nat;
      if Aligned(ptr) {
        oldSize := large[ptr] * PAGE_SIZE - PAGE_SIZE;
        var newPages := LargePages(size);
        PagesEnough(size);
        if newPages == large[ptr] { return false, ptr; }
      } else {
        oldSize := Size(pages[PageBase(ptr)].owner);
        if size <= oldSize {
          SizeBound(pages[PageBase(ptr)].owner);
          var c := FindClass(size);
          BestClassIsLeast(size, c, oldSize);
          if !(Size(c) < oldSize) { return false, ptr; }
        }
      }
      assert oldSize == Capacity(s, ptr);
      crashed, r := Alloc(size, raw);
      if r == 0 { return; }
      ghost var s1 := S();
      GainedLive(s, s1, r, ptr);
      var copySize := if oldSize < size then oldSize else size;
      var data := mem[ptr][..copySize];
      Write(r, 0, data);
      ghost var s2 := S();
      crashed := Free(ptr);
      MovedBy(s, s1, s2, S(), ptr, r, copySize);
    }

    function HeadOf(b: Addr): Addr
      reads this
    {
      if b in pages then pages[b].head else 0
    }
  }

  lemma PageIsOk(s: State, b: Addr)
    requires Ok(s) && b in s.pages
    ensures b in s.free && s.pages[b].head == Nth(s.free[b], 0)
  {
    assert PageOk(b, s.pages[b], s.mem, s.free[b]);
    hide IsSlot, FreeContent;
  }

  /** The i-th link of a page's free list. */
  lemma ListAt(s: State, b: Addr, i: nat)
    requires Ok(s) && b in s.pages && b in s.free && i <= |s.free[b]|
    ensures Nth(s.free[b], i) != 0 <==> i < |s.free[b]|
    ensures i < |s.free[b]| ==>
      var x := s.free[b][i];
      x in s.mem && |s.mem[x]| >= WORD && Decode(s.mem[x][..WORD]) == Nth(s.free[b], i + 1)
  {
    hide IsSlot, ListsOk, LargeOk, PageOk, FreeContent;
    assert PageOk(b, s.pages[b], s.mem, s.free[b]);
    if i < |s.free[b]| {
      FreeAt(b, s.pages[b], s.mem, s.free[b], i);
      FreeContentLink(Nth(s.free[b], i + 1), s.pages[b].owner);
    }
  }

  lemma FreeContentLink(next: Addr, c: nat)
    requires next < U32
    ensures Decode(FreeContent(next, c)[..WORD]) == next
    ensures FreeContent(next, c) == Encode(next) + Poison(Size(c))[WORD..]
  {
    DecodeOfEncode(next);
    assert FreeContent(next, c)[..WORD] == Encode(next);
  }

  lemma SlotOf(s: State, b: Addr, a: Addr)
    requires Ok(s) && b == PageBase(a) && b in s.pages && IsSlot(b, s.pages[b].owner, a)
    ensures b in s.free && a != 0 && a !in s.large && s.pages[b].owner < |s.lists|
    ensures Live(s, a) <==> a !in s.free[b]
    ensures a !in s.free[b] ==> LiveSlot(s, b, a)
  {
    assert PageOk(b, s.pages[b], s.mem, s.free[b]);
    SlotHome(b, s.pages[b].owner, a);
    hide PageOk, IsSlot, PageBase;
  }

  lemma PushFacts(s: State, b: Addr, a: Addr)
    requires b in s.pages && b in s.free && s.pages[b].used > 0 && s.pages[b].head < U32
    ensures Pushed(s, b, a) == State(s.pages[b := Page(s.pages[b].owner, a, s.pages[b].used - 1)], s.lists,
                                     s.mem[a := FreeContent(s.pages[b].head, s.pages[b].owner)], s.large, s.free[b := [a] + s.free[b]])
    ensures |Poison(Size(s.pages[b].owner))| >= WORD
    ensures FreeContent(s.pages[b].head, s.pages[b].owner) == Encode(s.pages[b].head) + Poison(Size(s.pages[b].owner))[WORD..]
  {
    FreeContentLink(s.pages[b].head, s.pages[b].owner);
    hide FreeContent, Encode;
  }

  lemma PushedPages(s: State, b: Addr, a: Addr)
    requires b in s.pages && b in s.free && s.pages[b].used > 0 && s.pages[b].head < U32 && NoEmptyPage(s)
    ensures b in Pushed(s, b, a).pages && Pushed(s, b, a).pages[b].owner == s.pages[b].owner
    ensures Pushed(s, b, a).lists == s.lists
    ensures Pushed(s, b, a).pages == s.pages[b := Page(s.pages[b].owner, a, s.pages[b].used - 1)]
    ensures forall d :: d in Pushed(s, b, a).pages && d != b ==> Pushed(s, b, a).pages[d].used > 0
  {
    hide FreeContent;
  }

  lemma DroppedPages(s: State, b: Addr)
    requires b in s.pages && s.pages[b].owner < |s.lists|
    requires forall d :: d in s.pages && d != b ==> s.pages[d].used > 0
    ensures NoEmptyPage(DroppedPage(s, b)) && DroppedPage(s, b).pages == s.pages - {b}
  {
    hide PageBase, Remove;
  }

  lemma PopFacts(s: State, b: Addr)
    requires Ok(s) && b in s.pages && b in s.free && s.free[b] != []
    ensures var a := s.pages[b].head; var pg := s.pages[b];
            && a in s.mem && |s.mem[a]| == Size(pg.owner) && s.mem[a][WORD..] == Poison(Size(pg.owner) - WORD)
            && Popped(s, b) == State(s.pages[b := Page(pg.owner, Decode(s.mem[a][..WORD]), pg.used + 1)], s.lists, s.mem, s.large,
                                     s.free[b := s.free[b][1..]])
  {
    hide PageOk, Poison, Decode, ListsOk, LargeOk, SlabsOk;
    PoppedSlabs(s, b);
  }

  lemma KeptSame(s: State)
    requires Ok(s)
    ensures Kept(s, s)
  {
    forall a | Live(s, a) ensures a in s.mem { LiveHeld(s, a); }
    hide Live, Capacity, Ok;
  }

  lemma ListedPage(s: State, c: nat, b: Addr)
    requires Ok(s) && c < CLASSES && |s.lists| == CLASSES && b in s.lists[c]
    ensures b in s.pages && b in s.free && s.pages[b].owner == c && (s.pages[b].head != 0 ==> s.free[b] != [])
  {
    assert PageOk(b, s.pages[b], s.mem, s.free[b]);
    hide IsSlot;
  }

  lemma NewPage(s: State, c: nat, raw: Addr, mem': Memory)
    requires c < |s.lists| && raw !in s.pages && NoEmptyPage(s)
    ensures var s' := Grown(s, c, raw, mem');
            && raw in s'.pages && raw in s'.free && s'.free[raw] != [] && s'.pages[raw].owner == c
            && s'.pages[raw].head == raw + 16 && s'.pages.Keys == s.pages.Keys + {raw}
            && s'.lists == s.lists[c := [raw] + s.lists[c]]
            && forall b :: b in s'.pages && b != raw ==> s'.pages[b].used > 0
  {
  }

  lemma FreshFacts(s: State, raw: Addr)
    requires FreshPages(s, raw, 1)
    ensures Aligned(raw) && 0 < raw && raw + PAGE_SIZE <= U32
  {
  }

  lemma GrownIs(s: State, c: nat, raw: Addr, mem': Memory)
    requires c < |s.lists|
    ensures Grown(s, c, raw, mem') ==
      State(s.pages[raw := Page(c, Slot(raw, c, 0), 0)], s.lists[c := [raw] + s.lists[c]], mem', s.large, s.free[raw := AllSlots(raw, c)])
  {
  }

  lemma OkLists(s: State)
    requires Ok(s)
    ensures |s.lists| == CLASSES
  {
  }

  lemma SlotsInPage(b: Addr, c: nat)
    requires Aligned(b)
    ensures |AllSlots(b, c)| == Slots(c)
    ensures forall i :: 0 <= i < Slots(c) ==> AllSlots(b, c)[i] == Slot(b, c, i) && PageBase(AllSlots(b, c)[i]) == b
    ensures forall i, j :: 0 <= i < j < Slots(c) ==> AllSlots(b, c)[i] != AllSlots(b, c)[j]
    ensures forall i :: 0 <= i < Slots(c) ==> AllSlots(b, c)[i] < b + PAGE_SIZE
  {
    forall i: nat | i < Slots(c) ensures PageBase(Slot(b, c, i)) == b && Slot(b, c, i) < b + PAGE_SIZE { SlotFacts(b, c, i); }
    forall i: nat, j: nat | i < j < Slots(c) ensures Slot(b, c, i) != Slot(b, c, j) { SlotsApart(b, c, i, j); }
    hide Slot, PageBase, Slots;
  }

  lemma NextSlot(b: Addr, c: nat, k: nat)
    ensures Slot(b, c, k) + Size(c) == Slot(b, c, k + 1)
  {
  }
}
