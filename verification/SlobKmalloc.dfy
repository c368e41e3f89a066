/**
 kmalloc and kfree of lab4/kern/mm/kmalloc.c on top of the SLOB heap: small blocks with a one-unit
 header, and big blocks of whole pages recorded on the `bigblocks` list.
 */
module SlobOrder {
  import opened Powers

  /** Conversion of a size_t argument to find_order's `int` parameter. */
  function ToInt(size: nat): (r: int)
    ensures (size - r) % 0x1_0000_0000 == 0
    ensures -0x8000_0000 <= r < 0x8000_0000
    ensures size < 0x8000_0000 ==> r == size
  {
    var low := size % 0x1_0000_0000;
    if low < 0x8000_0000 then low else low - 0x1_0000_0000
  }

  /** The least order whose right shift of `size` is at most 4096. */
  predicate IsOrder(size: int, order: nat) {
    size < 4097 * Pow2(order) && (order > 0 ==> 4097 * Pow2(order - 1) <= size)
  }

  method FindOrder(size: int) returns (order: nat)
    ensures IsOrder(size, order)
  {
    order := 0;
    var s := size;
    while s > 4096
      invariant Pow2(order) * s <= size < Pow2(order) * s + Pow2(order)
      invariant order > 0 ==> 4097 * Pow2(order - 1) <= size
    {
      ShiftStep(Pow2(order), s, size);
      s := s / 2;
      order := order + 1;
    }
    Scale(Pow2(order), s, 4096);
  }

  lemma ShiftStep(p: nat, s: int, size: int)
    requires s > 4096 && p * s <= size < p * s + p
    ensures (2 * p) * (s / 2) <= size < (2 * p) * (s / 2) + 2 * p
    ensures 4097 * p <= size
  {
    var h := s / 2;
    Scale(p, 4097, s);
    assert (2 * p) * h == p * (2 * h);
    assert s == 2 * h || s == 2 * h + 1;
    assert p * (2 * h + 1) == p * (2 * h) + p;
  }

  /** Sizes for which the order found is one too small for the request. */
  ghost predicate InGap(size: int) {
    exists j: nat :: 4096 * Pow2(j) < size < 4097 * Pow2(j)
  }

  lemma OrderUnique(size: int, a: nat, b: nat)
    requires IsOrder(size, a) && IsOrder(size, b)
    ensures a == b
  {
    if a < b {
      Pow2Monotone(a, b - 1);
    } else if b < a {
      Pow2Monotone(b, a - 1);
    }
  }

  /** The 1 << order pages of a big block hold the request exactly outside the gaps. */
  lemma OrderCapacity(size: int, order: nat)
    requires IsOrder(size, order)
    ensures size <= 4096 * Pow2(order) <==> !InGap(size)
  {
    if j: nat :| 4096 * Pow2(j) < size < 4097 * Pow2(j) {
      if j < order {
        Pow2Monotone(j, order - 1);
      } else {
        Pow2Monotone(order, j);
      }
    }
  }

  /** kmalloc's order comes from the truncated size, so a request of 2 GiB or more never fits. */
  lemma KmallocCapacity(size: nat, order: nat)
    requires IsOrder(ToInt(size), order)
    ensures size <= 4096 * Pow2(order) <==> size < 0x8000_0000 && !InGap(size)
  {
    if size < 0x8000_0000 {
      OrderCapacity(size, order);
    } else {
      TruncatedOrder(ToInt(size), order);
    }
  }

  lemma TruncatedOrder(size: int, order: nat)
    requires IsOrder(size, order) && size < 0x8000_0000
    ensures 4096 * Pow2(order) <= 0x8000_0000
    ensures size < 0 ==> order == 0
  {
    assert Pow2(19) == 0x8_0000 by {
      assert Pow2(10) == 0x400;
    }
    if order > 19 {
      Pow2Monotone(19, order - 1);
    } else {
      Pow2Monotone(order, 19);
    }
  }

  /** 8193 bytes get two pages, one byte too few. */
  lemma GapExample()
    ensures IsOrder(8193, 1) && 4096 * Pow2(1) < 8193
  {
  }
}

module SlobBig {
  import opened Sequences
  import opened Extents
  import opened SlobMemory
  import opened SlobAccount
  import opened SlobAlloc
  import opened Powers

  /** A descriptor as kmalloc fills it in: where it lives, and which pages it stands for. */
  datatype BigBlock = BigBlock(desc: int, order: nat, pages: int)

  ghost function Region(b: BigBlock): set<int> {
    PageRun(b.pages, Pow2(b.order))
  }

  ghost predicate IsDesc(bigs: seq<BigBlock>, b: int) {
    exists i :: 0 <= i < |bigs| && bigs[i].desc == b
  }

  ghost function HeadOf(bigs: seq<BigBlock>): int {
    if bigs == [] then 0 else bigs[0].desc
  }

  ghost predicate BigCell(mem: Memory, bigs: seq<BigBlock>, i: nat)
    requires i < |bigs|
  {
    && bigs[i].desc in mem
    && mem[bigs[i].desc] == Big(bigs[i].order, bigs[i].pages, HeadOf(bigs[i + 1..]))
  }

  /** Memory holds the descriptors as a list ending in NULL, and every other live block's header
      still tells its size. */
  ghost predicate Cells(mem: Memory, live: Live, bigs: seq<BigBlock>) {
    && (forall i :: 0 <= i < |bigs| ==> BigCell(mem, bigs, i))
    && (forall i :: 0 <= i < |bigs| ==> bigs[i].desc in live && live[bigs[i].desc] == 2 && bigs[i].desc != 0)
    && (forall i, j :: 0 <= i < j < |bigs| ==> bigs[i].desc != bigs[j].desc)
    && (forall b :: b in live && !IsDesc(bigs, b) ==> b in mem && mem[b].Slob? && mem[b].units == live[b])
  }

  /** The pages handed out are those of the heap and those of the big blocks, each once. */
  ghost predicate PagesOk(bigs: seq<BigBlock>, held: set<int>, pages: set<int>) {
    && (forall i :: 0 <= i < |bigs| ==> bigs[i].pages > 0 && bigs[i].pages % PAGE == 0)
    && (forall i :: 0 <= i < |bigs| ==> Region(bigs[i]) <= held && Region(bigs[i]) !! pages)
    && (forall i, j :: 0 <= i < j < |bigs| ==> Region(bigs[i]) !! Region(bigs[j]))
    && (forall p :: p in held ==> p in pages || exists i :: 0 <= i < |bigs| && p in Region(bigs[i]))
  }

  // ---------- cells ----------

  lemma CellsFrame(mem: Memory, mem': Memory, live: Live, bigs: seq<BigBlock>)
    requires Cells(mem, live, bigs) && LiveApart(live) && SameOn(mem, mem', LiveUnits(live))
    ensures Cells(mem', live, bigs)
  {
    hide LiveUnits;
    forall b | b in live ensures (b in mem <==> b in mem') && (b in mem ==> mem[b] == mem'[b]) {
      assert Owns(live, b, b);
    }
    forall i | 0 <= i < |bigs| ensures BigCell(mem', bigs, i) {
      assert BigCell(mem, bigs, i);
    }
  }

  lemma CellsNewBlock(mem: Memory, live: Live, bigs: seq<BigBlock>, r: int, units: int)
    requires Cells(mem, live, bigs) && r !in live
    requires r in mem && mem[r].Slob? && mem[r].units == units
    ensures Cells(mem, live[r := units], bigs)
  {
  }

  lemma CellsDropBlock(mem: Memory, live: Live, bigs: seq<BigBlock>, b: int)
    requires Cells(mem, live, bigs) && !IsDesc(bigs, b)
    ensures Cells(mem, live - {b}, bigs)
  {
  }

  /** A live block that is about to be freed may hold anything. */
  lemma CellsScratch(mem: Memory, live: Live, bigs: seq<BigBlock>, b: int, cell: Cell)
    requires Cells(mem, live, bigs) && !IsDesc(bigs, b)
    ensures Cells(mem[b := cell], live - {b}, bigs)
  {
    var m := mem[b := cell];
    forall i | 0 <= i < |bigs| ensures BigCell(m, bigs, i) {
      assert BigCell(mem, bigs, i);
    }
  }

  lemma DescCell(mem: Memory, live: Live, bigs: seq<BigBlock>, i: nat)
    requires Cells(mem, live, bigs) && i < |bigs|
    ensures BigCell(mem, bigs, i) && bigs[i].desc in live && live[bigs[i].desc] == 2 && bigs[i].desc != 0
  {
  }

  lemma NewIsNoDesc(mem: Memory, live: Live, bigs: seq<BigBlock>, b: int)
    requires Cells(mem, live, bigs) && b !in live
    ensures !IsDesc(bigs, b)
  {
  }

  lemma LiveNotFree(free: seq<Extent>, live: Live, pages: set<int>, arena: int, b: int)
    requires Accounted(free, live, pages, arena) && b in live
    ensures forall e :: e in free ==> e.addr != b
    ensures b != arena && b > 0
  {
    hide Cover, LiveUnits, Span;
    ArenaKept(free, live, pages, arena);
    assert Owns(live, b, b);
    assert b in PageUnits(pages);
    forall i | 0 <= i < |free| ensures free[i].addr != b {
      CoverHas(free, i);
      assert free[i].addr in Range(free[i]);
    }
  }

  lemma CellsPush(mem: Memory, live: Live, bigs: seq<BigBlock>, big: BigBlock)
    requires Cells(mem, live, bigs) && big.desc in live && live[big.desc] == 2 && big.desc != 0
    requires !IsDesc(bigs, big.desc)
    ensures Cells(mem[big.desc := Big(big.order, big.pages, HeadOf(bigs))], live, [big] + bigs)
  {
    var m := mem[big.desc := Big(big.order, big.pages, HeadOf(bigs))];
    var all := [big] + bigs;
    forall i | 0 <= i < |all| ensures BigCell(m, all, i) {
      assert all[i + 1..] == bigs[i..];
      if i > 0 { assert BigCell(mem, bigs, i - 1); }
    }
    forall b | b in live && !IsDesc(all, b) ensures b in m && m[b].Slob? && m[b].units == live[b] {
      assert all[0].desc == big.desc;
      forall i | 0 <= i < |bigs| ensures bigs[i].desc != b { assert all[i + 1] == bigs[i]; }
    }
  }

  ghost function UnlinkedMemory(mem: Memory, bigs: seq<BigBlock>, i: nat): Memory
    requires i < |bigs|
  {
    if i == 0 then mem
    else mem[bigs[i - 1].desc := Big(bigs[i - 1].order, bigs[i - 1].pages, HeadOf(bigs[i + 1..]))]
  }

  lemma UnlinkedCell(mem: Memory, live: Live, bigs: seq<BigBlock>, i: nat, j: nat)
    requires Cells(mem, live, bigs) && i < |bigs| && j + 1 < |bigs|
    ensures BigCell(UnlinkedMemory(mem, bigs, i), Without(bigs, i), j)
  {
    var rest := Without(bigs, i);
    assert BigCell(mem, bigs, if j < i then j else j + 1);
    if j + 1 < i {
      assert rest[j + 1] == bigs[j + 1];
    } else {
      assert rest[j + 1..] == bigs[j + 2..];
    }
  }

  /** Unlinking entry `i`: the head or the entry before it now points past it. */
  lemma CellsUnlink(mem: Memory, live: Live, bigs: seq<BigBlock>, i: nat)
    requires Cells(mem, live, bigs) && i < |bigs|
    ensures Cells(UnlinkedMemory(mem, bigs, i), live - {bigs[i].desc}, Without(bigs, i))
    ensures HeadOf(Without(bigs, i)) == if i == 0 then HeadOf(bigs[1..]) else HeadOf(bigs)
  {
    hide BigCell;
    var rest := Without(bigs, i);
    forall j | 0 <= j < |rest| ensures BigCell(UnlinkedMemory(mem, bigs, i), rest, j) {
      UnlinkedCell(mem, live, bigs, i, j);
    }
    forall b | b in live - {bigs[i].desc} && !IsDesc(rest, b) ensures !IsDesc(bigs, b) {
      forall h | 0 <= h < |bigs| ensures bigs[h].desc != b {
        if h != i { assert rest[if h < i then h else h - 1] == bigs[h]; }
      }
    }
  }

  // ---------- pages ----------

  lemma PagesGrow(bigs: seq<BigBlock>, held: set<int>, pages: set<int>, held': set<int>, pages': set<int>)
    requires PagesOk(bigs, held, pages) && GrewBy(pages, pages', held, held')
    ensures PagesOk(bigs, held', pages')
  {
    hide PageRun, Region;
    var q :| q !in held && pages' == pages + {q} && held' == held + {q};
  }

  lemma PagesPush(bigs: seq<BigBlock>, held: set<int>, pages: set<int>, big: BigBlock)
    requires PagesOk(bigs, held, pages) && pages <= held
    requires big.pages > 0 && big.pages % PAGE == 0 && Region(big) !! held
    ensures PagesOk([big] + bigs, held + Region(big), pages)
  {
    hide PageRun, Region;
    var all := [big] + bigs;
    forall i, j | 0 <= i < j < |all| ensures Region(all[i]) !! Region(all[j]) {
      assert Region(all[j]) <= held;
    }
    forall p | p in held + Region(big)
      ensures p in pages || exists i :: 0 <= i < |all| && p in Region(all[i])
    {
      if p in Region(big) {
        assert all[0] == big;
      } else if p !in pages {
        var i :| 0 <= i < |bigs| && p in Region(bigs[i]);
        assert all[i + 1] == bigs[i];
      }
    }
  }

  lemma PagesDrop(bigs: seq<BigBlock>, held: set<int>, pages: set<int>, i: nat)
    requires PagesOk(bigs, held, pages) && i < |bigs|
    ensures PagesOk(Without(bigs, i), held - Region(bigs[i]), pages)
    ensures Region(bigs[i]) <= held && Region(bigs[i]) !! pages
  {
    hide PageRun, Region;
    var rest := Without(bigs, i);
    var held' := held - Region(bigs[i]);
    forall j | 0 <= j < |rest| ensures Region(rest[j]) <= held' && Region(rest[j]) !! pages {
      var h := if j < i then j else j + 1;
      assert rest[j] == bigs[h];
      assert Region(bigs[h]) !! Region(bigs[i]);
    }
    forall p | p in held' ensures p in pages || exists j :: 0 <= j < |rest| && p in Region(rest[j]) {
      if p !in pages {
        var h :| 0 <= h < |bigs| && p in Region(bigs[h]);
        assert rest[if h < i then h else h - 1] == bigs[h];
      }
    }
  }

  /** Two big blocks never start at the same page. */
  lemma PagesDistinct(bigs: seq<BigBlock>, held: set<int>, pages: set<int>, i: nat, j: nat)
    requires PagesOk(bigs, held, pages) && i < |bigs| && j < |bigs| && bigs[i].pages == bigs[j].pages
    ensures i == j
  {
    assert bigs[i].pages in Region(bigs[i]);
    assert bigs[j].pages in Region(bigs[j]);
  }

  /** A small block of two or more units is never mistaken for a big block: if its payload starts a
      page, that page belongs to the heap. */
  lemma SmallIsNotBig(free: seq<Extent>, live: Live, pages: set<int>, arena: int,
                      bigs: seq<BigBlock>, held: set<int>, b: int, i: nat)
    requires Accounted(free, live, pages, arena) && PagesOk(bigs, held, pages)
    requires b in live && live[b] >= 2 && i < |bigs|
    ensures b + 1 != bigs[i].pages
  {
    hide Cover, LiveUnits, PageUnits, Span, Canonical, PagesOk;
    ArenaKept(free, live, pages, arena);
    assert Owns(live, b, b + 1);
    assert b + 1 in PageUnits(pages);
    if b + 1 == bigs[i].pages {
      BigPage(bigs, held, pages, i);
      AlignedUnit(pages, b + 1);
    }
  }

  lemma BigPage(bigs: seq<BigBlock>, held: set<int>, pages: set<int>, i: nat)
    requires PagesOk(bigs, held, pages) && i < |bigs|
    ensures bigs[i].pages % PAGE == 0 && bigs[i].pages !in pages && bigs[i].pages in held
  {
    assert bigs[i].pages in Region(bigs[i]);
  }

  lemma AlignedUnit(pages: set<int>, u: int)
    requires Aligned(pages) && u in PageUnits(pages) && u % PAGE == 0
    ensures u in pages
  {
    hide Span;
    var p :| p in pages && u in Span(p, PAGE);
  }
}

module SlobKmalloc {
  import opened Sequences
  import opened Requests
  import opened Extents
  import opened SlobMemory
  import opened SlobAccount
  import opened SlobAlloc
  import opened SlobOrder
  import opened Powers
  import opened SlobBig

  const DESCRIPTOR := 24

  datatype Outcome = Ok(ptr: int) | NoMemory | Panic

  /** Why a run ends early: kmalloc panicked, or a request of 0 bytes got the arena itself or led to one pointer
      standing for two blocks. */
  datatype Stop = Running | Panicked | ArenaTaken | Shared

  ghost predicate SmallClient(live: Live, bigs: seq<BigBlock>, p: int) {
    p - 1 in live && !IsDesc(bigs, p - 1)
  }

  ghost predicate BigClient(bigs: seq<BigBlock>, p: int) {
    exists i :: 0 <= i < |bigs| && bigs[i].pages == p
  }

  ghost predicate BigServed(bigs: seq<BigBlock>, mine: map<int, nat>, i: nat)
    requires i < |bigs|
  {
    bigs[i].pages in mine && IsOrder(ToInt(mine[bigs[i].pages]), bigs[i].order)
  }

  /** A block of `units`, one of them its header, has the bytes asked for and less than a unit more. */
  ghost predicate Enough(units: int, size: nat) {
    size <= UNIT * (units - 1) < size + UNIT
  }

  /** `mine` maps each pointer a client holds to the bytes it asked for: each stands for one small block with the units
      of that request or for one big block of its order, and no other block is in use but descriptors. */
  ghost predicate Serves(live: Live, bigs: seq<BigBlock>, mine: map<int, nat>) {
    && (forall p :: p in mine ==> SmallClient(live, bigs, p) != BigClient(bigs, p))
    && (forall p :: p in mine && SmallClient(live, bigs, p) ==> Enough(live[p - 1], mine[p]))
    && (forall b :: b in live && !IsDesc(bigs, b) ==> b + 1 in mine)
    && (forall i :: 0 <= i < |bigs| ==> BigServed(bigs, mine, i))
  }

  /** The units of the block behind a client's pointer, with its header. */
  ghost function UnitsOf(live: Live, bigs: seq<BigBlock>, p: int): set<int> {
    if SmallClient(live, bigs, p) then Span(p - 1, live[p - 1])
    else if BigClient(bigs, p) then
      var i :| 0 <= i < |bigs| && bigs[i].pages == p;
      PageUnits(Region(bigs[i]))
    else {}
  }

  /** What handing out the arena does to memory and list: nothing if it is alone on the list, on which it then stays. */
  ghost predicate LentFrom(m: Memory, s: seq<Extent>, rover: nat, slobfree: int, m': Memory, s': seq<Extent>,
                           arena: int) {
    && arena in m && m[arena].Slob? && slobfree in m && m[slobfree].Slob? && rover < |s|
    && (if m[arena].next == arena then m' == m && s' == s
        else
          && |s| >= 2 && s[Successor(rover, |s|)].addr == arena && s[Successor(rover, |s|)].len == 1
          && m' == TakenMemory(m, slobfree, arena, 1) && s' == Carve(s, Successor(rover, |s|), 1))
  }

  /** What slob_free of the arena, which is off the list, does to memory and list. */
  ghost predicate ReturnedFrom(m: Memory, s: seq<Extent>, m': Memory, s': seq<Extent>, slobfree: int, arena: int,
                               k: nat) {
    && Slot(s, arena, k) && k <= |s| && s != [] && slobfree == s[Before(k, |s|)].addr
    && slobfree in m && m[slobfree].Slob? && m[slobfree].next in m && m[m[slobfree].next].Slob?
    && m' == FreedMemory(m, slobfree, arena, 1)
    && Canonical(s) && Apart(s, Extent(arena, 1)) && s' == Release(s, Extent(arena, 1))
  }

  ghost predicate Returned(m: Memory, s: seq<Extent>, m': Memory, s': seq<Extent>, slobfree: int, arena: int) {
    exists k: nat :: ReturnedFrom(m, s, m', s', slobfree, arena, k)
  }

  /** Handing out the arena and freeing it again restores memory, list and rover. */
  lemma ArenaRestored(m: Memory, s: seq<Extent>, rover: nat, slobfree: int, m1: Memory, s1: seq<Extent>,
                      m2: Memory, s2: seq<Extent>, slobfree': int, arena: int)
    requires Canonical(s) && Linked(m, s) && ArenaAlone(s, arena) && rover < |s| && slobfree == s[rover].addr
    requires LentFrom(m, s, rover, slobfree, m1, s1, arena) && m[arena].next != arena
    requires Returned(m1, s1, m2, s2, slobfree', arena)
    ensures m2 == m && s2 == s && slobfree' == slobfree
  {
    hide Canonical, Linked, Cover, ArenaAlone, FreedMemory, TakenMemory, Carve, Slot, ArenaOut, Apart;
    var k: nat :| ReturnedFrom(m1, s1, m2, s2, slobfree', arena, k);
    ArenaBack(m, s, rover, arena);
    ArenaTakenList(m, s, rover, arena);
    SlotUnique(s1, arena, k, Successor(rover, |s|));
  }

  lemma SlotUnique(s: seq<Extent>, a: int, j: nat, k: nat)
    requires Slot(s, a, j) && Slot(s, a, k) && j <= |s| && k <= |s|
    ensures j == k
  {
    assert j < |s| ==> (s[j].addr < a <==> j < k);
    assert k < |s| ==> (s[k].addr < a <==> k < j);
  }

  class Kmalloc {
    const heap: SlobHeap
    var bigblocks: int
    ghost var bigs: seq<BigBlock>

    ghost predicate Valid()
      reads this, heap
    {
      && heap.HeapOk() && heap.arena > 0
      && bigblocks == HeadOf(bigs)
      && Cells(heap.mem, heap.live, bigs)
      && PagesOk(bigs, heap.held, heap.pages)
    }

    constructor (arena: int, supply: seq<int>)
      requires arena > 0
      ensures Valid() && fresh(heap)
      ensures heap.arena == arena && heap.supply == supply
      ensures heap.live == map[] && bigs == [] && heap.held == {} && Serves(heap.live, bigs, map[])
      ensures heap.free == [Extent(arena, 1)] && heap.mem == map[arena := Slob(1, arena)] && heap.slobfree == arena
    {
      heap := new SlobHeap(arena, supply);
      bigblocks := 0;
      bigs := [];
    }

    /** Everything but the cell of the live block `b`, which is about to be freed. */
    ghost predicate ValidExcept(b: int)
      reads this, heap
    {
      && heap.HeapOk() && heap.arena > 0
      && bigblocks == HeadOf(bigs)
      && Cells(heap.mem, heap.live - {b}, bigs)
      && PagesOk(bigs, heap.held, heap.pages)
    }

    /** The arena has been handed out; everything else is as in a valid heap. */
    ghost predicate Lent()
      reads this, heap
    {
      && heap.HeapLent() && heap.arena > 0
      && bigblocks == HeadOf(bigs)
      && Cells(heap.mem, heap.live, bigs)
      && PagesOk(bigs, heap.held, heap.pages)
    }

    /** Block `b` of `units` was taken from the first fit, in the list with a new page if there was none. */
    twostate predicate Placed(units: int, b: int)
      reads heap
    {
      if Fits(old(heap.free), units) then FirstFit(old(heap.free), old(heap.rover), units, b, heap.free, heap.slobfree)
      else
        && old(heap.supply) != []
        && FitAfterGrowth(old(heap.free), old(heap.supply)[0], units, b, heap.free, heap.slobfree)
    }

    twostate predicate ArenaLent()
      reads this, heap
    {
      && LentFrom(old(heap.mem), old(heap.free), old(heap.rover), old(heap.slobfree), heap.mem, heap.free, heap.arena)
      && (if old(heap.mem)[heap.arena].next == heap.arena then Valid() else Lent())
      && heap.slobfree == old(heap.slobfree) && heap.live == old(heap.live) && heap.pages == old(heap.pages)
      && heap.held == old(heap.held) && heap.supply == old(heap.supply) && bigs == old(bigs)
    }

    twostate predicate PagesGrewAtMostOne()
      reads this, heap
    {
      || (heap.pages == old(heap.pages) && heap.held == old(heap.held))
      || GrewBy(old(heap.pages), heap.pages, old(heap.held), heap.held)
    }

    /** At most one page, new to the heap, has joined it. */
    twostate predicate OnePageMore()
      reads this, heap
    {
      heap.pages == old(heap.pages) || exists q :: q !in old(heap.held) && heap.pages == old(heap.pages) + {q}
    }

    /** slob_alloc as kmalloc uses it. */
    method Block(size: int) returns (r: int)
      requires Valid() && 1 <= size && size + UNIT < PAGE_SIZE
      modifies heap
      ensures SlobUnits(size) == 1 ==>
                old(heap.slobfree) in old(heap.mem) && old(heap.mem)[old(heap.slobfree)].Slob?
                && r == old(heap.mem)[old(heap.slobfree)].next
      ensures TakesArena(old(heap.mem), old(heap.slobfree), heap.arena, SlobUnits(size)) ==> r == heap.arena
                                                                                             && ArenaLent()
      ensures !TakesArena(old(heap.mem), old(heap.slobfree), heap.arena, SlobUnits(size)) ==>
                && Valid() && (r != 0 ==> Placed(SlobUnits(size), r))
                && (Fits(old(heap.free), SlobUnits(size)) ==> heap.supply == old(heap.supply)
                                                              && heap.held == old(heap.held))
                && (!Fits(old(heap.free), SlobUnits(size)) && r != 0 ==>
                      && old(heap.supply) != [] && heap.supply == old(heap.supply)[1..]
                      && heap.held == old(heap.held) + {old(heap.supply)[0]})
                && (r == 0 <==> !Fits(old(heap.free), SlobUnits(size)) && !old(heap.PagesReady(1)))
                && (r == 0 ==> heap.live == old(heap.live) && heap.pages == old(heap.pages)
                               && heap.held == old(heap.held))
                && (r != 0 ==>
                      && r !in old(heap.live) && heap.live == old(heap.live)[r := SlobUnits(size)]
                      && PagesGrewAtMostOne())
                && heap.asked <= old(heap.asked) + 1
      ensures heap.asked >= old(heap.asked) && (r == 0 ==> heap.asked > old(heap.asked))
    {
      hide Canonical, Linked, Accounted, Cover, ArenaAlone, SameOn, Fits, FirstFit, Cells, PagesOk,
        LiveUnits, GrewBy, FitAfterGrowth, TakenMemory, Carve, ArenaOut, Apart;
      ghost var live, pages, held := heap.live, heap.pages, heap.held;
      LiveIsApart(heap.free, live, pages, heap.arena);
      r := heap.SlobAlloc(size);
      if !TakesArena(old(heap.mem), old(heap.slobfree), heap.arena, SlobUnits(size)) {
        CellsFrame(old(heap.mem), heap.mem, live, bigs);
        if r != 0 {
          CellsNewBlock(heap.mem, live, bigs, r, SlobUnits(size));
          if heap.pages != pages || heap.held != held {
            PagesGrow(bigs, held, pages, heap.held, heap.pages);
          }
        }
      } else if old(heap.mem)[heap.arena].next != heap.arena {
        LentCells(old(heap.mem), old(heap.free), old(heap.rover), live, pages, heap.arena, bigs);
      }
    }

    method FreeBlock(b: int, size: int)
      requires b in heap.live && ValidExcept(b) && size >= 0
      requires if size != 0 then SlobUnits(size) == heap.live[b]
               else b in heap.mem && heap.mem[b].Slob? && heap.mem[b].units == heap.live[b]
      modifies heap`mem, heap`slobfree, heap`free, heap`rover, heap`live
      ensures Valid() && heap.live == old(heap.live) - {b}
    {
      hide Canonical, Linked, Accounted, Cover, ArenaAlone, SameOn, SameOutside, Cells, PagesOk, Apart,
        LiveUnits, LiveApart, Span;
      AccountedFree(heap.free, heap.live, heap.pages, heap.arena, b);
      LiveNotFree(heap.free, heap.live, heap.pages, heap.arena, b);
      ghost var k;
      k := heap.SlobFree(b, size);
      heap.live := heap.live - {b};
      LiveUntouched(heap.free, heap.live, heap.pages, heap.arena, old(heap.mem), heap.mem);
      LiveIsApart(heap.free, heap.live, heap.pages, heap.arena);
      CellsFrame(old(heap.mem), heap.mem, heap.live, bigs);
    }

    /** The only request that can reach the static arena: kmalloc(0) with the arena first in line. */
    ghost predicate ArenaRequest(size: nat)
      reads heap
    {
      size == 0 && TakesArena(heap.mem, heap.slobfree, heap.arena, 1)
    }

    twostate predicate SmallAdded(size: nat, ptr: int)
      reads this, heap
    {
      && ptr - 1 !in old(heap.live)
      && heap.live == old(heap.live)[ptr - 1 := SlobUnits(size + UNIT)]
      && size <= UNIT * (heap.live[ptr - 1] - 1) < size + UNIT
      && bigs == old(bigs) && Placed(SlobUnits(size + UNIT), ptr - 1)
      && PagesGrewAtMostOne() && OnePageMore()
    }

    twostate predicate BigAdded(size: nat, ptr: int)
      reads this, heap
    {
      && |bigs| > 0 && bigs[1..] == old(bigs)
      && bigs[0].pages == ptr && IsOrder(ToInt(size), bigs[0].order)
      && bigs[0].desc !in old(heap.live) && heap.live == old(heap.live)[bigs[0].desc := 2]
      && Placed(2, bigs[0].desc) && |old(heap.supply)| >= (if Fits(old(heap.free), 2) then 1 else 2)
      && ptr == old(heap.supply)[if Fits(old(heap.free), 2) then 0 else 1]
      && Region(bigs[0]) !! old(heap.held)
      && heap.held - Region(bigs[0]) == old(heap.held) + (heap.pages - old(heap.pages))
      && OnePageMore()
    }

    /** The page allocator can serve a big block of `n` pages, after a page for its descriptor if there is no room for
        that in the heap. */
    ghost predicate BigReady(n: nat)
      reads heap
    {
      if Fits(heap.free, 2) then heap.PagesReady(n)
      else heap.PagesReady(1) && |heap.supply| >= 2
           && FreshRun(heap.supply[1], n, heap.held + {heap.supply[0]}, heap.arena)
    }

    method Kmalloc(size: nat) returns (r: Outcome)
      requires Valid()
      modifies this, heap
      ensures old(ArenaRequest(size)) ==> r == Ok(heap.arena + 1) && ArenaLent()
      ensures !old(ArenaRequest(size)) ==> Valid()
      ensures size == 0 ==>
                old(heap.slobfree) in old(heap.mem) && old(heap.mem)[old(heap.slobfree)].Slob?
                && r == Ok(old(heap.mem)[old(heap.slobfree)].next + 1)
      ensures r == Panic <==> 4064 <= size < 4080
      ensures r == Panic ==> unchanged(this) && unchanged(heap)
      ensures !old(ArenaRequest(size)) && r == NoMemory ==>
                heap.live == old(heap.live) && bigs == old(bigs) && OnePageMore()
      ensures !old(ArenaRequest(size)) && size < 4064 ==>
                (r == NoMemory <==> !Fits(old(heap.free), SlobUnits(size + UNIT)) && !old(heap.PagesReady(1)))
      ensures !old(ArenaRequest(size)) && r.Ok? && size < 4064 ==> SmallAdded(size, r.ptr)
      ensures size >= 4080 ==> forall order: nat :: IsOrder(ToInt(size), order) ==>
                                 (r == NoMemory <==> !old(BigReady(Pow2(order))))
      ensures r.Ok? && size >= 4080 ==> BigAdded(size, r.ptr)
      ensures heap.asked >= old(heap.asked) && (r == NoMemory ==> heap.asked > old(heap.asked))
    {
      hide FreshRun, Fits, FirstFit, FitAfterGrowth, ArenaLent;
      hide Canonical, Linked, Accounted, Cover, ArenaAlone, Cells, PagesOk, Pow2, PageRun, Region, IsDesc, IsOrder,
           ToInt;
      if size < PAGE_SIZE - UNIT {
        if !(size + UNIT + UNIT < PAGE_SIZE) {
          return Panic;
        }
        OneUnitFits(heap.free);
        var m := Block(size + UNIT);
        return if m != 0 then Ok(m + 1) else NoMemory;
      }
      assert SlobUnits(DESCRIPTOR) == 2;
      var bb := Block(DESCRIPTOR);
      if bb == 0 {
        return NoMemory;
      }
      NewIsNoDesc(old(heap.mem), old(heap.live), bigs, bb);
      r := KmallocBig(size, bb);
    }

    /** The rest of kmalloc once the descriptor `bb` has been allocated. */
    method KmallocBig(size: nat, bb: int) returns (r: Outcome)
      requires Valid() && bb in heap.live && heap.live[bb] == 2 && !IsDesc(bigs, bb)
      modifies this, heap
      ensures Valid() && heap.pages == old(heap.pages) && r != Panic && heap.asked == old(heap.asked) + 1
      ensures r == NoMemory ==> heap.live == old(heap.live) - {bb} && bigs == old(bigs)
      ensures forall order: nat :: IsOrder(ToInt(size), order) ==>
                (r == NoMemory <==> !old(heap.PagesReady(Pow2(order))))
      ensures r.Ok? ==> heap.free == old(heap.free) && heap.slobfree == old(heap.slobfree)
      ensures r.Ok? ==> old(heap.supply) != [] && r.ptr == old(heap.supply)[0]
      ensures r.Ok? ==>
                && |bigs| > 0 && bigs[1..] == old(bigs) && heap.live == old(heap.live)
                && bigs[0].pages == r.ptr && IsOrder(ToInt(size), bigs[0].order) && bigs[0].desc == bb
                && Region(bigs[0]) !! old(heap.held) && heap.held == old(heap.held) + Region(bigs[0])
    {
      hide Canonical, Linked, Accounted, Cover, ArenaAlone, Cells, PagesOk, Pow2, PageRun, IsDesc, IsOrder;
      LiveNotFree(heap.free, heap.live, heap.pages, heap.arena, bb);
      var order := FindOrder(ToInt(size));
      forall k: nat | IsOrder(ToInt(size), k) ensures k == order {
        OrderUnique(ToInt(size), k, order);
      }
      var pages := heap.GetFreePages(Pow2(order));
      ghost var big := BigBlock(bb, order, pages);
      if pages != 0 {
        CellsPush(heap.mem, heap.live, bigs, big);
        PagesPush(bigs, old(heap.held), heap.pages, big);
        LinkedFrame(heap.mem, heap.free, bb, Big(order, pages, bigblocks));
        heap.mem := heap.mem[bb := Big(order, pages, bigblocks)];
        bigblocks := bb;
        bigs := [big] + bigs;
        return Ok(pages);
      }
      CellsScratch(heap.mem, heap.live, bigs, bb, Big(order, pages, 0));
      LinkedFrame(heap.mem, heap.free, bb, Big(order, pages, 0));
      heap.mem := heap.mem[bb := Big(order, pages, 0)];
      FreeBlock(bb, DESCRIPTOR);
      return NoMemory;
    }

    // ---------- kfree ----------

    ghost predicate BigPtr(block: int)
      reads this
    {
      BigClient(bigs, block)
    }

    /** A pointer kmalloc returned for a small block. The block of kmalloc(0) has no unit behind its
        header, so its pointer may coincide with a big block's page. */
    ghost predicate SmallPtr(block: int)
      reads this, heap
    {
      && block - 1 in heap.live && !IsDesc(bigs, block - 1)
      && (heap.live[block - 1] >= 2 || !BigPtr(block))
    }

    /** The scan of kfree: the descriptor of `block` with the one before it, or NULL. */
    method FindBig(block: int) returns (bb: int, last: int, ghost i: nat)
      requires bigblocks == HeadOf(bigs) && Cells(heap.mem, heap.live, bigs)
      ensures bb == 0 ==> !BigPtr(block)
      ensures bb != 0 ==>
                && i < |bigs| && bigs[i].pages == block && bigs[i].desc == bb && BigCell(heap.mem, bigs, i)
                && last == if i == 0 then 0 else bigs[i - 1].desc
    {
      hide Canonical, Linked, Accounted, Cover, ArenaAlone, PagesOk;
      bb, last, i := bigblocks, 0, 0;
      assert bigs[0..] == bigs;
      while bb != 0
        invariant i <= |bigs| && bb == HeadOf(bigs[i..])
        invariant last == if i == 0 then 0 else bigs[i - 1].desc
        invariant forall j :: 0 <= j < i ==> bigs[j].pages != block
        decreases |bigs| - i
      {
        assert BigCell(heap.mem, bigs, i);
        if heap.mem[bb].pages == block {
          return;
        }
        last, bb, i := bb, heap.mem[bb].link, i + 1;
      }
    }

    /** Take descriptor `bb` off the list and give its pages back. */
    method DropBig(bb: int, last: int, ghost i: nat)
      requires Valid() && i < |bigs| && bigs[i].desc == bb
      requires last == if i == 0 then 0 else bigs[i - 1].desc
      modifies this, heap`mem, heap`held
      ensures ValidExcept(bb) && bb in heap.live && heap.live[bb] == 2
      ensures bigs == Without(old(bigs), i) && heap.held == old(heap.held) - Region(old(bigs)[i])
    {
      hide Canonical, Linked, Accounted, Cover, ArenaAlone, Cells, PagesOk, IsDesc, HeadOf, PageRun, Pow2;
      CellsUnlink(heap.mem, heap.live, bigs, i);
      PagesDrop(bigs, heap.held, heap.pages, i);
      DescCell(heap.mem, heap.live, bigs, i);
      if i > 0 {
        DescCell(heap.mem, heap.live, bigs, i - 1);
      }
      var cell := heap.mem[bb];
      if last == 0 {
        bigblocks := cell.link;
      } else {
        LiveNotFree(heap.free, heap.live, heap.pages, heap.arena, last);
        LinkedFrame(heap.mem, heap.free, last, heap.mem[last].(link := cell.link));
        heap.mem := heap.mem[last := heap.mem[last].(link := cell.link)];
      }
      heap.FreePages(cell.pages, Pow2(cell.order));
      bigs := Without(bigs, i);
    }

    /** The pointer to the arena, which kmalloc(0) has handed out: the arena is off the list, or alone on it. */
    ghost predicate ArenaHeld(block: int)
      reads this, heap
    {
      && block == heap.arena + 1
      && (Lent() || (Valid() && heap.slobfree == heap.arena && heap.arena in heap.mem
                     && heap.mem[heap.arena] == Slob(1, heap.arena)))
    }

    /** kfree. It does not return (`done` is false) exactly for the arena while that is alone on the list: the scan of
        slob_free then never ends. */
    method Kfree(block: int) returns (done: bool)
      requires ArenaHeld(block) || (Valid() && (block != 0 ==> SmallPtr(block) || BigPtr(block)))
      modifies this, heap
      ensures done ==> Valid()
      ensures heap.pages == old(heap.pages) && heap.asked == old(heap.asked)
      ensures block == 0 ==> done && heap.live == old(heap.live) && bigs == old(bigs) && heap.held == old(heap.held)
      ensures !old(ArenaHeld(block)) ==> done
      ensures block != 0 && !old(ArenaHeld(block)) && old(SmallPtr(block)) ==>
                heap.live == old(heap.live) - {block - 1} && bigs == old(bigs) && heap.held == old(heap.held)
      ensures block != 0 && !old(ArenaHeld(block)) && !old(SmallPtr(block)) ==>
                exists i :: 0 <= i < |old(bigs)| && old(bigs)[i].pages == block && BigRemoved(i)
      ensures old(ArenaHeld(block)) ==>
                && (done <==> ScanEnds(old(heap.mem), old(heap.slobfree), heap.arena))
                && (done <==> old(heap.slobfree) != heap.arena)
                && heap.live == old(heap.live) && bigs == old(bigs) && heap.held == old(heap.held)
                && (done ==> Returned(old(heap.mem), old(heap.free), heap.mem, heap.free, heap.slobfree, heap.arena))
                && (!done ==> unchanged(this) && unchanged(heap))
    {
      hide Canonical, Linked, Accounted, Cover, ArenaAlone, Cells, PagesOk, IsDesc, HeadOf, PageRun, Pow2, LiveApart,
        Returned, Apart, ArenaOut, ScanEnds;
      if block == 0 {
        NotHeld(0);
        return true;
      }
      if block % PAGE == 0 {
        var bb, last;
        ghost var i;
        bb, last, i := FindBig(block);
        if bb != 0 {
          NotArenaPage(bigs, heap.held, heap.pages, heap.arena, i);
          if SmallPtr(block) {
            SmallIsNotBig(heap.free, heap.live, heap.pages, heap.arena, bigs, heap.held, block - 1, i);
          }
          DropBig(bb, last, i);
          FreeBlock(bb, DESCRIPTOR);
          return true;
        }
      }
      if block == heap.arena + 1 {
        HeldIfArena(block);
        if heap.slobfree == heap.arena {
          if Lent() {
            LentNotFirst();
          }
          LoneScan(heap.mem, heap.arena);
          return false;
        }
        FreeArena();
        return true;
      }
      SmallCell(block);
      FreeBlock(block - 1, 0);
      return true;
    }

    method FreeArena()
      requires Lent()
      modifies heap`mem, heap`slobfree, heap`free, heap`rover
      ensures Valid() && Returned(old(heap.mem), old(heap.free), heap.mem, heap.free, heap.slobfree, heap.arena)
      ensures ScanEnds(old(heap.mem), old(heap.slobfree), heap.arena)
    {
      hide Canonical, Linked, Accounted, Cover, ArenaAlone, Cells, PagesOk, HeadOf, LiveApart, ArenaOut, Apart,
           ScanEnds,
        FreedMemory, Slot, SameOutside, SameOn, LiveUnits;
      ArenaFreeable(heap.free, heap.arena);
      ghost var k;
      k := heap.SlobFree(heap.arena, 0);
      assert ReturnedFrom(old(heap.mem), old(heap.free), heap.mem, heap.free, heap.slobfree, heap.arena, k);
      LiveUntouched(heap.free, heap.live, heap.pages, heap.arena, old(heap.mem), heap.mem);
      LiveIsApart(heap.free, heap.live, heap.pages, heap.arena);
      CellsFrame(old(heap.mem), heap.mem, heap.live, bigs);
    }

    lemma LentNotFirst()
      requires Lent()
      ensures heap.slobfree != heap.arena
    {
      hide Canonical, Linked, Accounted, Cells, PagesOk, Cover;
      HeadCovered(heap.free, heap.rover);
    }

    lemma HeldIfArena(block: int)
      requires block == heap.arena + 1
      requires ArenaHeld(block) || (Valid() && (SmallPtr(block) || BigPtr(block)))
      ensures ArenaHeld(block) && (heap.slobfree != heap.arena ==> Lent())
    {
      hide Canonical, Linked, Accounted, Cells, PagesOk, Cover, ArenaOut, Apart;
      if Valid() && SmallPtr(block) {
        NonNull(heap.arena);
      }
      if Valid() && BigPtr(block) {
        var i :| 0 <= i < |bigs| && bigs[i].pages == block;
        NotArenaPage(bigs, heap.held, heap.pages, heap.arena, i);
      }
    }

    lemma NotHeld(block: int)
      requires block == 0
      ensures ArenaHeld(block) ==> false
    {
      hide Canonical, Linked, Accounted, Cells, PagesOk, Cover, ArenaOut, Apart;
    }

    lemma SmallCell(block: int)
      requires Valid() && (SmallPtr(block) || BigPtr(block))
      requires block % PAGE == 0 ==> !BigPtr(block)
      ensures SmallPtr(block) && ValidExcept(block - 1)
      ensures block - 1 in heap.mem && heap.mem[block - 1].Slob? && heap.mem[block - 1].units == heap.live[block - 1]
    {
      hide Canonical, Linked, Accounted, Cover, ArenaAlone, Region;
      CellsDropBlock(heap.mem, heap.live, bigs, block - 1);
    }

    twostate predicate BigRemoved(i: nat)
      reads this, heap
    {
      && i < |old(bigs)| && old(bigs)[i].desc in old(heap.live)
      && bigs == Without(old(bigs), i)
      && heap.live == old(heap.live) - {old(bigs)[i].desc}
      && heap.held == old(heap.held) - Region(old(bigs)[i])
    }

    // ---------- whole runs ----------

    /** kmalloc(0) would hand out the arena, and that is alone on the list. */
    ghost predicate Hangs(size: nat)
      reads heap
    {
      ArenaRequest(size) && heap.arena in heap.mem && heap.mem[heap.arena].Slob?
      && heap.mem[heap.arena].next == heap.arena
    }

    /** kmalloc(0) would hand out the block below a big block: its pointer is that of the big block. */
    ghost predicate Clashes(size: nat)
      reads this, heap
    {
      size == 0 && heap.slobfree in heap.mem && heap.mem[heap.slobfree].Slob?
      && BigClient(bigs, heap.mem[heap.slobfree].next + 1)
    }

    /** The heap is as it was, up to a page by which it grew. */
    twostate predicate Back()
      reads this, heap
    {
      && heap.live == old(heap.live) && bigs == old(bigs)
      && heap.held == old(heap.held) + (heap.pages - old(heap.pages))
      && (heap.pages == old(heap.pages) ==> heap.free == old(heap.free))
      && (heap.pages != old(heap.pages) ==> exists q :: q !in old(heap.held) && GrownBy(old(heap.free), heap.free, q))
    }

    /** kmalloc and then kfree of what it returned. kfree returns unless the arena is its own successor and is handed
        out; then the free list is restored block for block, up to a page by which the heap grew, and every page and
        descriptor of a big block goes back, unless the pointer is also that of a big block, which kfree then takes
        instead. Both exceptions are requests of 0 bytes. */
    method AllocThenFree(size: nat) returns (r: Outcome, done: bool)
      requires Valid()
      modifies this, heap
      ensures done <==> !old(Hangs(size))
      ensures !done ==>
                r == Ok(heap.arena + 1) && Valid() && heap.mem == old(heap.mem) && heap.free == old(heap.free)
                && !ScanEnds(heap.mem, heap.slobfree, heap.arena)
      ensures done ==> Valid() && (Back() <==> !old(Clashes(size)))
      ensures done && old(ArenaRequest(size)) ==>
                heap.mem == old(heap.mem) && heap.free == old(heap.free) && heap.slobfree == old(heap.slobfree)
      ensures old(Clashes(size)) ==>
                r.Ok? && r.ptr - 1 in heap.live && r.ptr - 1 !in old(heap.live) && |bigs| == |old(bigs)| - 1
    {
      hide Canonical, Linked, Accounted, Cover, ArenaAlone, Cells, PagesOk, HeadOf, PageRun, Pow2, LiveApart, GrownBy,
        Fits, FreshRun, IsOrder, IsDesc, LentFrom, Returned, ScanEnds, FirstFit, FitAfterGrowth, ArenaOut, Apart;
      ghost var arena := ArenaRequest(size);
      done := true;
      r := Kmalloc(size);
      if r.Ok? {
        if arena {
          ArenaNow(old(heap.mem), old(heap.free), old(heap.rover), old(heap.slobfree), heap.mem, heap.free, heap.arena);
          if old(heap.mem)[heap.arena].next != heap.arena {
            LentNotFirst();
          }
          ArenaNotBig(bigs, heap.held, heap.pages, heap.arena);
        } else if size < 4064 {
          NewIsNoDesc(old(heap.mem), old(heap.live), bigs, r.ptr - 1);
          NonNull(r.ptr - 1);
          AddRemove(old(heap.live), r.ptr - 1, SlobUnits(size + UNIT));
          if size > 0 {
            SmallPtrNew(heap.free, heap.live, heap.pages, heap.arena, bigs, heap.held, r.ptr - 1);
          }
          assert SmallPtr(r.ptr) || BigPtr(r.ptr);
        } else {
          ghost var bs, held := bigs, heap.held;
          AddRemove(old(heap.live), bs[0].desc, 2);
          BigNotSmall(0);
          PagesDistinctAll(bs, held, heap.pages, 0);
          NotArenaPage(bigs, heap.held, heap.pages, heap.arena, 0);
        }
        ghost var before, mid, list := bigs, heap.mem, heap.free;
        done := Kfree(r.ptr);
        NotDesc(before, r.ptr - 1);
        if arena && done {
          ArenaRestored(old(heap.mem), old(heap.free), old(heap.rover), old(heap.slobfree), mid, list, heap.mem,
                        heap.free,
                        heap.slobfree, heap.arena);
        }
      }
      if done && heap.live == old(heap.live) && bigs == old(bigs) {
        HeldPages(bigs, old(heap.held), old(heap.pages), heap.held, heap.pages);
        Restored(old(heap.free), heap.free, heap.live, old(heap.pages), heap.pages, heap.arena, old(heap.held));
      }
    }

    /** Run any sequence of requests, each a kmalloc or a kfree of a pointer the client holds (or of NULL), until
        the kernel panics or a request of 0 bytes spoils the heap. Until then the heap invariants hold, the client
        holds exactly the blocks in use, each for the bytes asked for and none overlapping another, and no unit is
        lost. */
    method Run(ops: seq<Op>, held: map<int, nat>) returns (mine: map<int, nat>, trace: seq<Option<int>>, stop: Stop)
      requires Valid() && Serves(heap.live, bigs, held)
      modifies this, heap
      ensures stop != ArenaTaken ==> Valid() && Total(heap.free) - 1 + LiveTotal(heap.live) == PAGE * |heap.pages|
      ensures stop == ArenaTaken ==> Valid() || Lent()
      ensures |trace| <= |ops| && mine == Replay(held, ops[..|trace|], trace)
      ensures stop == Running ==> |trace| == |ops| && Serves(heap.live, bigs, mine)
      ensures stop == Running ==>
                forall p, q :: p in mine && q in mine && p != q ==>
                  UnitsOf(heap.live, bigs, p) !! UnitsOf(heap.live, bigs, q)
      ensures forall i :: 0 <= i < |trace| ==>
                (ops[i].Malloc? && 4064 <= ops[i].size < 4080 <==> stop == Panicked && i == |trace| - 1)
      ensures stop == Panicked ==> |trace| > 0
      ensures stop == ArenaTaken ==> |trace| > 0 && ops[|trace| - 1] == Malloc(0)
      ensures stop == Shared ==> Malloc(0) in ops[..|trace|] || exists p :: p in held && held[p] == 0
      ensures heap.asked == old(heap.asked) ==> Granted(ops, trace)
    {
      hide Canonical, Linked, Accounted, Cover, ArenaAlone, Cells, PagesOk, Serves, UnitsOf, Replay, After, ArenaOut,
           Apart;
      mine, trace, stop := held, [], Running;
      assert ops[..0] == [] && Replay(held, [], []) == held by {
        ReplayNothing(held);
      }
      var n := 0;
      while n < |ops| && stop == Running
        invariant n <= |ops| && (if stop == ArenaTaken then Valid() || Lent() else Valid())
        invariant |trace| == n && mine == Replay(held, ops[..n], trace)
        invariant stop == Running ==> Serves(heap.live, bigs, mine)
        invariant forall p :: p in mine ==> (p in held && mine[p] == held[p]) || Malloc(mine[p]) in ops[..n]
        invariant forall i :: 0 <= i < n ==>
                    (ops[i].Malloc? && 4064 <= ops[i].size < 4080 <==> stop == Panicked && i == n - 1)
        invariant stop == Panicked ==> n > 0
        invariant stop == ArenaTaken ==> n > 0 && ops[n - 1] == Malloc(0)
        invariant stop == Shared ==> Malloc(0) in ops[..n] || exists p :: p in held && held[p] == 0
        invariant heap.asked >= old(heap.asked) && (heap.asked == old(heap.asked) ==> Granted(ops, trace))
      {
        var p;
        ghost var before := mine;
        mine, p, stop := Step(ops[n], mine);
        ReplayNext(held, ops, trace, n, p);
        AfterFrom(before, ops[n], p);
        GrantedNext(ops, trace, p);
        assert ops[..n + 1] == ops[..n] + [ops[n]];
        trace := trace + [p];
        n := n + 1;
      }
      assert ops[..|ops|] == ops;
      if stop != ArenaTaken {
        Conservation(heap.free, heap.live, heap.pages, heap.arena);
      }
      if stop == Running {
        forall p, q | p in mine && q in mine
        && p != q ensures UnitsOf(heap.live, bigs, p) !! UnitsOf(heap.live, bigs, q) {
          HeldApart(heap.free, heap.live, heap.pages, heap.arena, bigs, heap.held, mine, p, q);
        }
      }
    }

    /** One request, with the pointer it returned. */
    method Step(op: Op, held: map<int, nat>) returns (mine: map<int, nat>, p: Option<int>, stop: Stop)
      requires Valid() && Serves(heap.live, bigs, held)
      modifies this, heap
      ensures if stop == ArenaTaken then Valid() || Lent() else Valid()
      ensures mine == After(held, op, p)
              && (stop == Running ==> Serves(heap.live, bigs, mine) && (p.Some? ==> p.value !in held))
      ensures op.Malloc? && op.size < 4064 && stop == Running ==>
                (p.None? <==> !Fits(old(heap.free), SlobUnits(op.size + UNIT)) && !old(heap.PagesReady(1)))
      ensures op.Malloc? && op.size >= 4080 && stop == Running ==>
                forall order: nat :: IsOrder(ToInt(op.size), order) ==> (p.None? <==> !old(BigReady(Pow2(order))))
      ensures heap.asked >= old(heap.asked)
      ensures op.Malloc? && p.None? && stop != Panicked ==> heap.asked > old(heap.asked)
      ensures stop == Panicked <==> op.Malloc? && 4064 <= op.size < 4080
      ensures stop == ArenaTaken ==> op == Malloc(0)
      ensures stop == Shared ==> op == Malloc(0) || exists p :: p in held && held[p] == 0
    {
      hide Canonical, Linked, Accounted, Cover, ArenaAlone, Cells, PagesOk, HeadOf, PageRun, Pow2, LiveApart, IsDesc,
        Serves, GrewBy, Fits, FreshRun, IsOrder, ToInt, FirstFit, FitAfterGrowth, LentFrom, Returned, ScanEnds,
        ArenaOut, Apart;
      mine, p, stop := held, None, Running;
      NullNotHeld(held);
      match op
      case Malloc(size) =>
        var r := Kmalloc(size);
        if r == Panic {
          stop := Panicked;
        } else if r.Ok? {
          if size == 0 && r.ptr == heap.arena + 1 {
            p, stop := Some(r.ptr), ArenaTaken;
            mine := mine[r.ptr := size];
          } else if r.ptr in held {
            p, stop := Some(r.ptr), Shared;
            mine := mine[r.ptr := size];
            if size < 4064 {
              NewIsNoDesc(old(heap.mem), old(heap.live), bigs, r.ptr - 1);
              SharedSmall(heap.free, old(heap.live), heap.live, heap.pages, heap.arena, bigs, heap.held, held, r.ptr,
                          size);
            } else {
              SharedBig(heap.free, old(heap.live), heap.live, heap.pages, heap.arena, old(bigs), bigs, heap.held, held);
            }
          } else {
            p := Some(r.ptr);
            mine := mine[r.ptr := size];
            if size < 4064 {
              NewIsNoDesc(old(heap.mem), old(heap.live), bigs, r.ptr - 1);
              NonNull(r.ptr - 1);
              ServesAddSmall(old(heap.live), bigs, held, r.ptr, size);
            } else {
              BigNotNull(bigs, heap.held, heap.pages, 0);
              ServesAddBig(old(heap.live), heap.live, old(bigs), bigs, held, size);
            }
          }
        }
      case Free(q) =>
        FreeStep(q, held);
        mine := held - {q};
    }

    /** One kfree; of something the client does not hold it is skipped. */
    method FreeStep(q: int, held: map<int, nat>)
      requires Valid() && Serves(heap.live, bigs, held)
      modifies this, heap
      ensures Valid() && Serves(heap.live, bigs, held - {q}) && heap.asked == old(heap.asked)
    {
      hide Canonical, Linked, Accounted, Cover, ArenaAlone, Cells, PagesOk, HeadOf, PageRun, Pow2, LiveApart, IsDesc,
        Serves, Returned, ScanEnds, ArenaOut, Apart;
      if q in held {
        ServedIsPtr(q, held);
        ghost var small := SmallPtr(q);
        PagesApart();
        var done := Kfree(q);
        if small {
          ServesDropSmall(old(heap.live), bigs, held, q);
        } else {
          ghost var i: nat :| i < |old(bigs)| && old(bigs)[i].pages == q && BigRemoved(i);
          ServesDropBig(old(heap.live), old(bigs), held, q, i);
        }
      } else {
        assert held - {q} == held;
        if q == 0 {
          var done := Kfree(0);
        }
      }
    }

    lemma NullNotHeld(mine: map<int, nat>)
      requires Valid() && Serves(heap.live, bigs, mine)
      ensures 0 !in mine
    {
      hide Canonical, Linked, Accounted, Cover, ArenaAlone, Cells, PagesOk, Serves, IsDesc;
      if 0 in mine {
        ServedIsPtr(0, mine);
      }
    }

    lemma ServedIsPtr(p: int, mine: map<int, nat>)
      requires Valid() && Serves(heap.live, bigs, mine) && p in mine
      ensures p != heap.arena + 1
      ensures p != 0 && (SmallPtr(p) <==> SmallClient(heap.live, bigs, p)) && (BigPtr(p) <==> !SmallPtr(p))
    {
      hide Canonical, Linked, Accounted, Cover, ArenaAlone, Region, Cells, IsDesc, PagesOk;
      if SmallClient(heap.live, bigs, p) {
        NonNull(p - 1);
      } else {
        var i :| 0 <= i < |bigs| && bigs[i].pages == p;
        NotArenaPage(bigs, heap.held, heap.pages, heap.arena, i);
        BigNotNull(bigs, heap.held, heap.pages, i);
      }
    }

    lemma BigNotNull(bigs: seq<BigBlock>, held: set<int>, pages: set<int>, i: nat)
      requires PagesOk(bigs, held, pages) && i < |bigs|
      ensures bigs[i].pages != 0
    {
    }

    lemma PagesApart()
      requires Valid()
      ensures forall i, j :: 0 <= i < |bigs| && 0 <= j < |bigs| && bigs[i].pages == bigs[j].pages ==> i == j
    {
      hide Canonical, Linked, Accounted, Cover, ArenaAlone, Region, Cells, IsDesc, PagesOk;
      forall i, j | 0 <= i < |bigs| && 0 <= j < |bigs| && bigs[i].pages == bigs[j].pages ensures i == j {
        PagesDistinct(bigs, heap.held, heap.pages, i, j);
      }
    }

    lemma BigNotSmall(i: nat)
      requires Valid() && i < |bigs|
      ensures BigPtr(bigs[i].pages) && !SmallPtr(bigs[i].pages) && bigs[i].pages != 0
    {
      hide Canonical, Linked, Accounted, Cover, ArenaAlone, Region, Cells, IsDesc;
      var p := bigs[i].pages;
      if SmallPtr(p) {
        SmallIsNotBig(heap.free, heap.live, heap.pages, heap.arena, bigs, heap.held, p - 1, i);
      }
    }

    lemma NonNull(b: int)
      requires Valid() && b in heap.live
      ensures b > 0 && b != heap.arena
    {
      LiveNotFree(heap.free, heap.live, heap.pages, heap.arena, b);
    }
  }

  lemma Restored(f: seq<Extent>, f': seq<Extent>, live: Live, pages: set<int>, pages': set<int>, arena: int,
                 held: set<int>)
    requires Accounted(f, live, pages, arena) && Accounted(f', live, pages', arena)
    requires pages' == pages || exists q :: q !in held && pages' == pages + {q}
    requires pages <= held
    ensures pages' == pages ==> f == f'
    ensures pages' != pages ==> exists q :: q !in held && GrownBy(f, f', q)
  {
    if pages' == pages {
      FreeDetermined(f, f', live, pages, arena);
    } else {
      var q :| q !in held && pages' == pages + {q};
      SubPage(pages', q, arena);
      AccountedGrow(f, live, pages, arena, q);
      FreeDetermined(Release(f, Extent(q, PAGE)), f', live, pages', arena);
      assert GrownBy(f, f', q);
    }
  }

  /** Every request gets a block, unless kmalloc panics. */
  ghost predicate Granted(ops: seq<Op>, trace: seq<Option<int>>) {
    forall i :: 0 <= i < |trace| <= |ops| && ops[i].Malloc? && !(4064 <= ops[i].size < 4080) ==> trace[i].Some?
  }

  lemma GrantedNext(ops: seq<Op>, trace: seq<Option<int>>, p: Option<int>)
    requires |trace| < |ops|
    ensures var op := ops[|trace|];
            Granted(ops, trace) && (op.Malloc? && !(4064 <= op.size < 4080) ==> p.Some?) ==> Granted(ops, trace + [p])
  {
  }

  lemma AddRemove(live: Live, b: int, n: int)
    requires b !in live
    ensures live[b := n] - {b} == live
  {
  }

  lemma PagesDistinctAll(bigs: seq<BigBlock>, held: set<int>, pages: set<int>, i: nat)
    requires PagesOk(bigs, held, pages) && i < |bigs|
    ensures forall j :: 0 <= j < |bigs| && bigs[j].pages == bigs[i].pages ==> j == i
  {
    forall j | 0 <= j < |bigs| && bigs[j].pages == bigs[i].pages ensures j == i {
      PagesDistinct(bigs, held, pages, i, j);
    }
  }

  // ---------- the two exceptions of kmalloc(0) ----------

  /** On a new heap kfree of what kmalloc(0) returned does not return. */
  method FirstZeroHangs(arena: int, supply: seq<int>) returns (k: Kmalloc, r: Outcome, done: bool)
    requires arena > 0
    ensures fresh(k) && r == Ok(arena + 1) && !done
    ensures k.heap.slobfree == arena && !ScanEnds(k.heap.mem, arena, arena)
  {
    hide Canonical, Linked, Accounted, Cover, ArenaAlone, Cells, PagesOk, HeadOf, LiveApart, ScanEnds, GrownBy, Serves,
      BigClient, ArenaOut, Apart, Span;
    k := new Kmalloc(arena, supply);
    assert k.Hangs(0);
    LoneScan(k.heap.mem, arena);
    r, done := k.AllocThenFree(0);
  }

  /** A run after which kmalloc(0) returns the pointer of a big block: the big block is the page after the heap's, and
      one unit is left at the end of the heap's page. */
  method ClashReached() returns (k: Kmalloc, big: Outcome, small: Outcome)
    ensures fresh(k) && k.Valid() && k.Clashes(0) && big == Ok(512) && small.Ok?
  {
    hide Canonical, Linked, Accounted, Cover, ArenaAlone, Cells, PagesOk, HeadOf, LiveApart, FirstFit, FitAfterGrowth,
      LentFrom, Span, Region, Fits, IsDesc, GrewBy, FreshRun, IsOrder, ToInt, Pow2;
    k := new Kmalloc(10, [256, 512]);
    NewHeapReady();
    assert k.heap.held + {256} == {256};
    assert k.BigReady(Pow2(0));
    big := k.Kmalloc(4096);
    assert big.Ok?;
    AfterFirst(k.bigs[0].desc, k.heap.free, k.heap.slobfree);
    assert SlobUnits(4032 + UNIT) == 253;
    ghost var bigs, rover := k.bigs, k.heap.rover;
    small := k.Kmalloc(4032);
    AfterSecond(rover, small.ptr - 1, k.heap.free, k.heap.slobfree);
    NextOfArena(k.heap.mem, k.heap.free, k.heap.rover);
    assert bigs[0].pages == 512;
  }

  lemma NewHeapReady()
    ensures IsOrder(ToInt(4096), 0) && !Fits([Extent(10, 1)], 2)
    ensures FreshRun(256, 1, {}, 10) && FreshRun(512, Pow2(0), {256}, 10)
  {
    assert 256 !in PageRun(512, 1);
  }

  lemma FirstPage()
    ensures Canonical([Extent(10, 1)]) && Apart([Extent(10, 1)], Extent(256, 256))
    ensures Release([Extent(10, 1)], Extent(256, 256)) == [Extent(10, 1), Extent(256, 256)]
  {
    hide Cover, Span;
    JoinIsRelease([Extent(10, 1)], Extent(256, 256), 1);
  }

  /** The descriptor takes the front of the first page. */
  lemma AfterFirst(r: int, after: seq<Extent>, at: int)
    requires FitAfterGrowth([Extent(10, 1)], 256, 2, r, after, at)
    ensures after == [Extent(10, 1), Extent(258, 254)] && at == 10 && Fits(after, 253)
  {
    hide Cover, Span, Canonical, Apart, Release;
    var s: seq<Extent>, rover: nat :| GrownBy([Extent(10, 1)], s, 256) && FirstFit(s, rover, 2, r, after, at);
    FirstPage();
    var k :| 0 <= k < |s| && s[k].len >= 2 && after == Carve(s, k, 2) && at == s[Before(k, |s|)].addr;
    assert after[1].len >= 253;
  }

  /** The second request leaves the last unit of the page. */
  lemma AfterSecond(rover: nat, r: int, after: seq<Extent>, at: int)
    requires FirstFit([Extent(10, 1), Extent(258, 254)], rover, 253, r, after, at)
    ensures after == [Extent(10, 1), Extent(511, 1)] && at == 10
  {
    var s := [Extent(10, 1), Extent(258, 254)];
    var k :| 0 <= k < |s| && s[k].len >= 253 && after == Carve(s, k, 253) && at == s[Before(k, |s|)].addr;
  }

  lemma NextOfArena(m: Memory, s: seq<Extent>, rover: nat)
    requires Linked(m, s) && s == [Extent(10, 1), Extent(511, 1)] && rover < 2 && s[rover].addr == 10
    ensures 10 in m && m[10] == Slob(1, 511)
  {
    LinkedHas(m, s, 0);
  }

  // ---------- the pointers a client holds ----------

  lemma ReplayNothing(held: map<int, nat>)
    ensures Replay(held, [], []) == held
  {
  }

  lemma AfterFrom(held: map<int, nat>, op: Op, p: Option<int>)
    ensures forall q :: q in After(held, op, p) ==>
              (q in held && After(held, op, p)[q] == held[q]) || op == Malloc(After(held, op, p)[q])
  {
  }

  /** What is known of the arena once it is handed out. */
  lemma ArenaNow(m: Memory, s: seq<Extent>, rover: nat, slobfree: int, m': Memory, s': seq<Extent>, arena: int)
    requires Canonical(s) && Linked(m, s) && ArenaAlone(s, arena) && rover < |s| && slobfree == s[rover].addr
    requires LentFrom(m, s, rover, slobfree, m', s', arena) && TakesArena(m, slobfree, arena, 1)
    ensures arena in m && m[arena].Slob?
    ensures m[arena].next == arena ==> slobfree == arena && m' == m && s' == s && m[arena] == Slob(1, arena)
    ensures m[arena].next != arena ==> |s| >= 2
  {
    hide Cover, ArenaAlone, Linked, Canonical;
    var k := Successor(rover, |s|);
    LinkedHas(m, s, rover);
    LinkedHas(m, s, k);
    ArenaClear(s, arena, k);
    OwnSuccessor(m, s, k);
  }

  lemma LentCells(m: Memory, s: seq<Extent>, rover: nat, live: Live, pages: set<int>, arena: int, bigs: seq<BigBlock>)
    requires Accounted(s, live, pages, arena) && Linked(m, s) && Cells(m, live, bigs)
    requires |s| >= 2 && rover < |s| && s[Successor(rover, |s|)].addr == arena
    ensures s[rover].addr in m && m[s[rover].addr].Slob? && arena in m && m[arena].Slob?
    ensures Cells(TakenMemory(m, s[rover].addr, arena, 1), live, bigs)
  {
    hide Cover, Linked, Cells, TakenMemory, LiveUnits, SameOutside, SameOn, LiveApart, ArenaAlone;
    var k := Successor(rover, |s|);
    ArenaKept(s, live, pages, arena);
    ArenaClear(s, arena, k);
    LinkedHas(m, s, rover);
    LinkedHas(m, s, k);
    TakenFrame(m, s, rover, 1);
    LiveUntouched(s, live, pages, arena, m, TakenMemory(m, s[rover].addr, arena, 1));
    CellsFrame(m, TakenMemory(m, s[rover].addr, arena, 1), live, bigs);
  }

  lemma NotArenaPage(bigs: seq<BigBlock>, held: set<int>, pages: set<int>, arena: int, i: nat)
    requires PagesOk(bigs, held, pages) && i < |bigs| && arena + 1 !in held
    ensures bigs[i].pages != arena + 1
  {
    BigPage(bigs, held, pages, i);
  }

  lemma ArenaNotBig(bigs: seq<BigBlock>, held: set<int>, pages: set<int>, arena: int)
    requires PagesOk(bigs, held, pages) && arena + 1 !in held
    ensures !BigClient(bigs, arena + 1)
  {
    hide PagesOk;
    forall i | 0 <= i < |bigs| ensures bigs[i].pages != arena + 1 {
      NotArenaPage(bigs, held, pages, arena, i);
    }
  }

  lemma ArenaFreeable(s: seq<Extent>, arena: int)
    requires ArenaOut(s, arena) && |s| > 0
    ensures Freeable(s, Extent(arena, 1), arena)
  {
  }

  lemma HeldPages(bigs: seq<BigBlock>, held: set<int>, pages: set<int>, held': set<int>, pages': set<int>)
    requires PagesOk(bigs, held, pages) && PagesOk(bigs, held', pages')
    requires pages <= held && pages' <= held' && pages <= pages'
    ensures held' == held + (pages' - pages)
  {
    hide Region;
    forall p ensures p in held' <==> p in held + (pages' - pages) {
      if p in held' && p !in pages' {
        var i :| 0 <= i < |bigs| && p in Region(bigs[i]);
      }
      if p in held && p !in pages {
        var i :| 0 <= i < |bigs| && p in Region(bigs[i]);
      }
    }
  }

  lemma NotDesc(bigs: seq<BigBlock>, b: int)
    ensures !IsDesc(bigs, b) ==> forall i :: 0 <= i < |bigs| ==> bigs[i].desc != b
  {
  }

  lemma SmallPtrNew(free: seq<Extent>, live: Live, pages: set<int>, arena: int,
                    bigs: seq<BigBlock>, held: set<int>, b: int)
    requires Accounted(free, live, pages, arena) && PagesOk(bigs, held, pages) && b in live && live[b] >= 2
    ensures !BigClient(bigs, b + 1)
  {
    hide Accounted, PagesOk;
    forall i | 0 <= i < |bigs| ensures bigs[i].pages != b + 1 {
      SmallIsNotBig(free, live, pages, arena, bigs, held, b, i);
    }
  }

  /** Two pointers the client holds stand for blocks without a unit in common. */
  lemma HeldApart(free: seq<Extent>, live: Live, pages: set<int>, arena: int, bigs: seq<BigBlock>, held: set<int>,
                  mine: map<int, nat>, p: int, q: int)
    requires Accounted(free, live, pages, arena) && PagesOk(bigs, held, pages) && Serves(live, bigs, mine)
    requires p in mine && q in mine && p != q
    ensures UnitsOf(live, bigs, p) !! UnitsOf(live, bigs, q)
  {
    hide Accounted, Span, PageUnits, Region, PagesOk, IsDesc;
    if SmallClient(live, bigs, p) && SmallClient(live, bigs, q) {
      LiveIsApart(free, live, pages, arena);
      SpansApart(live, p - 1, q - 1);
    } else if SmallClient(live, bigs, p) || SmallClient(live, bigs, q) {
      var s, b := if SmallClient(live, bigs, p) then p else q, if SmallClient(live, bigs, p) then q else p;
      forall i | 0 <= i < |bigs| && bigs[i].pages == b ensures Span(s - 1, live[s - 1]) !! PageUnits(Region(bigs[i])) {
        SmallApartBig(free, live, pages, arena, bigs, held, s - 1, i);
      }
    } else {
      forall i, j | 0 <= i < |bigs| && 0 <= j < |bigs| && bigs[i].pages == p && bigs[j].pages == q
        ensures PageUnits(Region(bigs[i])) !! PageUnits(Region(bigs[j]))
      {
        BigApartBig(bigs, held, pages, i, j);
      }
    }
  }

  lemma SpansApart(live: Live, b: int, c: int)
    requires LiveApart(live) && b in live && c in live && b != c
    ensures Span(b, live[b]) !! Span(c, live[c])
  {
  }

  lemma AlignedApart(a: set<int>, b: set<int>)
    requires Aligned(a) && Aligned(b) && a !! b
    ensures PageUnits(a) !! PageUnits(b)
  {
    hide Aligned, PageUnits;
    forall u | u in PageUnits(a) ensures u !in PageUnits(b) {
      PageOf(a, u);
      if u in PageUnits(b) {
        PageOf(b, u);
      }
    }
  }

  lemma PageOf(pages: set<int>, u: int)
    requires Aligned(pages) && u in PageUnits(pages)
    ensures u - u % PAGE in pages
  {
    hide Span;
    var p :| p in pages && u in Span(p, PAGE);
    PageStart(p, u);
  }

  lemma PageStart(p: int, u: int)
    requires p % PAGE == 0 && p <= u < p + PAGE
    ensures u - u % PAGE == p
  {
    var q := p / PAGE;
    assert u == PAGE * q + (u - p);
  }

  lemma RegionAligned(bigs: seq<BigBlock>, held: set<int>, pages: set<int>, i: nat)
    requires PagesOk(bigs, held, pages) && i < |bigs|
    ensures Aligned(Region(bigs[i]))
  {
    hide PageRun;
    RunAligned(bigs[i].pages, Pow2(bigs[i].order));
  }

  lemma {:induction false} RunAligned(p: int, n: nat)
    requires p > 0 && p % PAGE == 0
    ensures Aligned(PageRun(p, n))
  {
    if n > 0 {
      RunAligned(p, n - 1);
      assert PageRun(p, n) == PageRun(p, n - 1) + {p + PAGE * (n - 1)};
    }
  }

  lemma SmallApartBig(free: seq<Extent>, live: Live, pages: set<int>, arena: int, bigs: seq<BigBlock>, held: set<int>,
                      b: int, i: nat)
    requires Accounted(free, live, pages, arena) && PagesOk(bigs, held, pages) && b in live && i < |bigs|
    ensures Span(b, live[b]) !! PageUnits(Region(bigs[i]))
  {
    hide Cover, LiveUnits, Span, Canonical, PagesOk, Region;
    ArenaKept(free, live, pages, arena);
    RegionAligned(bigs, held, pages, i);
    PagesDrop(bigs, held, pages, i);
    AlignedApart(pages, Region(bigs[i]));
    forall u | u in Span(b, live[b]) ensures u in PageUnits(pages) {
      assert Owns(live, b, u);
    }
  }

  lemma BigApartBig(bigs: seq<BigBlock>, held: set<int>, pages: set<int>, i: nat, j: nat)
    requires PagesOk(bigs, held, pages) && i < |bigs| && j < |bigs| && i != j
    ensures PageUnits(Region(bigs[i])) !! PageUnits(Region(bigs[j]))
  {
    hide Region, PageUnits;
    RegionAligned(bigs, held, pages, i);
    RegionAligned(bigs, held, pages, j);
    AlignedApart(Region(bigs[i]), Region(bigs[j]));
  }

  /** A pointer to a new small block that is already held comes from a request of 0 bytes. */
  lemma SharedSmall(free: seq<Extent>, live: Live, live': Live, pages: set<int>, arena: int, bigs: seq<BigBlock>,
                    held: set<int>,
                    mine: map<int, nat>, p: int, size: nat)
    requires Serves(live, bigs, mine) && p in mine && p - 1 !in live
    requires Accounted(free, live', pages, arena) && PagesOk(bigs, held, pages)
    requires p - 1 in live' && live'[p - 1] == SlobUnits(size + UNIT)
    ensures size == 0
  {
    hide Accounted, PagesOk, IsDesc;
    if size > 0 {
      SmallPtrNew(free, live', pages, arena, bigs, held, p - 1);
    }
  }

  /** A pointer to a new big block that is already held is that of a small block of 0 bytes. */
  lemma SharedBig(free: seq<Extent>, live: Live, live': Live, pages: set<int>, arena: int, bigs: seq<BigBlock>,
                  bigs': seq<BigBlock>,
                  held: set<int>, mine: map<int, nat>)
    requires Serves(live, bigs, mine) && Accounted(free, live', pages, arena) && PagesOk(bigs', held, pages)
    requires |bigs'| > 0 && bigs'[1..] == bigs && bigs'[0].pages in mine
    requires bigs'[0].desc !in live && live' == live[bigs'[0].desc := 2]
    ensures mine[bigs'[0].pages] == 0
  {
    hide Accounted, PagesOk, IsDesc;
    var p := bigs'[0].pages;
    PagesDistinctAll(bigs', held, pages, 0);
    forall i | 0 <= i < |bigs| ensures bigs[i].pages != p {
      assert bigs[i] == bigs'[i + 1];
    }
    if mine[p] > 0 {
      SmallPtrNew(free, live', pages, arena, bigs', held, p - 1);
    }
  }

  lemma ServesAddSmall(live: Live, bigs: seq<BigBlock>, mine: map<int, nat>, p: int, size: nat)
    requires Serves(live, bigs, mine) && p - 1 !in live && !IsDesc(bigs, p - 1) && p !in mine
    ensures Serves(live[p - 1 := SlobUnits(size + UNIT)], bigs, mine[p := size])
  {
    hide IsDesc, IsOrder, ToInt;
    var live', mine' := live[p - 1 := SlobUnits(size + UNIT)], mine[p := size];
    forall i | 0 <= i < |bigs| ensures bigs[i].pages != p && BigServed(bigs, mine', i) {
      assert BigServed(bigs, mine, i);
    }
    forall q | q in mine ensures SmallClient(live', bigs, q) == SmallClient(live, bigs, q) {
      assert q != p;
    }
  }

  lemma ServesAddBig(live: Live, live': Live, bigs: seq<BigBlock>, bigs': seq<BigBlock>, mine: map<int, nat>, size: nat)
    requires Serves(live, bigs, mine) && |bigs'| > 0 && bigs'[1..] == bigs && bigs'[0].pages !in mine
    requires IsOrder(ToInt(size), bigs'[0].order)
    requires bigs'[0].desc !in live && live' == live[bigs'[0].desc := 2]
    ensures Serves(live', bigs', mine[bigs'[0].pages := size])
  {
    hide IsDesc, IsOrder, ToInt, BigClient;
    var p := bigs'[0].pages;
    var mine' := mine[p := size];
    forall i | 0 <= i < |bigs'| ensures BigServed(bigs', mine', i) {
      if i > 0 {
        assert bigs'[i] == bigs[i - 1] && BigServed(bigs, mine, i - 1);
      }
    }
    forall q ensures SmallClient(live', bigs', q) == SmallClient(live, bigs, q)
    && (BigClient(bigs', q) <==> q == p || BigClient(bigs, q)) {
      PushDesc(bigs, bigs', q - 1);
      PushPages(bigs, bigs', q);
    }
    forall b | b in live' && !IsDesc(bigs', b) ensures b + 1 in mine' {
      PushDesc(bigs, bigs', b);
    }
  }

  lemma PushDesc(bigs: seq<BigBlock>, bigs': seq<BigBlock>, b: int)
    requires |bigs'| > 0 && bigs'[1..] == bigs
    ensures IsDesc(bigs', b) <==> bigs'[0].desc == b || IsDesc(bigs, b)
  {
    assert forall i :: 0 <= i < |bigs| ==> bigs[i] == bigs'[i + 1];
    if i :| 0 <= i < |bigs'| && bigs'[i].desc == b {
      if i > 0 { assert bigs[i - 1].desc == b; }
    }
  }

  lemma PushPages(bigs: seq<BigBlock>, bigs': seq<BigBlock>, p: int)
    requires |bigs'| > 0 && bigs'[1..] == bigs
    ensures BigClient(bigs', p) <==> bigs'[0].pages == p || BigClient(bigs, p)
  {
    assert forall i :: 0 <= i < |bigs| ==> bigs[i] == bigs'[i + 1];
    if i :| 0 <= i < |bigs'| && bigs'[i].pages == p {
      if i > 0 { assert bigs[i - 1].pages == p; }
    }
  }

  lemma ServesDropSmall(live: Live, bigs: seq<BigBlock>, mine: map<int, nat>, p: int)
    requires Serves(live, bigs, mine) && p in mine && SmallClient(live, bigs, p)
    ensures Serves(live - {p - 1}, bigs, mine - {p})
  {
    hide IsDesc, IsOrder, ToInt;
    forall i | 0 <= i < |bigs| ensures BigServed(bigs, mine - {p}, i) {
      assert BigServed(bigs, mine, i);
    }
    forall q | q in mine - {p} ensures SmallClient(live - {p - 1}, bigs, q) == SmallClient(live, bigs, q) {
      assert q != p;
    }
  }

  lemma ServesDropBig(live: Live, bigs: seq<BigBlock>, mine: map<int, nat>, p: int, i: nat)
    requires Serves(live, bigs, mine) && p in mine && i < |bigs| && bigs[i].pages == p
    requires forall j :: 0 <= j < |bigs| && bigs[j].pages == p ==> j == i
    ensures Serves(live - {bigs[i].desc}, Without(bigs, i), mine - {p})
  {
    hide IsDesc, IsOrder, ToInt, BigClient;
    var live', bs, mine' := live - {bigs[i].desc}, Without(bigs, i), mine - {p};
    forall j | 0 <= j < |bs| ensures BigServed(bs, mine', j) {
      var h := if j < i then j else j + 1;
      assert bs[j] == bigs[h] && BigServed(bigs, mine, h);
    }
    BigHeld(bigs, i);
    forall q | q in mine' ensures SmallClient(live', bs, q) == SmallClient(live, bigs, q)
    && BigClient(bs, q) == BigClient(bigs, q) {
      DropPages(bigs, i, q);
      DropDesc(bigs, i, q - 1);
    }
    forall b | b in live' && !IsDesc(bs, b) ensures b + 1 in mine' {
      DropDesc(bigs, i, b);
    }
  }

  lemma BigHeld(bigs: seq<BigBlock>, i: nat)
    requires i < |bigs|
    ensures BigClient(bigs, bigs[i].pages) && IsDesc(bigs, bigs[i].desc)
  {
  }

  lemma DropPages(bigs: seq<BigBlock>, i: nat, p: int)
    requires i < |bigs|
    ensures bigs[i].pages != p ==> (BigClient(Without(bigs, i), p) <==> BigClient(bigs, p))
  {
    var bs := Without(bigs, i);
    if h :| 0 <= h < |bigs| && h != i && bigs[h].pages == p {
      assert bs[if h < i then h else h - 1] == bigs[h];
    }
    if h :| 0 <= h < |bs| && bs[h].pages == p {
      assert bs[h] == bigs[if h < i then h else h + 1];
    }
  }

  lemma DropDesc(bigs: seq<BigBlock>, i: nat, b: int)
    requires i < |bigs|
    ensures bigs[i].desc != b ==> (IsDesc(Without(bigs, i), b) <==> IsDesc(bigs, b))
  {
    var bs := Without(bigs, i);
    if h :| 0 <= h < |bigs| && h != i && bigs[h].desc == b {
      assert bs[if h < i then h else h - 1] == bigs[h];
    }
    if h :| 0 <= h < |bs| && bs[h].desc == b {
      assert bs[h] == bigs[if h < i then h else h + 1];
    }
  }

  lemma SubPage(pages: set<int>, q: int, arena: int)
    requires Aligned(pages) && ClearOf(PageUnits(pages), arena) && q in pages
    ensures q > 0 && q % PAGE == 0 && ClearOf(Span(q, PAGE), arena)
  {
    hide Span;
    assert Span(q, PAGE) <= PageUnits(pages);
  }

  lemma LiveIsApart(free: seq<Extent>, live: Live, pages: set<int>, arena: int)
    requires Accounted(free, live, pages, arena)
    ensures LiveApart(live)
  {
  }
}
