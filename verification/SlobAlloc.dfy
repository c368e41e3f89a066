/**
 slob_alloc and slob_free of lab4/kern/mm/kmalloc.c, as methods on the heap's memory.
 */
module SlobAlloc {
  import opened Sequences
  import opened Extents
  import opened SlobMemory
  import opened SlobAccount

  /** The `n` page addresses starting at page `p`. */
  function PageRun(p: int, n: nat): (r: set<int>)
    ensures forall a :: a in r <==> p <= a < p + PAGE * n && (a - p) % PAGE == 0
  {
    if n == 0 then {} else PageRun(p, n - 1) + {p + PAGE * (n - 1)}
  }

  /** What alloc_pages may answer: aligned pages nobody holds, clear of the static arena. */
  predicate FreshRun(p: int, n: nat, held: set<int>, arena: int) {
    && p > 0 && p % PAGE == 0
    && PageRun(p, n) !! held
    && (arena + 1 < p || p + PAGE * n <= arena - 1)
  }

  /** When the scan that starts after the rover examines index `j`. */
  function Turn(rover: nat, n: nat, j: nat): (t: nat)
    requires rover < n && j < n
    ensures t < n
  {
    if j > rover then j - rover - 1 else j + n - rover - 1
  }

  ghost predicate Fits(s: seq<Extent>, units: int) {
    exists j :: 0 <= j < |s| && s[j].len >= units
  }

  lemma FreeSlot(s: seq<Extent>, e: Extent) returns (k: nat)
    requires Canonical(s) && e.len > 0 && Apart(s, e)
    ensures Slot(s, e.addr, k) && k <= |s|
    ensures forall x :: x in s ==> x.addr != e.addr
  {
    k := SlotExists(s, e);
  }

  ghost predicate SameOn(m: Memory, m': Memory, area: set<int>) {
    forall a :: a in area ==> (a in m <==> a in m') && (a in m ==> m[a] == m'[a])
  }

  lemma SameOnSelf(m: Memory, area: set<int>)
    ensures SameOn(m, m, area)
  {
  }

  lemma SameOnChain(m: Memory, m': Memory, m'': Memory, area: set<int>)
    requires SameOn(m, m', area) && SameOn(m', m'', area)
    ensures SameOn(m, m'', area)
  {
  }

  lemma LiveUntouched(free: seq<Extent>, live: Live, pages: set<int>, arena: int, m: Memory, m': Memory)
    requires Accounted(free, live, pages, arena) && SameOutside(m, m', Cover(free))
    ensures SameOn(m, m', LiveUnits(live))
  {
  }

  /** One page, not held before, has joined the heap. */
  ghost predicate GrewBy(pages: set<int>, pages': set<int>, held: set<int>, held': set<int>) {
    exists q :: q !in held && pages' == pages + {q} && held' == held + {q}
  }

  lemma FreshIsNew(q: int, held: set<int>, pages: set<int>, arena: int)
    requires FreshRun(q, 1, held, arena) && pages <= held
    ensures NewPage(q, pages, arena) && PageRun(q, 1) == {q} && q !in held
    ensures arena !in Span(q, PAGE)
  {
    hide Span;
    assert q in PageRun(q, 1);
  }

  /** Freeing a block leaves a block at least as long, whatever it was merged into. */
  lemma ReleaseFits(s: seq<Extent>, e: Extent)
    requires Canonical(s) && e.len > 0 && Apart(s, e)
    ensures Fits(Release(s, e), e.len)
  {
    var k := SlotExists(s, e);
    JoinIsRelease(s, e, k);
    JoinPoints(s, e, k);
    assert Join(s, e, k)[Seat(s, e, k)].len >= e.len;
  }

  /** slob_alloc hands out the static arena exactly for a request of one unit made when the arena is
      the first block after the rover. */
  ghost predicate TakesArena(m: Memory, slobfree: int, arena: int, units: int) {
    units == 1 && slobfree in m && m[slobfree].Slob? && m[slobfree].next == arena
  }

  /** `r` is the first block after the rover with enough units, `after` the list without it, and `at` the block before
      it, which becomes the rover. */
  ghost predicate FirstFit(s: seq<Extent>, rover: nat, units: int, r: int, after: seq<Extent>, at: int) {
    && rover < |s|
    && exists k :: 0 <= k < |s| && s[k].addr == r && s[k].len >= units && after == Carve(s, k, units)
                   && at == s[Before(k, |s|)].addr && NoneBefore(s, rover, k, units)
  }

  /** The list has got the page `q`. */
  ghost predicate GrownBy(free: seq<Extent>, free': seq<Extent>, q: int) {
    Canonical(free) && Apart(free, Extent(q, PAGE)) && free' == Release(free, Extent(q, PAGE))
  }

  /** The first fit in the list with the page `q` added. */
  ghost predicate FitAfterGrowth(free: seq<Extent>, q: int, units: int, r: int, after: seq<Extent>, at: int) {
    exists s: seq<Extent>, rover: nat :: GrownBy(free, s, q) && FirstFit(s, rover, units, r, after, at)
  }

  lemma FitWasGrown(free: seq<Extent>, q: int, s: seq<Extent>, rover: nat, units: int, r: int, after: seq<Extent>,
                    at: int)
    requires GrownBy(free, s, q) && FirstFit(s, rover, units, r, after, at)
    ensures FitAfterGrowth(free, q, units, r, after, at)
  {
  }

  /** A request of one unit gets the block after the rover. */
  lemma FirstFitOne(s: seq<Extent>, rover: nat, r: int, after: seq<Extent>, at: int)
    requires Canonical(s) && FirstFit(s, rover, 1, r, after, at)
    ensures r == s[Successor(rover, |s|)].addr
  {
    hide Canonical, NoneBefore;
    var k :| 0 <= k < |s| && s[k].addr == r && NoneBefore(s, rover, k, 1);
    OneUnitFirst(s, rover, k);
  }

  ghost predicate NoneBefore(s: seq<Extent>, rover: nat, k: nat, units: int)
    requires rover < |s| && k < |s|
  {
    forall j :: 0 <= j < |s| && Turn(rover, |s|, j) < Turn(rover, |s|, k) ==> s[j].len < units
  }

  lemma ScanStarts(s: seq<Extent>, rover: nat, units: int)
    requires rover < |s|
    ensures NoneBefore(s, rover, Successor(rover, |s|), units)
  {
  }

  lemma ScanAdvances(s: seq<Extent>, rover: nat, k: nat, units: int)
    requires rover < |s| && k < |s| && s[k].addr != s[rover].addr
    requires NoneBefore(s, rover, k, units) && s[k].len < units
    ensures NoneBefore(s, rover, Successor(k, |s|), units)
    ensures Turn(rover, |s|, Successor(k, |s|)) == Turn(rover, |s|, k) + 1
  {
  }

  lemma FitsLess(s: seq<Extent>, more: int, less: int)
    requires less <= more && Fits(s, more)
    ensures Fits(s, less)
  {
  }

  lemma AllExamined(s: seq<Extent>, rover: nat, k: nat, units: int)
    requires Canonical(s) && rover < |s| && k < |s| && s[k].addr == s[rover].addr
    requires NoneBefore(s, rover, k, units) && s[k].len < units
    ensures !Fits(s, units)
  {
  }

  /** Every block has a unit, so a one-unit request takes the first candidate. */
  lemma OneUnitFirst(s: seq<Extent>, rover: nat, k: nat)
    requires Canonical(s) && rover < |s| && k < |s| && NoneBefore(s, rover, k, 1)
    ensures k == Successor(rover, |s|)
  {
    var first := Successor(rover, |s|);
    assert Turn(rover, |s|, first) == 0 && s[first].len >= 1;
  }

  lemma OneUnitFits(s: seq<Extent>)
    requires Canonical(s) && |s| > 0
    ensures Fits(s, 1)
  {
    assert s[0].len >= 1;
  }

  lemma FirstFitAt(s: seq<Extent>, rover: nat, k: nat, units: int, r: int)
    requires rover < |s| && k < |s| && NoneBefore(s, rover, k, units) && s[k].len >= units && s[k].addr == r
    ensures FirstFit(s, rover, units, r, Carve(s, k, units), s[Before(k, |s|)].addr) && Fits(s, units)
  {
  }

  /** A block is its own successor exactly if it is alone on the list. */
  lemma OwnSuccessor(m: Memory, s: seq<Extent>, k: nat)
    requires Canonical(s) && k < |s| && LinkAt(m, s, k)
    ensures m[s[k].addr].next == s[k].addr <==> |s| == 1
  {
  }

  lemma LoneTaken(m: Memory, arena: int)
    requires arena in m && m[arena].Slob? && m[arena].units == 1
    ensures m[arena].next == arena ==> TakenMemory(m, arena, arena, 1) == m
  {
    assert m[arena].next == arena ==> m[arena := Slob(1, arena)] == m;
  }

  lemma TakenKeepsArena(m: Memory, prev: int, arena: int)
    requires prev in m && m[prev].Slob? && arena in m && m[arena].Slob? && m[arena].units == 1 && prev != arena
    ensures arena in TakenMemory(m, prev, arena, 1) && TakenMemory(m, prev, arena, 1)[arena] == m[arena]
  {
  }

  lemma PositiveAddress(free: seq<Extent>, live: Live, pages: set<int>, arena: int, k: nat)
    requires Accounted(free, live, pages, arena) && k < |free| && free[k].addr != arena
    ensures free[k].addr > 0
  {
    hide Span;
    CoverHas(free, k);
    assert free[k].addr in Range(free[k]);
    assert free[k].addr in PageUnits(pages);
  }

  class SlobHeap {
    const arena: int
    var mem: Memory
    var slobfree: int

    // The page allocator: the answers it will give, the pages it has handed out, and a count of
    // the requests. An answer that is no fresh run of pages counts as NULL.
    var supply: seq<int>
    var held: set<int>
    var asked: nat

    ghost var free: seq<Extent>
    ghost var rover: nat
    ghost var live: Live
    ghost var pages: set<int>

    /** One address-ordered cycle through `slobfree`, with no block touching the next. */
    ghost predicate ListBase()
      reads this
    {
      && Canonical(free)
      && Linked(mem, free)
      && rover < |free| && slobfree == free[rover].addr
    }

    /** And the cycle goes through `arena`. */
    ghost predicate ListOk()
      reads this
    {
      ListBase() && ArenaAlone(free, arena)
    }

    ghost predicate HeapOk()
      reads this
    {
      && ListOk()
      && Accounted(free, live, pages, arena)
      && pages <= held && arena + 1 !in held
    }

    /** The arena has been handed out and is off the list; freeing it would make the heap whole again. */
    ghost predicate HeapLent()
      reads this
    {
      && ListBase() && ArenaOut(free, arena) && Apart(free, Extent(arena, 1))
      && arena in mem && mem[arena].Slob? && mem[arena].units == 1
      && Accounted(Release(free, Extent(arena, 1)), live, pages, arena)
      && pages <= held && arena + 1 !in held
    }

    /** The initial heap: the arena alone, linked to itself. */
    constructor (arena: int, supply: seq<int>)
      ensures HeapOk()
      ensures this.arena == arena && this.supply == supply && held == {} && asked == 0
      ensures free == [Extent(arena, 1)] && live == map[] && pages == {}
      ensures mem == map[arena := Slob(1, arena)] && slobfree == arena
    {
      this.arena := arena;
      mem := map[arena := Slob(1, arena)];
      slobfree := arena;
      this.supply := supply;
      held := {};
      asked := 0;
      free, rover, live, pages := [Extent(arena, 1)], 0, map[], {};
      new;
      assert Range(free[0]) == {arena} && Cover(free) == {arena};
      assert LiveUnits(live) == {} && PageUnits(pages) == {};
      assert LinkAt(mem, free, 0);
    }

    /** The page allocator has `n` pages in a row to give. */
    predicate PagesReady(n: nat)
      reads this
    {
      supply != [] && FreshRun(supply[0], n, held, arena)
    }

    method GetFreePages(n: nat) returns (p: int)
      modifies this`supply, this`held, this`asked
      ensures asked == old(asked) + 1
      ensures p == 0 <==> !old(PagesReady(n))
      ensures old(supply) != [] ==> supply == old(supply)[1..] && (p != 0 ==> p == old(supply)[0])
      ensures p == 0 ==> held == old(held)
      ensures p != 0 ==> FreshRun(p, n, old(held), arena) && held == old(held) + PageRun(p, n)
      ensures arena + 1 !in old(held) ==> arena + 1 !in held
    {
      asked := asked + 1;
      p := 0;
      if PagesReady(n) {
        p := supply[0];
        held := held + PageRun(p, n);
      }
      if supply != [] {
        supply := supply[1..];
      }
    }

    method FreePages(p: int, n: nat)
      requires PageRun(p, n) <= held
      modifies this`held
      ensures held == old(held) - PageRun(p, n)
    {
      held := held - PageRun(p, n);
    }

    /** The scan of slob_free: the block below `b`, or the last block. */
    method FindBelow(b: int, ghost e: Extent, ghost k: nat) returns (cur: int)
      requires Canonical(free) && Linked(mem, free) && rover < |free| && slobfree == free[rover].addr
      requires e.addr == b && e.len > 0 && Slot(free, b, k)
      ensures cur == free[Before(k, |free|)].addr && ScanEnds(mem, slobfree, b)
    {
      hide Linked;
      cur := slobfree;
      ghost var i: nat, n: nat := rover, 0;
      LinkedHas(mem, free, i);
      while !(cur < b < mem[cur].next)
        invariant i < |free| && cur == free[i].addr && LinkAt(mem, free, i) && cur == Walk(mem, slobfree, n)
        decreases Steps(i, Before(k, |free|), |free|)
      {
        StopIsSlot(free, e, k, i);
        if cur >= mem[cur].next && (b > cur || b < mem[cur].next) {
          assert StopsAt(mem, Walk(mem, slobfree, n), b);
          return;
        }
        cur := mem[cur].next;
        i, n := Successor(i, |free|), n + 1;
        LinkedHas(mem, free, i);
      }
      StopIsSlot(free, e, k, i);
      assert StopsAt(mem, Walk(mem, slobfree, n), b);
    }

    /** The stores of slob_free: link `b` above `cur`, swallowing whichever neighbour it touches. */
    method Coalesce(cur: int, b: int)
      requires b in mem && mem[b].Slob? && cur in mem && mem[cur].Slob? && cur != b
      requires mem[cur].next in mem && mem[mem[cur].next].Slob? && mem[cur].next != b
      modifies this`mem
      ensures mem == FreedMemory(old(mem), cur, b, old(mem)[b].units)
    {
      if b + mem[b].units == mem[cur].next {
        var next := mem[mem[cur].next];
        mem := mem[b := Slob(mem[b].units + next.units, next.next)];
      } else {
        mem := mem[b := mem[b].(next := mem[cur].next)];
      }
      if cur + mem[cur].units == b {
        mem := mem[cur := Slob(mem[cur].units + mem[b].units, mem[b].next)];
      } else {
        mem := mem[cur := mem[cur].(next := b)];
      }
    }

    /** slob_free of a block that is not free. `k` listed blocks lie below it. */
    method SlobFree(b: int, size: int) returns (ghost k: nat)
      requires if b == 0 then ListOk() else ListBase()
      requires size >= 0
      requires b != 0 && size == 0 ==> b in mem && mem[b].Slob? && mem[b].units > 0
      requires b != 0 ==> var n := if size != 0 then SlobUnits(size) else mem[b].units;
                          Apart(free, Extent(b, n)) && Freeable(free, Extent(b, n), arena)
      modifies this`mem, this`slobfree, this`free, this`rover
      ensures ListOk()
      ensures b == 0 ==> mem == old(mem) && free == old(free) && slobfree == old(slobfree)
      ensures b != 0 ==> var n := if size != 0 then SlobUnits(size) else old(mem)[b].units;
                         && free == Release(old(free), Extent(b, n))
                         && SameOutside(old(mem), mem, Cover(free))
      ensures b != 0 ==> Slot(old(free), b, k) && k <= |old(free)| && old(free) != []
      ensures b != 0 ==> slobfree == old(free)[Before(k, |old(free)|)].addr
      ensures b != 0 && size == 0 ==>
                && ScanEnds(old(mem), old(slobfree), b)
                && slobfree in old(mem) && old(mem)[slobfree].Slob?
                && old(mem)[slobfree].next in old(mem) && old(mem)[old(mem)[slobfree].next].Slob?
                && mem == FreedMemory(old(mem), slobfree, b, old(mem)[b].units)
    {
      hide Join, Linked, Cover, Canonical, Slot, Apart, ArenaAlone, Span, FreedMemory, SameOutside, Before, Freeable,
           ScanEnds;
      if b == 0 {
        return 0;
      }
      ghost var n := if size != 0 then SlobUnits(size) else mem[b].units;
      ghost var e := Extent(b, n);
      k := FreeSlot(free, e);
      ghost var was := mem;
      if size != 0 {
        mem := mem[b := Slob(SlobUnits(size), 0)];
        LinkedFrame(was, free, b, mem[b]);
      }
      FreedList(mem, free, e, k, arena);
      var cur := FindBelow(b, e, k);
      Coalesce(cur, b);
      slobfree := cur;
      FreedCovers(free, e, rover);
      OutsideStep(was, mem, b, Slob(n, 0), Cover(Release(free, e)));
      free, rover := Join(free, e, k), if k == 0 then |Join(free, e, k)| - 1 else k - 1;
    }

    /** The stores that take `units` from the block after index `i`. */
    method Take(prev: int, cur: int, units: int, ghost i: nat)
      requires HeapOk() && i < |free| && prev == free[i].addr && cur == free[Successor(i, |free|)].addr
      requires 0 < units <= free[Successor(i, |free|)].len && cur != arena
      modifies this`mem, this`slobfree, this`free, this`rover, this`live
      ensures HeapOk()
      ensures free == Carve(old(free), Successor(i, |old(free)|), units)
      ensures cur !in old(live) && live == old(live)[cur := units]
      ensures slobfree == prev
      ensures SameOn(old(mem), mem, LiveUnits(old(live)))
      ensures cur in mem && mem[cur].Slob? && mem[cur].units == units
    {
      hide Canonical, Linked, Accounted, Cover, ArenaAlone, SameOutside, SameOn, Carve;
      ghost var k := Successor(i, |free|);
      TakenList(mem, free, i, units, arena);
      TakenFrame(mem, free, i, units);
      AccountedAlloc(free, live, pages, arena, k, units);
      LiveUntouched(free, live, pages, arena, mem, TakenMemory(mem, prev, cur, units));
      StoreTaken(prev, cur, units);
      slobfree := prev;
      rover := RoverAfter(free, i, units);
      live := live[cur := units];
      free := Carve(free, k, units);
    }

    /** The stores that take the arena, after index `i`. */
    method TakeArena(prev: int, ghost i: nat)
      requires HeapOk() && i == rover && prev == slobfree && free[Successor(i, |free|)].addr == arena
      modifies this`mem, this`slobfree, this`free, this`rover
      ensures prev in old(mem) && old(mem)[prev].Slob? && arena in old(mem) && old(mem)[arena].Slob?
              && old(mem)[arena].units == 1
      ensures mem == TakenMemory(old(mem), prev, arena, 1) && slobfree == prev
      ensures if old(mem)[arena].next == arena then HeapOk() && mem == old(mem) && free == old(free)
              else HeapLent() && |old(free)| >= 2 && old(free)[Successor(i, |old(free)|)] == Extent(arena, 1)
                   && free == Carve(old(free), Successor(i, |old(free)|), 1)
    {
      hide Canonical, Linked, Accounted, Cover, ArenaAlone, Carve, TakenMemory, ArenaOut, Apart;
      ghost var k := Successor(i, |free|);
      LinkedHas(mem, free, i);
      LinkedHas(mem, free, k);
      ArenaClear(free, arena, k);
      OwnSuccessor(mem, free, k);
      LoneTaken(mem, arena);
      if |free| >= 2 {
        ArenaTakenList(mem, free, i, arena);
        TakenKeepsArena(mem, prev, arena);
        rover := RoverAfter(free, i, 1);
        free := Carve(free, k, 1);
      }
      StoreTaken(prev, arena, 1);
      slobfree := prev;
    }

    method StoreTaken(prev: int, cur: int, units: int)
      requires prev in mem && mem[prev].Slob? && cur in mem && mem[cur].Slob?
      requires prev == cur ==> mem[cur].units == units
      requires 0 < units <= mem[cur].units
      modifies this`mem
      ensures mem == TakenMemory(old(mem), prev, cur, units)
    {
      if mem[cur].units == units {
        mem := mem[prev := mem[prev].(next := mem[cur].next)];
      } else {
        mem := mem[prev := mem[prev].(next := cur + units)];
        mem := mem[cur + units := Slob(mem[cur].units - units, mem[cur].next)];
        mem := mem[cur := mem[cur].(units := units)];
      }
    }

    /** Ask for one page and free it into the list. */
    method Grow() returns (ok: bool)
      requires HeapOk()
      modifies this
      ensures HeapOk() && live == old(live)
      ensures asked == old(asked) + 1
      ensures ok <==> old(PagesReady(1))
      ensures !ok ==> free == old(free) && mem == old(mem) && pages == old(pages) && held == old(held)
      ensures ok ==> GrewBy(old(pages), pages, old(held), held) && Fits(free, PAGE)
      ensures ok ==> old(supply) != [] && GrownBy(old(free), free, old(supply)[0])
      ensures ok ==> old(supply) != [] && supply == old(supply)[1..] && held == old(held) + {old(supply)[0]}
      ensures SameOn(old(mem), mem, LiveUnits(live))
    {
      hide Canonical, Linked, Accounted, Cover, ArenaAlone, SameOutside, SameOn, Fits, Apart, Span, NewPage;
      var page := GetFreePages(1);
      if page == 0 {
        SameOnSelf(mem, LiveUnits(live));
        return false;
      }
      FreshIsNew(page, old(held), pages, arena);
      AccountedGrow(free, live, pages, arena, page);
      ReleaseFits(free, Extent(page, PAGE));
      ghost var k;
      k := SlobFree(page, PAGE_SIZE);
      pages := pages + {page};
      LiveUntouched(free, live, pages, arena, old(mem), mem);
      assert GrewBy(old(pages), pages, old(held), held);
      return true;
    }

    method SlobAlloc(size: int) returns (r: int)
      requires HeapOk()
      requires 1 <= size && size + UNIT < PAGE_SIZE
      modifies this
      ensures TakesArena(old(mem), old(slobfree), arena, SlobUnits(size)) ==>
                && r == arena && arena in old(mem) && old(mem)[arena].Slob? && old(mem)[arena].units == 1
                && mem == TakenMemory(old(mem), old(slobfree), arena, 1)
                && (if old(mem)[arena].next == arena then HeapOk() && mem == old(mem) && free == old(free)
                    else HeapLent() && |old(free)| >= 2
                         && old(free)[Successor(old(rover), |old(free)|)] == Extent(arena, 1)
                         && free == Carve(old(free), Successor(old(rover), |old(free)|), 1))
                && slobfree == old(slobfree) && live == old(live) && pages == old(pages) && held == old(held)
                && supply == old(supply) && asked == old(asked)
      ensures !TakesArena(old(mem), old(slobfree), arena, SlobUnits(size)) ==>
                && HeapOk()
                && SameOn(old(mem), mem, LiveUnits(old(live)))
                && (r == 0 <==> !Fits(old(free), SlobUnits(size)) && !old(PagesReady(1)))
                && (r == 0 ==> live == old(live) && pages == old(pages) && held == old(held))
                && (r != 0 ==>
                      && r !in old(live) && live == old(live)[r := SlobUnits(size)]
                      && size <= UNIT * live[r] < size + UNIT
                      && r in mem && mem[r].Slob? && mem[r].units == SlobUnits(size))
                && (Fits(old(free), SlobUnits(size)) ==>
                      && asked == old(asked) && pages == old(pages) && held == old(held) && supply == old(supply)
                      && FirstFit(old(free), old(rover), SlobUnits(size), r, free, slobfree))
                && (!Fits(old(free), SlobUnits(size)) ==>
                      && asked == old(asked) + 1
                      && (r != 0 ==> GrewBy(old(pages), pages, old(held), held))
                      && (r != 0 ==>
                            && old(supply) != [] && supply == old(supply)[1..] && held == old(held) + {old(supply)[0]}
                            && FitAfterGrowth(old(free), old(supply)[0], SlobUnits(size), r, free, slobfree)))
      ensures SlobUnits(size) == 1 ==> old(slobfree) in old(mem) && old(mem)[old(slobfree)].Slob?
                                       && r == old(mem)[old(slobfree)].next
    {
      hide Canonical, Linked, Accounted, Cover, ArenaAlone, SameOutside, SameOn, Carve, GrewBy,
        NoneBefore, FirstFit, Fits, GrownBy, FitAfterGrowth, Release, ArenaOut, Apart, TakenMemory, FreshRun;
      var units := SlobUnits(size);
      var prev := slobfree;
      ghost var i: nat, k: nat := rover, Successor(rover, |free|);
      ghost var grown := false;
      LinkedHas(mem, free, i);
      var cur := mem[prev].next;
      SameOnSelf(mem, LiveUnits(live));
      ScanStarts(free, rover, units);
      OneUnitFits(free);
      while true
        invariant HeapOk() && live == old(live)
        invariant i < |free| && prev == free[i].addr && k == Successor(i, |free|) && cur == free[k].addr
        invariant NoneBefore(free, rover, k, units)
        invariant SameOn(old(mem), mem, LiveUnits(live))
        invariant !grown ==> free == old(free) && mem == old(mem) && rover == old(rover) && slobfree == old(slobfree)
        invariant !grown ==> asked == old(asked) && pages == old(pages) && held == old(held) && supply == old(supply)
        invariant grown ==> old(supply) != [] && GrownBy(old(free), free, old(supply)[0])
        invariant grown ==> old(PagesReady(1)) && supply == old(supply)[1..] && held == old(held) + {old(supply)[0]}
        invariant grown ==> Fits(free, PAGE) && !Fits(old(free), units)
        invariant grown ==> asked == old(asked) + 1 && GrewBy(old(pages), pages, old(held), held)
        decreases !grown, |free| - Turn(rover, |free|, k)
      {
        LinkedHas(mem, free, k);
        if mem[cur].units >= units {
          if units == 1 {
            OneUnitFirst(free, rover, k);
          }
          if cur == arena {
            ArenaClear(free, arena, k);
            assert units == 1;
            TakeArena(prev, i);
            return cur;
          }
          PositiveAddress(free, live, pages, arena, k);
          FirstFitAt(free, rover, k, units, cur);
          if units == 1 {
            FirstFitOne(free, rover, cur, Carve(free, k, units), prev);
          }
          if grown {
            FitWasGrown(old(free), old(supply)[0], free, rover, units, cur, Carve(free, k, units), prev);
          }
          ghost var before := mem;
          Take(prev, cur, units, i);
          SameOnChain(old(mem), before, mem, LiveUnits(old(live)));
          return cur;
        }
        if cur == slobfree {
          AllExamined(free, rover, k, units);
          if grown {
            FitsLess(free, PAGE, units);
          }
          ghost var before := mem;
          var ok := Grow();
          SameOnChain(old(mem), before, mem, LiveUnits(live));
          if !ok {
            return 0;
          }
          cur := slobfree;
          grown := true;
          k := rover;
          ScanStarts(free, rover, units);
        } else {
          ScanAdvances(free, rover, k, units);
        }
        prev := cur;
        i, k := k, Successor(k, |free|);
        LinkedHas(mem, free, i);
        cur := mem[prev].next;
      }
    }
  }
}
