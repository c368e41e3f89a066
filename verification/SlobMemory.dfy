/**
 The SLOB heap of lab4/kern/mm/kmalloc.c: a circular, address-ordered free list scanned from a
 roving pointer, with splitting, two-sided coalescing and growth by one page.

 Addresses are counted in units of 16 bytes (`sizeof(slob_t)`), so a page is 256 units and pointer
 arithmetic on `slob_t *` is integer addition. Memory is a map from addresses to cells; a cell is
 read either as a block header or as a big-block descriptor, whichever was written last.
 */
module SlobMemory {
  import opened Sequences
  import opened Extents

  const UNIT := 16
  const PAGE_SIZE := 4096
  const PAGE := 256

  /** The least number of units that hold `size` bytes. */
  function SlobUnits(size: int): (units: int)
    ensures UNIT * units - UNIT < size <= UNIT * units
  {
    (size + UNIT - 1) / UNIT
  }

  datatype Cell =
    | Slob(units: int, next: int)
    | Big(order: nat, pages: int, link: int)

  type Memory = map<int, Cell>

  ghost predicate LinkAt(mem: Memory, s: seq<Extent>, i: nat)
    requires i < |s|
  {
    s[i].addr in mem && mem[s[i].addr] == Slob(s[i].len, s[Successor(i, |s|)].addr)
  }

  /** Memory holds the list `s` as one cycle in index order. */
  ghost predicate Linked(mem: Memory, s: seq<Extent>) {
    forall i :: 0 <= i < |s| ==> LinkAt(mem, s, i)
  }

  lemma LinkedHas(mem: Memory, s: seq<Extent>, i: nat)
    requires Linked(mem, s) && i < |s|
    ensures LinkAt(mem, s, i)
  {
  }

  ghost predicate SameOutside(m: Memory, m': Memory, area: set<int>) {
    forall a :: a !in area ==> (a in m <==> a in m') && (a in m ==> m[a] == m'[a])
  }

  /** The static header is on the list and no free unit is next to it. */
  ghost predicate ArenaAlone(s: seq<Extent>, arena: int) {
    arena in Cover(s) && arena - 1 !in Cover(s) && arena + 1 !in Cover(s)
  }

  /** The static header has been handed out; still no free unit is next to it. */
  ghost predicate ArenaOut(s: seq<Extent>, arena: int) {
    arena !in Cover(s) && arena - 1 !in Cover(s) && arena + 1 !in Cover(s)
  }

  lemma ArenaEntry(s: seq<Extent>, arena: int) returns (i: nat)
    requires Canonical(s) && ArenaAlone(s, arena)
    ensures i < |s| && s[i] == Extent(arena, 1)
  {
    CoverMember(s, arena);
    i :| 0 <= i < |s| && s[i].addr <= arena < s[i].End();
    CoverHas(s, i);
    assert arena - 1 !in Range(s[i]) && arena + 1 !in Range(s[i]);
  }

  /** Every block other than the arena lies clear of it. */
  lemma ArenaClear(s: seq<Extent>, arena: int, k: nat)
    requires Canonical(s) && ArenaAlone(s, arena) && k < |s|
    ensures s[k].addr == arena ==> s[k].len == 1
    ensures s[k].addr != arena ==> arena !in Range(s[k]) && |s| >= 2
  {
    var i := ArenaEntry(s, arena);
    assert i < k ==> s[i].End() <= s[k].addr;
    assert k < i ==> s[k].End() <= s[i].addr;
  }

  // ---------- where a freed block goes ----------

  /** Steps round a cycle of length `n` from index `i` to index `p`. */
  function Steps(i: nat, p: nat, n: nat): (d: nat)
    requires i < n && p < n
  {
    if i <= p then p - i else p - i + n
  }

  function Before(k: nat, n: nat): (p: nat)
    requires k <= n && n > 0
    ensures p < n
  {
    if k == 0 then n - 1 else k - 1
  }

  /** The scan of slob_free stops exactly at the block below the freed one, or at the last block
      when the freed one lies outside all of them. */
  predicate StopsHere(cur: int, next: int, b: int) {
    (cur < b < next) || (cur >= next && (b > cur || b < next))
  }

  /** The block the scan has reached after `n` steps. */
  ghost function Walk(m: Memory, cur: int, n: nat): int {
    if n == 0 then cur
    else
      var at := Walk(m, cur, n - 1);
      if at in m && m[at].Slob? then m[at].next else at
  }

  ghost predicate StopsAt(m: Memory, cur: int, b: int) {
    cur in m && m[cur].Slob? && StopsHere(cur, m[cur].next, b)
  }

  /** The scan of slob_free for block `b`, started at `cur`, comes to an end. */
  ghost predicate ScanEnds(m: Memory, cur: int, b: int) {
    exists n: nat :: StopsAt(m, Walk(m, cur, n), b)
  }

  /** A block that is alone on the list and is freed again makes the scan go round for ever. */
  lemma {:induction false} LoneScan(m: Memory, b: int)
    requires b in m && m[b].Slob? && m[b].next == b
    ensures !ScanEnds(m, b, b)
  {
    forall n: nat ensures !StopsAt(m, Walk(m, b, n), b) {
      LoneWalk(m, b, n);
    }
  }

  lemma {:induction false} LoneWalk(m: Memory, b: int, n: nat)
    requires b in m && m[b].Slob? && m[b].next == b
    ensures Walk(m, b, n) == b
  {
    if n > 0 {
      LoneWalk(m, b, n - 1);
    }
  }

  lemma StopIsSlot(s: seq<Extent>, e: Extent, k: nat, i: nat)
    requires Canonical(s) && e.len > 0 && Slot(s, e.addr, k) && i < |s|
    ensures StopsHere(s[i].addr, s[Successor(i, |s|)].addr, e.addr) <==> i == Before(k, |s|)
  {
  }

  // ---------- the cells of a changed list ----------

  /** Distinct headers in address order; all that the link proofs need of the order. */
  ghost predicate Ascending(s: seq<Extent>) {
    forall i, j :: 0 <= i < j < |s| ==> s[i].addr < s[j].addr
  }

  lemma InsertLinked(m: Memory, s: seq<Extent>, e: Extent, k: nat)
    requires Ascending(s) && Linked(m, s) && Slot(s, e.addr, k) && |s| > 0
    ensures var p := Before(k, |s|);
            Linked(m[e.addr := Slob(e.len, s[Successor(p, |s|)].addr)][s[p].addr := Slob(s[p].len, e.addr)],
                   s[..k] + [e] + s[k..])
  {
    var p := Before(k, |s|);
    var t := s[..k] + [e] + s[k..];
    var m' := m[e.addr := Slob(e.len, s[Successor(p, |s|)].addr)][s[p].addr := Slob(s[p].len, e.addr)];
    forall i | 0 <= i < |t| ensures LinkAt(m', t, i) {
      if i != k {
        assert LinkAt(m, s, if i < k then i else i - 1);
      }
    }
  }

  lemma InsertAscending(s: seq<Extent>, e: Extent, k: nat)
    requires Ascending(s) && Slot(s, e.addr, k)
    ensures Ascending(s[..k] + [e] + s[k..])
    ensures MeetsNext(s, e, k) ==> Ascending(Fuse(s[..k] + [e] + s[k..], k))
  {
  }

  lemma FuseLinked(m: Memory, s: seq<Extent>, i: nat)
    requires Ascending(s) && Linked(m, s) && i + 1 < |s|
    ensures Linked(m[s[i].addr := Slob(s[i].len + s[i + 1].len, s[Successor(i + 1, |s|)].addr)], Fuse(s, i))
  {
    var t := Fuse(s, i);
    var m' := m[s[i].addr := Slob(s[i].len + s[i + 1].len, s[Successor(i + 1, |s|)].addr)];
    forall j | 0 <= j < |t| ensures LinkAt(m', t, j) {
      assert LinkAt(m, s, if j <= i then j else j + 1);
    }
  }

  lemma DropLinked(m: Memory, s: seq<Extent>, i: nat)
    requires Ascending(s) && Linked(m, s) && i < |s| && |s| >= 2
    ensures var k := Successor(i, |s|);
            Linked(m[s[i].addr := Slob(s[i].len, s[Successor(k, |s|)].addr)], s[..k] + s[k + 1..])
  {
    var k := Successor(i, |s|);
    var t := s[..k] + s[k + 1..];
    var m' := m[s[i].addr := Slob(s[i].len, s[Successor(k, |s|)].addr)];
    forall j | 0 <= j < |t| ensures LinkAt(m', t, j) {
      assert LinkAt(m, s, if j < k then j else j + 1);
    }
  }

  lemma ShrinkLinked(m: Memory, s: seq<Extent>, i: nat, n: int)
    requires Canonical(s) && Linked(m, s) && i < |s| && |s| >= 2
    requires 0 < n < s[Successor(i, |s|)].len
    ensures var k := Successor(i, |s|);
            var c, after := s[k], s[Successor(k, |s|)].addr;
            Linked(m[s[i].addr := Slob(s[i].len, c.addr + n)][c.addr + n := Slob(c.len - n, after)]
                    [c.addr := Slob(n, after)],
                   s[k := Extent(c.addr + n, c.len - n)])
  {
    var k := Successor(i, |s|);
    var c, after := s[k], s[Successor(k, |s|)].addr;
    var t := s[k := Extent(c.addr + n, c.len - n)];
    var m' := m[s[i].addr := Slob(s[i].len, c.addr + n)][c.addr + n := Slob(c.len - n, after)]
               [c.addr := Slob(n, after)];
    forall j | 0 <= j < |t| ensures LinkAt(m', t, j) {
      assert LinkAt(m, s, j);
    }
  }

  /** Memory after the stores of slob_free, with `cur` the block found by its scan. */
  ghost function FreedMemory(m: Memory, cur: int, b: int, n: int): (r: Memory)
    requires cur in m && m[cur].Slob? && m[cur].next in m && m[m[cur].next].Slob?
  {
    var block := FreedCell(m, m[cur].next, Extent(b, n));
    if cur + m[cur].units == b then m[b := block][cur := Slob(m[cur].units + block.units, block.next)]
    else m[b := block][cur := Slob(m[cur].units, b)]
  }

  lemma SlotNeighbours(s: seq<Extent>, e: Extent, k: nat)
    requires Canonical(s) && e.len > 0 && Apart(s, e) && Slot(s, e.addr, k) && |s| > 0
    ensures Ascending(s)
    ensures var p := Before(k, |s|);
            && (e.End() == s[Successor(p, |s|)].addr <==> MeetsNext(s, e, k))
            && (s[p].End() == e.addr <==> k > 0 && s[k - 1].End() == e.addr)
  {
  }

  /** The list once the freed block is in and has swallowed the block above it. */
  ghost function MergedUp(s: seq<Extent>, e: Extent, k: nat): seq<Extent>
    requires k <= |s|
  {
    var t := s[..k] + [e] + s[k..];
    if MeetsNext(s, e, k) then Fuse(t, k) else t
  }

  ghost function FreedCell(m: Memory, nx: int, e: Extent): Cell
    requires nx in m && m[nx].Slob?
  {
    if e.End() == nx then Slob(e.len + m[nx].units, m[nx].next) else Slob(e.len, nx)
  }

  lemma MergedUpEntry(m: Memory, s: seq<Extent>, e: Extent, k: nat)
    requires k <= |s| && |s| > 0 && Linked(m, s) && (|s| == 1 ==> !MeetsNext(s, e, k))
    ensures var t := s[..k] + [e] + s[k..];
            && t[Successor(k, |t|)].addr == s[if k == |s| then 0 else k].addr
            && (MeetsNext(s, e, k) ==>
                  LinkAt(m, s, k) && t[Successor(k + 1, |t|)].addr == m[s[k].addr].next)
    ensures var r := MergedUp(s, e, k);
            && |r| > k
            && (MeetsNext(s, e, k) ==>
                  && LinkAt(m, s, k)
                  && r[k] == Extent(e.addr, e.len + s[k].len)
                  && r[Successor(k, |r|)].addr == m[s[k].addr].next)
            && (k > 0 ==> r[k - 1] == s[k - 1])
  {
    if MeetsNext(s, e, k) {
      assert LinkAt(m, s, k);
    }
  }

  lemma MergedUpLinked(m: Memory, s: seq<Extent>, e: Extent, k: nat)
    requires Canonical(s) && e.len > 0 && Apart(s, e) && Slot(s, e.addr, k) && k <= |s| && |s| > 0
    requires Linked(m, s)
    requires |s| == 1 ==> e.End() != s[0].addr
    ensures var p := Before(k, |s|);
            var nx := s[Successor(p, |s|)].addr;
            var r := MergedUp(s, e, k);
            && LinkAt(m, s, Successor(p, |s|)) && Ascending(r) && |r| > k
            && Linked(m[e.addr := FreedCell(m, nx, e)][s[p].addr := Slob(s[p].len, e.addr)], r)
            && FreedCell(m, nx, e) == Slob(r[k].len, r[Successor(k, |r|)].addr)
            && (k > 0 ==> r[k - 1] == s[k - 1])
  {
    hide Linked, Canonical, Ascending, Fuse, Apart, Slot;
    var p := Before(k, |s|);
    LinkedHas(m, s, Successor(p, |s|));
    SlotNeighbours(s, e, k);
    InsertLinked(m, s, e, k);
    InsertAscending(s, e, k);
    MergedUpEntry(m, s, e, k);
    if MeetsNext(s, e, k) {
      var nx := s[k].addr;
      var m1 := m[e.addr := Slob(e.len, nx)][s[p].addr := Slob(s[p].len, e.addr)];
      FuseLinked(m1, s[..k] + [e] + s[k..], k);
      assert m1[e.addr := FreedCell(m, nx, e)]
          == m[e.addr := FreedCell(m, nx, e)][s[p].addr := Slob(s[p].len, e.addr)];
    }
  }

  /** The stores of slob_free are those of an insertion, a merge upwards and a merge downwards. */
  lemma JoinLinked(m: Memory, s: seq<Extent>, e: Extent, k: nat)
    requires Canonical(s) && e.len > 0 && Apart(s, e) && Slot(s, e.addr, k) && k <= |s| && |s| > 0
    requires Linked(m, s)
    requires |s| == 1 ==> e.End() != s[0].addr
    ensures var p := Before(k, |s|);
            && LinkAt(m, s, p) && LinkAt(m, s, Successor(p, |s|))
            && Linked(FreedMemory(m, s[p].addr, e.addr, e.len), Join(s, e, k))
  {
    hide Join, Linked, Canonical, Ascending, Fuse, Apart, Slot;
    var p := Before(k, |s|);
    LinkedHas(m, s, p);
    SlotNeighbours(s, e, k);
    JoinShape(s, e, k);
    MergedUpLinked(m, s, e, k);
    if k > 0 && s[k - 1].End() == e.addr {
      var cell := FreedCell(m, s[Successor(p, |s|)].addr, e);
      var m1 := m[e.addr := cell][s[p].addr := Slob(s[p].len, e.addr)];
      FuseLinked(m1, MergedUp(s, e, k), k - 1);
      assert m1[s[p].addr := Slob(s[p].len + cell.units, cell.next)]
          == FreedMemory(m, s[p].addr, e.addr, e.len);
    }
  }

  lemma LinkedFrame(m: Memory, s: seq<Extent>, b: int, cell: Cell)
    requires Linked(m, s) && (forall e :: e in s ==> e.addr != b)
    ensures Linked(m[b := cell], s)
  {
    var m' := m[b := cell];
    forall i | 0 <= i < |s| ensures LinkAt(m', s, i) {
      assert LinkAt(m, s, i);
    }
  }

  lemma HeadCovered(s: seq<Extent>, i: nat)
    requires Canonical(s) && i < |s|
    ensures s[i].addr in Cover(s)
  {
    hide Cover;
    CoverHas(s, i);
    assert s[i].addr in Range(s[i]);
  }

  /** What slob_free may be given: a block clear of the listed arena, or the arena itself if it is not listed. */
  ghost predicate Freeable(s: seq<Extent>, e: Extent, arena: int) {
    || (ArenaAlone(s, arena) && arena !in Range(e) && e.End() != arena && e.addr != arena + 1)
    || (ArenaOut(s, arena) && e == Extent(arena, 1) && |s| > 0)
  }

  lemma ArenaStays(s: seq<Extent>, e: Extent, arena: int)
    requires Canonical(s) && e.len > 0 && Apart(s, e) && Freeable(s, e, arena)
    ensures ArenaAlone(Release(s, e), arena)
    ensures |s| > 0 && (|s| == 1 ==> e.End() != s[0].addr)
  {
    hide Cover, Canonical;
    if ArenaAlone(s, arena) {
      var i := ArenaEntry(s, arena);
    } else {
      HeadCovered(s, 0);
    }
  }

  lemma JoinIsRelease(s: seq<Extent>, e: Extent, k: nat)
    requires Canonical(s) && e.len > 0 && Apart(s, e) && Slot(s, e.addr, k)
    ensures Join(s, e, k) == Release(s, e)
  {
    hide Join, Cover, Apart, Separated, Sorted;
    JoinCover(s, e, k);
    CanonicalUnique(Join(s, e, k), Release(s, e));
  }

  /** The block at which the scan stopped is still a block of the list. */
  lemma JoinKeepsStop(s: seq<Extent>, e: Extent, k: nat)
    requires |s| > 0 && k <= |s| && (|s| == 1 ==> !MeetsNext(s, e, k))
    ensures var r := Join(s, e, k);
            var at := if k == 0 then |r| - 1 else k - 1;
            0 <= at < |r| && r[at].addr == s[Before(k, |s|)].addr
  {
  }

  lemma FreedMemoryFrame(m: Memory, cur: int, b: int, n: int, area: set<int>)
    requires cur in m && m[cur].Slob? && m[cur].next in m && m[m[cur].next].Slob?
    requires cur in area && b in area
    ensures SameOutside(m, FreedMemory(m, cur, b, n), area)
  {
  }

  lemma OutsideStep(m: Memory, m': Memory, b: int, cell: Cell, area: set<int>)
    requires b in area && (SameOutside(m[b := cell], m', area) || SameOutside(m, m', area))
    ensures SameOutside(m, m', area)
  {
  }

  lemma FreedCovers(s: seq<Extent>, e: Extent, i: nat)
    requires Canonical(s) && e.len > 0 && Apart(s, e) && i < |s|
    ensures s[i].addr in Cover(Release(s, e)) && e.addr in Cover(Release(s, e))
  {
    hide Cover;
    CoverHas(s, i);
    assert s[i].addr in Range(s[i]) && e.addr in Range(e);
  }

  /** slob_free, end to end: with `cur` the block its scan stops at, its stores leave the coalesced
      list of the old free units and the freed ones, and `cur` is still a block of that list. */
  lemma FreedList(m: Memory, s: seq<Extent>, e: Extent, k: nat, arena: int)
    requires Canonical(s) && Linked(m, s) && Freeable(s, e, arena)
    requires e.len > 0 && Apart(s, e) && Slot(s, e.addr, k) && k <= |s|
    ensures |s| > 0 && LinkAt(m, s, Before(k, |s|)) && LinkAt(m, s, Successor(Before(k, |s|), |s|))
    ensures var r := Join(s, e, k);
            var at := if k == 0 then |r| - 1 else k - 1;
            && r == Release(s, e) && ArenaAlone(r, arena)
            && Linked(FreedMemory(m, s[Before(k, |s|)].addr, e.addr, e.len), r)
            && 0 <= at < |r| && r[at].addr == s[Before(k, |s|)].addr
            && SameOutside(m, FreedMemory(m, s[Before(k, |s|)].addr, e.addr, e.len), Cover(r))
  {
    hide Join, Linked, Cover, Canonical, Slot, Apart, FreedMemory, SameOutside, ArenaAlone, Span;
    ArenaStays(s, e, arena);
    JoinLinked(m, s, e, k);
    JoinIsRelease(s, e, k);
    JoinKeepsStop(s, e, k);
    FreedCovers(s, e, Before(k, |s|));
    FreedMemoryFrame(m, s[Before(k, |s|)].addr, e.addr, e.len, Cover(Release(s, e)));
  }

  // ---------- taking a block ----------

  /** Memory after the stores of slob_alloc that take `units` from block `cur` after `prev`. */
  ghost function TakenMemory(m: Memory, prev: int, cur: int, units: int): (r: Memory)
    requires prev in m && m[prev].Slob? && cur in m && m[cur].Slob?
  {
    if m[cur].units == units then m[prev := Slob(m[prev].units, m[cur].next)]
    else m[prev := Slob(m[prev].units, cur + units)]
          [cur + units := Slob(m[cur].units - units, m[cur].next)]
          [cur := Slob(units, m[cur].next)]
  }

  lemma CarveLinked(m: Memory, s: seq<Extent>, i: nat, units: int)
    requires Canonical(s) && Linked(m, s) && i < |s| && |s| >= 2
    requires 0 < units <= s[Successor(i, |s|)].len
    ensures LinkAt(m, s, i) && LinkAt(m, s, Successor(i, |s|))
    ensures Linked(TakenMemory(m, s[i].addr, s[Successor(i, |s|)].addr, units),
                   Carve(s, Successor(i, |s|), units))
  {
    hide Linked;
    var k := Successor(i, |s|);
    LinkedHas(m, s, i);
    LinkedHas(m, s, k);
    if s[k].len == units {
      DropLinked(m, s, i);
    } else {
      ShrinkLinked(m, s, i, units);
    }
  }

  lemma TakenFrame(m: Memory, s: seq<Extent>, i: nat, units: int)
    requires Canonical(s) && i < |s| && 0 < units <= s[Successor(i, |s|)].len
    requires LinkAt(m, s, i) && LinkAt(m, s, Successor(i, |s|)) && |s| >= 2
    ensures var m' := TakenMemory(m, s[i].addr, s[Successor(i, |s|)].addr, units);
            var cur := s[Successor(i, |s|)].addr;
            SameOutside(m, m', Cover(s)) && cur in m' && m'[cur].Slob? && m'[cur].units == units
  {
    hide Cover;
    var k := Successor(i, |s|);
    CoverHas(s, i);
    CoverHas(s, k);
    assert s[i].addr in Range(s[i]) && s[k].addr in Range(s[k]);
    assert s[k].len > units ==> s[k].addr + units in Range(s[k]);
  }

  function RoverAfter(s: seq<Extent>, i: nat, units: int): (r: int)
    requires i < |s|
  {
    var k := Successor(i, |s|);
    if s[k].len == units && k < i then i - 1 else i
  }

  /** Taking units from the block after index `i`, end to end. */
  lemma TakenList(m: Memory, s: seq<Extent>, i: nat, units: int, arena: int)
    requires Canonical(s) && Linked(m, s) && ArenaAlone(s, arena) && i < |s|
    requires s[Successor(i, |s|)].addr != arena && 0 < units <= s[Successor(i, |s|)].len
    ensures LinkAt(m, s, i) && LinkAt(m, s, Successor(i, |s|)) && |s| >= 2
    ensures var k := Successor(i, |s|);
            var r := Carve(s, k, units);
            var at := RoverAfter(s, i, units);
            && Canonical(r) && ArenaAlone(r, arena)
            && Linked(TakenMemory(m, s[i].addr, s[k].addr, units), r)
            && 0 <= at < |r| && r[at].addr == s[i].addr && s[i].addr != s[k].addr
  {
    hide Linked, Cover;
    var k := Successor(i, |s|);
    ArenaClear(s, arena, k);
    CarveSorted(s, k, units);
    CarveCover(s, k, units);
    CarveLinked(m, s, i, units);
    assert arena !in Span(s[k].addr, units);
  }

  /** Taking the arena from a list of several blocks: it is unlinked, and nothing else changes. */
  lemma ArenaTakenList(m: Memory, s: seq<Extent>, i: nat, arena: int)
    requires Canonical(s) && Linked(m, s) && ArenaAlone(s, arena) && |s| >= 2
    requires i < |s| && s[Successor(i, |s|)].addr == arena
    ensures LinkAt(m, s, i) && LinkAt(m, s, Successor(i, |s|)) && s[Successor(i, |s|)].len == 1
    ensures var k := Successor(i, |s|);
            var r := Carve(s, k, 1);
            var at := RoverAfter(s, i, 1);
            && Canonical(r) && ArenaOut(r, arena) && Apart(r, Extent(arena, 1)) && Release(r, Extent(arena, 1)) == s
            && Linked(TakenMemory(m, s[i].addr, arena, 1), r)
            && 0 <= at < |r| && r[at].addr == s[i].addr && s[i].addr != arena
  {
    hide Linked, Cover;
    var k := Successor(i, |s|);
    ArenaClear(s, arena, k);
    CarveSorted(s, k, 1);
    CarveCover(s, k, 1);
    CarveLinked(m, s, i, 1);
    ReleaseUndoesCarve(s, k, 1);
  }

  /** Freeing the arena again: the scan stops at the block before it, and the stores restore memory exactly. */
  lemma ArenaBack(m: Memory, s: seq<Extent>, i: nat, arena: int)
    requires Canonical(s) && Linked(m, s) && ArenaAlone(s, arena) && |s| >= 2
    requires i < |s| && s[Successor(i, |s|)].addr == arena
    ensures var k := Successor(i, |s|);
            var r := Carve(s, k, 1);
            && LinkAt(m, s, i) && LinkAt(m, s, k)
            && Slot(r, arena, k) && k <= |r| && r[Before(k, |r|)].addr == s[i].addr
            && var m1 := TakenMemory(m, s[i].addr, arena, 1);
               && s[i].addr in m1 && m1[s[i].addr].Slob? && m1[s[i].addr].next in m1 && m1[m1[s[i].addr].next].Slob?
               && FreedMemory(m1, s[i].addr, arena, 1) == m
  {
    hide Linked, Cover, Canonical, FreedMemory, ArenaAlone;
    var k := Successor(i, |s|);
    var next := Successor(k, |s|);
    ArenaTakenList(m, s, i, arena);
    LinkedHas(m, s, next);
    ArenaSlot(s, i, arena);
    NotBesideArena(s, arena, i);
    NotBesideArena(s, arena, next);
    ArenaStores(m, s[i].addr, s[next].addr, arena);
  }

  lemma ArenaSlot(s: seq<Extent>, i: nat, arena: int)
    requires Canonical(s) && |s| >= 2 && i < |s|
    requires s[Successor(i, |s|)].addr == arena && s[Successor(i, |s|)].len == 1
    ensures var k := Successor(i, |s|);
            var r := Carve(s, k, 1);
            && Slot(r, arena, k) && k <= |r| && |r| > 0 && r[Before(k, |r|)].addr == s[i].addr
            && s[i].addr != arena && s[Successor(k, |s|)].addr != arena
  {
    var k := Successor(i, |s|);
    var r := Carve(s, k, 1);
    assert forall j :: 0 <= j < |r| ==> r[j] == s[if j < k then j else j + 1];
  }

  lemma ArenaStores(m: Memory, prev: int, next: int, arena: int)
    requires prev in m && m[prev].Slob? && m[prev].next == arena && prev + m[prev].units != arena
    requires arena in m && m[arena] == Slob(1, next) && next in m && m[next].Slob?
    requires prev != arena && next != arena && next != arena + 1
    ensures var m1 := TakenMemory(m, prev, arena, 1);
            && prev in m1 && m1[prev].Slob? && m1[prev].next in m1 && m1[m1[prev].next].Slob?
            && FreedMemory(m1, prev, arena, 1) == m
  {
    var m1 := TakenMemory(m, prev, arena, 1);
    assert m1 == m[prev := Slob(m[prev].units, next)];
    assert FreedMemory(m1, prev, arena, 1) == m1[arena := Slob(1, next)][prev := Slob(m[prev].units, arena)];
  }

  lemma NotBesideArena(s: seq<Extent>, arena: int, j: nat)
    requires Canonical(s) && ArenaAlone(s, arena) && j < |s|
    ensures s[j].addr != arena ==> s[j].End() != arena && s[j].addr != arena + 1
  {
    hide Cover;
    CoverHas(s, j);
    assert s[j].addr in Range(s[j]) && s[j].End() - 1 in Range(s[j]);
  }
}
