/**
 The best-fit page allocator of lab2/kern/mm/best_fit_pmm.c: an address-ordered list of free blocks,
 each named by its first page. Pages are numbered from 0; -1 is the address of the list head.
 */
module BestFitList {
  import opened Sequences
  import opened Extents
  import opened ListRing

  const HEAD := -1

  type Sizes = map<int, int>

  function Addrs(s: seq<Extent>): (a: seq<int>)
    ensures |a| == |s| && forall i :: 0 <= i < |s| ==> a[i] == s[i].addr
  {
    seq(|s|, i requires 0 <= i < |s| => s[i].addr)
  }

  function RingOf(s: seq<Extent>): (r: seq<int>) {
    [HEAD] + Addrs(s)
  }

  /** Each block's first page holds the block's size. */
  ghost predicate Sized(property: Sizes, s: seq<Extent>) {
    forall i :: 0 <= i < |s| ==> s[i].addr in property && property[s[i].addr] == s[i].len
  }

  /** The links hold the list `s`, and PG_property is set exactly on the first pages of its blocks. */
  ghost predicate Represents(links: Links, property: Sizes, heads: set<int>, s: seq<Extent>) {
    && Ring(links, RingOf(s))
    && Sized(property, s)
    && (forall p :: p in heads <==> p in Addrs(s))
  }

  lemma RingApart(links: Links, s: seq<Extent>, i: nat, j: nat)
    requires Ring(links, RingOf(s)) && i < j < |s|
    ensures s[i].addr != s[j].addr
  {
    assert RingOf(s)[i + 1] != RingOf(s)[j + 1];
  }

  // ---------- linking a block in ----------

  lemma InsertSized(property: Sizes, s: seq<Extent>, e: Extent, k: nat)
    requires Sized(property, s) && k <= |s| && e.addr !in Addrs(s)
    ensures Sized(property[e.addr := e.len], s[..k] + [e] + s[k..])
  {
    var t := s[..k] + [e] + s[k..];
    forall i | 0 <= i < |t| && i != k ensures t[i].addr in property && property[t[i].addr] == t[i].len
    && t[i].addr != e.addr {
      var h := if i < k then i else i - 1;
      assert t[i] == s[h] && Addrs(s)[h] != e.addr;
    }
  }

  lemma RingInserted(a: seq<int>, k: nat, x: int)
    requires k <= |a|
    ensures Inserted([HEAD] + a, k, x) == [HEAD] + (a[..k] + [x] + a[k..])
    ensures forall p :: p in a[..k] + [x] + a[k..] <==> p in a || p == x
  {
    assert a == a[..k] + a[k..];
    assert ([HEAD] + a)[..k + 1] == [HEAD] + a[..k];
    assert ([HEAD] + a)[k + 1..] == a[k..];
  }

  lemma RingWithout(a: seq<int>, k: nat)
    requires k < |a|
    ensures Without([HEAD] + a, k + 1) == [HEAD] + (a[..k] + a[k + 1..])
  {
    assert ([HEAD] + a)[..k + 1] == [HEAD] + a[..k];
    assert ([HEAD] + a)[k + 2..] == a[k + 1..];
  }

  lemma InsertAddrs(s: seq<Extent>, e: Extent, k: nat)
    requires k <= |s|
    ensures RingOf(s[..k] + [e] + s[k..]) == Inserted(RingOf(s), k, e.addr)
    ensures forall p :: p in Addrs(s[..k] + [e] + s[k..]) <==> p in Addrs(s) || p == e.addr
  {
    assert Addrs(s[..k] + [e] + s[k..]) == Addrs(s)[..k] + [e.addr] + Addrs(s)[k..];
    RingInserted(Addrs(s), k, e.addr);
  }

  /** Linking a new block in after ring entry `k`, which is before position `k` of the list. */
  lemma InsertRepresents(links: Links, property: Sizes, heads: set<int>, s: seq<Extent>, e: Extent, k: nat)
    requires Represents(links, property, heads, s) && k <= |s| && e.addr != HEAD && e.addr !in Addrs(s)
    ensures var r := RingOf(s);
            && NextAt(links, r, k) && r[Successor(k, |r|)] in links
            && Represents(Added(links, e.addr, r[k], r[Successor(k, |r|)]), property[e.addr := e.len],
                          heads + {e.addr}, s[..k] + [e] + s[k..])
  {
    hide Ring, Sized, Addrs, Added;
    AddRing(links, RingOf(s), k, e.addr);
    InsertAddrs(s, e, k);
    InsertSized(property, s, e, k);
  }

  // ---------- swallowing the next block ----------

  lemma FuseAddrs(links: Links, s: seq<Extent>, i: nat)
    requires Ring(links, RingOf(s)) && i + 1 < |s|
    ensures RingOf(Fuse(s, i)) == Without(RingOf(s), i + 2)
    ensures forall p :: p in Addrs(Fuse(s, i)) <==> p in Addrs(s) && p != s[i + 1].addr
  {
    var a := Addrs(s);
    assert Addrs(Fuse(s, i)) == a[..i + 1] + a[i + 2..];
    assert a == a[..i + 1] + [a[i + 1]] + a[i + 2..];
    forall j | 0 <= j < |s| && j != i + 1 ensures a[j] != a[i + 1] {
      if j < i + 1 { RingApart(links, s, j, i + 1); } else { RingApart(links, s, i + 1, j); }
    }
  }

  lemma FuseSized(links: Links, property: Sizes, s: seq<Extent>, i: nat)
    requires Ring(links, RingOf(s)) && Sized(property, s) && i + 1 < |s|
    ensures Sized(property[s[i].addr := s[i].len + s[i + 1].len], Fuse(s, i))
  {
    hide Ring;
    var t := Fuse(s, i);
    forall j | 0 <= j < |t| && j != i ensures t[j] == s[if j < i then j else j + 1] && t[j].addr != s[i].addr {
      if j < i { RingApart(links, s, j, i); } else { RingApart(links, s, i, j + 1); }
    }
  }

  /** Swallowing block `i + 1` into block `i`. */
  lemma FuseRepresents(links: Links, property: Sizes, heads: set<int>, s: seq<Extent>, i: nat)
    requires Represents(links, property, heads, s) && i + 1 < |s|
    ensures var gone := s[i + 1].addr;
            && gone in links && links[gone].prev in links && links[gone].next in links
            && Represents(Unlinked(links, links[gone].prev, links[gone].next),
                          property[s[i].addr := s[i].len + s[i + 1].len], heads - {gone}, Fuse(s, i))
  {
    hide Ring, Sized, Addrs, Fuse, Unlinked;
    assert RingOf(s)[i + 2] == s[i + 1].addr;
    DelRing(links, RingOf(s), i + 2);
    FuseAddrs(links, s, i);
    FuseSized(links, property, s, i);
  }

  // ---------- taking pages from the front of a block ----------

  /** The links, sizes and flags after best_fit_alloc_pages takes `n` pages from block `page`. */
  ghost function CarvedLinks(links: Links, page: int, size: int, n: int): (m: Links)
    requires page in links && links[page].prev in links && links[page].next in links
  {
    var prev := links[page].prev;
    var m := Unlinked(links, prev, links[page].next);
    if size > n && m[prev].next in m then Added(m, page + n, prev, m[prev].next) else m
  }

  lemma CarveAddrs(s: seq<Extent>, k: nat, n: int)
    requires k < |s| && 0 < n <= s[k].len
    ensures var a := Addrs(s);
            Addrs(Carve(s, k,
                        n)) == if s[k].len == n then a[..k] + a[k + 1..] else a[..k] + [s[k].addr + n] + a[k + 1..]
  {
  }

  lemma CarveRingOf(s: seq<Extent>, k: nat, n: int)
    requires k < |s| && 0 < n <= s[k].len
    ensures s[k].len == n ==> RingOf(Carve(s, k, n)) == Without(RingOf(s), k + 1)
    ensures s[k].len > n ==> RingOf(Carve(s, k, n)) == Inserted(Without(RingOf(s), k + 1), k, s[k].addr + n)
  {
    hide Carve, Without, Inserted;
    var a := Addrs(s);
    var b := a[..k] + a[k + 1..];
    CarveAddrs(s, k, n);
    RingWithout(a, k);
    RingInserted(b, k, s[k].addr + n);
    assert b[..k] == a[..k] && b[k..] == a[k + 1..];
  }

  lemma CarveHeads(links: Links, s: seq<Extent>, k: nat, n: int, p: int)
    requires Ring(links, RingOf(s)) && Sorted(s) && k < |s| && 0 < n <= s[k].len
    ensures p in Addrs(Carve(s, k, n)) <==> (p in Addrs(s) && p != s[k].addr) || (p == s[k].addr + n && s[k].len > n)
  {
    var a, c := Addrs(s), Addrs(Carve(s, k, n));
    assert a == a[..k] + [a[k]] + a[k + 1..];
    CarveAddrs(s, k, n);
    forall j | 0 <= j < |s| && j != k ensures a[j] != a[k] {
      if j < k { RingApart(links, s, j, k); } else { RingApart(links, s, k, j); }
    }
  }

  lemma CarveRing(links: Links, s: seq<Extent>, k: nat, n: int)
    requires Ring(links, RingOf(s)) && Sorted(s) && k < |s| && 0 < n <= s[k].len && s[k].addr >= 0
    ensures var page := s[k].addr;
            && page in links && links[page].prev in links && links[page].next in links
            && Ring(CarvedLinks(links, page, s[k].len, n), RingOf(Carve(s, k, n)))
  {
    hide Ring, Carve;
    var r := RingOf(s);
    assert r[k + 1] == s[k].addr;
    DelRing(links, r, k + 1);
    CarveRingOf(s, k, n);
    if s[k].len > n {
      var m := Unlinked(links, links[s[k].addr].prev, links[s[k].addr].next);
      var q := Without(r, k + 1);
      assert q[k] == r[k];
      FreshAddr(s, k, n);
      AddRing(m, q, k, s[k].addr + n);
    }
  }

  lemma FreshAddr(s: seq<Extent>, k: nat, n: int)
    requires Sorted(s) && k < |s| && 0 < n < s[k].len && s[k].addr >= 0
    ensures s[k].addr + n !in Without(RingOf(s), k + 1)
  {
    var q := Without(RingOf(s), k + 1);
    forall i | 0 <= i < |q| ensures q[i] != s[k].addr + n {
      if i > 0 {
        var h := if i - 1 < k then i - 1 else i;
        assert q[i] == s[h].addr;
        if h < k { assert s[h].End() <= s[k].addr; } else { assert s[k].End() <= s[h].addr; }
      }
    }
  }

  lemma CarveRepresents(links: Links, property: Sizes, heads: set<int>, s: seq<Extent>, k: nat, n: int)
    requires Represents(links, property, heads, s) && Sorted(s) && k < |s| && 0 < n <= s[k].len && s[k].addr >= 0
    ensures var page := s[k].addr;
            && page in links && links[page].prev in links && links[page].next in links
            && Represents(CarvedLinks(links, page, s[k].len, n),
                          if s[k].len > n then property[page + n := s[k].len - n] else property,
                          (if s[k].len > n then heads + {page + n} else heads) - {page}, Carve(s, k, n))
  {
    CarveRing(links, s, k, n);
    hide Ring, CarvedLinks;
    var page := s[k].addr;
    CarveSized(links, property, s, k, n);
    forall p ensures p in (if s[k].len > n then heads + {page + n} else heads) - {page} <==>
      p in Addrs(Carve(s, k, n)) {
      CarveHeads(links, s, k, n, p);
    }
  }

  lemma CarveSized(links: Links, property: Sizes, s: seq<Extent>, k: nat, n: int)
    requires Sized(property, s) && Sorted(s) && k < |s| && 0 < n <= s[k].len
    ensures Sized(if s[k].len > n then property[s[k].addr + n := s[k].len - n] else property, Carve(s, k, n))
  {
    var t := Carve(s, k, n);
    if s[k].len == n {
      assert forall j :: 0 <= j < |t| ==> t[j] == s[if j < k then j else j + 1];
    } else {
      forall j | 0 <= j < |s| && j != k ensures s[j].addr != s[k].addr + n {
        if j < k { assert s[j].End() <= s[k].addr; } else { assert s[k].End() <= s[j].addr; }
      }
    }
  }
}

module BestFit {
  import opened Sequences
  import opened Requests
  import opened Extents
  import opened ListRing
  import opened BestFitList

  /** Block `k` is the lowest-addressed among the smallest blocks of at least `n` pages. */
  ghost predicate Best(s: seq<Extent>, k: nat, n: int) {
    && k < |s| && s[k].len >= n
    && forall j :: 0 <= j < |s| && s[j].len >= n ==> s[k].len < s[j].len || (s[k].len == s[j].len && k <= j)
  }

  /** Among the blocks of at least `n` and at most `most` pages, block `k` is the lowest-addressed of the smallest. */
  ghost predicate BestWithin(s: seq<Extent>, k: nat, n: int, most: int) {
    && k < |s| && n <= s[k].len <= most
    && forall j :: 0 <= j < |s| && n <= s[j].len <= most ==> s[k].len < s[j].len || (s[k].len == s[j].len && k <= j)
  }

  ghost predicate NoneWithin(s: seq<Extent>, n: int, most: int) {
    forall j :: 0 <= j < |s| ==> !(n <= s[j].len <= most)
  }

  ghost predicate NoFit(s: seq<Extent>, n: int) {
    forall j :: 0 <= j < |s| ==> s[j].len < n
  }

  lemma {:induction false} LenAtMostTotal(s: seq<Extent>, i: nat)
    requires i < |s| && forall j :: 0 <= j < |s| ==> s[j].len > 0
    ensures s[i].len <= Total(s)
  {
    if i == 0 {
      TotalNonNegative(s[1..]);
    } else {
      LenAtMostTotal(s[1..], i - 1);
    }
  }

  lemma {:induction false} TotalNonNegative(s: seq<Extent>)
    requires forall j :: 0 <= j < |s| ==> s[j].len > 0
    ensures Total(s) >= 0
  {
    if s != [] {
      TotalNonNegative(s[1..]);
    }
  }

  // ---------- freeing above every free block ----------

  /** The links best_fit_free_pages leaves when `base` lies above every free block: its loop adds
      `base` after the last entry `last` and then, not having left the loop, after itself. */
  function TailLinks(m: Links, last: int, base: int): (m': Links)
    requires last in m && HEAD in m
  {
    Added(Added(m, base, last, HEAD), base, base, HEAD)
  }

  /** The list can still be walked forwards, but the new entry's `prev` points to itself. */
  lemma TailBroken(m: Links, r: seq<int>, base: int)
    requires Ring(m, r) && r[0] == HEAD && base !in r
    ensures r[|r| - 1] in m && HEAD in m
    ensures var m' := TailLinks(m, r[|r| - 1], base);
            NextRing(m', r + [base]) && m'[base] == Link(base, HEAD) && !Ring(m', r + [base])
  {
    RingAt(m, r, 0);
    RingAt(m, r, |r| - 1);
    var q := r + [base];
    AddRing(m, r, |r| - 1, base);
    assert Inserted(r, |r| - 1, base) == q;
    var m1 := Added(m, base, r[|r| - 1], HEAD);
    var m' := TailLinks(m, r[|r| - 1], base);
    forall i | 0 <= i < |q| ensures NextAt(m', q, i) {
      RingAt(m1, q, i);
    }
    assert q[|q| - 2] in r;
    assert !PrevAt(m', q, |q| - 1);
  }

  /** Worse, list_del of that entry does not take it off the list. */
  lemma TailStuck(m: Links, r: seq<int>, base: int)
    requires Ring(m, r) && r[0] == HEAD && base !in r
    ensures r[|r| - 1] in m && HEAD in m
    ensures var m' := TailLinks(m, r[|r| - 1], base);
            && m'[base].prev in m' && m'[base].next in m'
            && NextRing(Unlinked(m', m'[base].prev, m'[base].next), r + [base])
  {
    TailBroken(m, r, base);
    var q := r + [base];
    var m' := TailLinks(m, r[|r| - 1], base);
    var m2 := Unlinked(m', m'[base].prev, m'[base].next);
    forall i | 0 <= i < |q| ensures NextAt(m2, q, i) {
      assert NextAt(m', q, i);
    }
  }

  // ---------- the allocator ----------

  ghost predicate InBounds(s: seq<Extent>, npages: nat) {
    forall i :: 0 <= i < |s| ==> 0 <= s[i].addr && s[i].End() <= npages
  }

  lemma BlockBounds(s: seq<Extent>, npages: nat, i: nat)
    requires InBounds(s, npages) && Sorted(s) && i < |s|
    ensures 0 <= s[i].addr && s[i].len > 0 && s[i].End() <= npages
  {
  }

  lemma FirstRingEntry(links: Links, s: seq<Extent>)
    requires Ring(links, RingOf(s))
    ensures HEAD in links && links[HEAD].next == (if s == [] then HEAD else s[0].addr)
  {
    RingAt(links, RingOf(s), 0);
  }

  lemma RingEntry(links: Links, s: seq<Extent>, i: nat)
    requires Ring(links, RingOf(s)) && i < |s|
    ensures s[i].addr in links && s[i].addr != HEAD
    ensures links[s[i].addr].next == if i + 1 < |s| then s[i + 1].addr else HEAD
    ensures links[s[i].addr].prev == if i > 0 then s[i - 1].addr else HEAD
  {
    RingAt(links, RingOf(s), i + 1);
    assert RingOf(s)[0] != RingOf(s)[i + 1];
  }

  lemma FirstNext(links: Links, s: seq<Extent>)
    requires NextRing(links, RingOf(s))
    ensures HEAD in links && links[HEAD].next == (if s == [] then HEAD else s[0].addr)
    ensures s != [] ==> s[0].addr != HEAD
  {
    assert NextAt(links, RingOf(s), 0);
    assert s != [] ==> RingOf(s)[0] != RingOf(s)[1];
  }

  lemma NextEntry(links: Links, s: seq<Extent>, i: nat)
    requires NextRing(links, RingOf(s)) && i < |s|
    ensures s[i].addr in links && s[i].addr != HEAD
    ensures links[s[i].addr].next == if i + 1 < |s| then s[i + 1].addr else HEAD
    ensures i + 1 < |s| ==> s[i + 1].addr != HEAD
  {
    assert NextAt(links, RingOf(s), i + 1);
    assert RingOf(s)[0] != RingOf(s)[i + 1];
    assert i + 1 < |s| ==> RingOf(s)[0] != RingOf(s)[i + 2];
  }

  lemma RepresentsSized(links: Links, property: Sizes, heads: set<int>, s: seq<Extent>)
    requires Represents(links, property, heads, s)
    ensures NextRing(links, RingOf(s)) && Sized(property, s)
  {
  }

  /** No block has more than all free pages, so the bound of the scan shuts none out. */
  lemma AllWithin(s: seq<Extent>, n: int, most: int)
    requires Sorted(s) && most == Total(s)
    ensures NoneWithin(s, n, most) <==> NoFit(s, n)
  {
    hide Total;
    forall i | 0 <= i < |s| ensures s[i].len <= Total(s) {
      BlockAtMost(s, i);
    }
  }

  lemma WithinIsBest(s: seq<Extent>, k: nat, n: int, most: int)
    requires Sorted(s) && most == Total(s) && BestWithin(s, k, n, most)
    ensures Best(s, k, n)
  {
    hide Total;
    forall i | 0 <= i < |s| ensures s[i].len <= Total(s) {
      BlockAtMost(s, i);
    }
  }

  class PageAllocator {
    const npages: nat
    var links: Links
    var property: Sizes
    var heads: set<int>
    var reserved: set<int>
    var refs: map<int, int>
    var nrFree: int
    ghost var free: seq<Extent>

    ghost predicate Valid()
      reads this
    {
      && Sorted(free) && InBounds(free, npages)
      && Represents(links, property, heads, free)
      && nrFree == Total(free)
      && Unreserved(free, reserved)
    }

    /** best_fit_init; the boot code has reserved some pages. */
    constructor (npages: nat, reserved: set<int>)
      ensures Valid() && free == [] && nrFree == 0 && this.npages == npages && this.reserved == reserved
    {
      this.npages := npages;
      links := map[HEAD := Link(HEAD, HEAD)];
      property, heads, refs, nrFree, free := map[], {}, map[], 0, [];
      this.reserved := reserved;
      new;
      assert NextAt(links, RingOf(free), 0) && PrevAt(links, RingOf(free), 0);
    }

    /** The list can be walked forwards and holds the sizes of its blocks. */
    ghost predicate Walkable()
      reads this
    {
      NextRing(links, RingOf(free)) && Sized(property, free)
    }

    /** The scan of best_fit_alloc_pages, which looks at no block of more than nr_free pages. */
    method FindBest(n: int) returns (page: Option<int>, ghost k: nat)
      requires Walkable() && n > 0
      ensures page.None? <==> NoneWithin(free, n, nrFree)
      ensures page.Some? ==> BestWithin(free, k, n, nrFree) && page.value == free[k].addr
    {
      hide NextRing;
      page, k := None, 0;
      var minSize := nrFree + 1;
      FirstNext(links, free);
      var le := links[HEAD].next;
      ghost var i: nat := 0;
      while le != HEAD
        invariant i <= |free| && le == (if i < |free| then free[i].addr else HEAD) && (i < |free| ==> le != HEAD)
        invariant page.None? ==> minSize == nrFree + 1 && NoneWithin(free[..i], n, nrFree)
        invariant page.Some? ==> BestWithin(free[..i], k, n, nrFree) && page.value == free[k].addr
                                 && minSize == free[k].len
        decreases |free| - i
      {
        NextEntry(links, free, i);
        assert free[..i + 1] == free[..i] + [free[i]];
        if property[le] >= n && property[le] < minSize {
          page, minSize, k := Some(le), property[le], i;
        }
        le := links[le].next;
        i := i + 1;
      }
      assert free[..i] == free;
    }

    method AllocPages(n: int) returns (page: Option<int>)
      requires Valid() && n > 0
      modifies this
      ensures Valid()
      ensures page.None? <==> NoFit(old(free), n)
      ensures reserved == old(reserved) && refs == old(refs)
      ensures page.None? ==> free == old(free) && nrFree == old(nrFree) && heads == old(heads)
      ensures page.Some? ==> exists k ::
                && 0 <= k < |old(free)| && Best(old(free), k, n) && page.value == old(free)[k].addr
                && old(free)[k].len >= n
                && free == Carve(old(free), k, n) && nrFree == old(nrFree) - n
    {
      hide Ring, Sorted, Represents, Best, Total, Carve, InBounds, NoFit, Unreserved;
      if n > nrFree {
        NoneLargeEnough(free, n);
        return None;
      }
      ghost var k: nat;
      RepresentsSized(links, property, heads, free);
      page, k := FindBest(n);
      AllWithin(free, n, nrFree);
      if page.Some? {
        WithinIsBest(free, k, n, nrFree);
        BestFits(free, k, n);
        Take(page.value, n, k);
      }
    }

    /** The stores of best_fit_alloc_pages. */
    method Cut(page: int, n: int)
      requires page in links && links[page].prev in links && links[page].next in links && page in property
      requires property[page] > n ==>
                 var m := Unlinked(links, links[page].prev, links[page].next);
                 links[page].prev in m && m[links[page].prev].next in m
      modifies this`links, this`property, this`heads, this`nrFree
      ensures links == CarvedLinks(old(links), page, old(property)[page], n)
      ensures property ==
              if old(property)[page] > n then old(property)[page + n := old(property)[page] - n] else old(property)
      ensures heads == (if old(property)[page] > n then old(heads) + {page + n} else old(heads)) - {page}
      ensures nrFree == old(nrFree) - n
    {
      var prev := links[page].prev;
      links := Unlinked(links, links[page].prev, links[page].next);
      if property[page] > n {
        var p := page + n;
        property := property[p := property[page] - n];
        heads := heads + {p};
        links := Added(links, p, prev, links[prev].next);
      }
      nrFree := nrFree - n;
      heads := heads - {page};
    }

    /** The stores of best_fit_alloc_pages that take `n` pages from the front of block `k`. */
    method Take(page: int, n: int, ghost k: nat)
      requires Valid() && k < |free| && free[k].addr == page && 0 < n <= free[k].len
      modifies this`links, this`property, this`heads, this`nrFree, this`free
      ensures Valid() && free == Carve(old(free), k, n) && nrFree == old(nrFree) - n
    {
      hide Ring, Sorted, Represents, Total, Carve, InBounds, Unreserved;
      UnreservedCarve(free, k, n, reserved);
      BlockBounds(free, npages, k);
      CarveSorted(free, k, n);
      CarveCover(free, k, n);
      CarveBounds(free, k, n, npages);
      CarveRepresents(links, property, heads, free, k, n);
      Unpack(links, property, heads, free, k);
      Cut(page, n);
      free := Carve(free, k, n);
    }

    // ---------- free ----------

    /** The insertion loop of best_fit_free_pages, with `k` free blocks below `base`. */
    method LinkFreed(base: int, ghost k: nat)
      requires Ring(links, RingOf(free)) && Slot(free, base, k) && base != HEAD
      modifies this`links
      ensures var r := RingOf(free);
              && r[k] in old(links) && r[Successor(k, |r|)] in old(links)
              && links == if k < |free| || free == [] then Added(old(links), base, r[k], r[Successor(k, |r|)])
                          else TailLinks(old(links), r[k], base)
    {
      hide Ring;
      ghost var m, r := links, RingOf(free);
      RingAt(links, r, k);
      RingAt(links, r, Successor(k, |r|));
      FirstRingEntry(links, free);
      if links[HEAD].next == HEAD {
        NonEmptyRing(links, free);
        links := Added(links, base, HEAD, links[HEAD].next);
        return;
      }
      RingEntry(links, free, 0);
      var le := links[HEAD].next;
      ghost var i: nat := 0;
      while le != HEAD
        invariant i < |free| ==> i <= k && links == m && le == free[i].addr && le != HEAD
        invariant i == |free| ==> k == |free| && le == base && links == Added(m, base, r[k], HEAD)
        invariant i == |free| + 1 ==> k == |free| && le == HEAD && links == TailLinks(m, r[k], base)
        invariant i <= |free| + 1
        decreases |free| + 1 - i
      {
        if i < |free| {
          RingEntry(m, free, i);
          if i + 1 < |free| { RingEntry(m, free, i + 1); }
        }
        if base < le {
          links := Added(links, base, links[le].prev, le);
          return;
        } else if links[le].next == HEAD {
          links := Added(links, base, le, links[le].next);
        }
        le := links[le].next;
        i := i + 1;
      }
    }

    /** Merging of the freed block, at position `k` of `t`, with the block below and the block above.
        When the block was freed above all others its entry is its own predecessor and nothing merges. */
    method MergeFreed(base: int, ghost t: seq<Extent>, ghost k: nat, ghost tail: bool)
      requires base != HEAD
      requires !tail ==> Represents(links, property, heads, t) && k < |t| && t[k].addr == base
      requires tail ==> base in links && links[base] == Link(base, HEAD) && base in property && property[base] > 0
      modifies this`links, this`property, this`heads
      ensures !tail ==> Represents(links, property, heads, Merged(t, k))
      ensures tail ==> links == old(links) && property == old(property) && heads == old(heads)
    {
      hide Ring, Represents, Fuse;
      var b := base;
      ghost var s: seq<Extent>, j: nat := t, k;
      if !tail {
        Neighbours(links, property, heads, t, k);
        FusedAt(t, k);
      }
      var le := links[b].prev;
      if le != HEAD {
        if le + property[le] == b {
          FuseRepresents(links, property, heads, t, k - 1);
          property := property[le := property[le] + property[b]];
          heads := heads - {b};
          links := Unlinked(links, links[b].prev, links[b].next);
          b := le;
          s, j := Fuse(t, k - 1), k - 1;
        }
      }
      if !tail {
        Neighbours(links, property, heads, s, j);
      }
      le := links[b].next;
      if le != HEAD {
        if b + property[b] == le {
          FuseRepresents(links, property, heads, s, j);
          property := property[b := property[b] + property[le]];
          heads := heads - {le};
          links := Unlinked(links, links[le].prev, links[le].next);
        }
      }
    }

    /** The loop of best_fit_free_pages over the pages of the run, none reserved, none a block's head. */
    method ClearFlags(base: int, n: int)
      requires n > 0 && forall p :: base <= p < base + n ==> p !in reserved && p !in heads
      modifies this`reserved, this`heads, this`refs
      ensures reserved == old(reserved) && heads == old(heads)
      ensures Cleared(old(refs), refs, base, base + n)
    {
      for p := base to base + n
        invariant reserved == old(reserved) && heads == old(heads)
        invariant Cleared(old(refs), refs, base, p)
      {
        reserved := reserved - {p};
        heads := heads - {p};
        refs := refs[p := 0];
      }
    }

    /** best_fit_free_pages. The list stays well formed, and the run is coalesced into it, exactly when
        the list is empty or some free block lies above the run. */
    method FreePages(base: int, n: int)
      requires Valid() && n > 0 && 0 <= base && base + n <= npages
      requires forall p :: base <= p < base + n ==> p !in reserved && p !in heads
      requires Apart(free, Extent(base, n))
      modifies this
      ensures nrFree == old(nrFree) + n && reserved == old(reserved) && Cleared(old(refs), refs, base, base + n)
      ensures old(free) == [] || AnyAbove(old(free), base) ==> Valid() && JoinedInto(old(free), Extent(base, n), free)
      ensures !(old(free) == [] || AnyAbove(old(free), base)) ==>
                && !Valid() && free == old(free) + [Extent(base, n)]
                && Walkable() && base in links && links[base] == Link(base, HEAD)
    {
      hide Ring, NextRing, Sorted, Represents, Total, Join, InBounds, Apart, Slot, TailLinks, Merged, JoinedInto, Added,
        AnyAbove, Cover, Separated, Unreserved;
      ghost var e := Extent(base, n);
      ghost var k := FreeSlot(free, e);
      ClearFlags(base, n);
      property := property[base := n];
      heads := heads + {base};
      nrFree := nrFree + n;
      ghost var t, tail := free[..k] + [e] + free[k..], k == |free| > 0;
      RepresentsRing(old(links), old(property), old(heads), free);
      LinkFreed(base, k);
      if tail {
        FreedTail(old(links), free, e);
        RepresentsSized(old(links), old(property), old(heads), free);
        InsertSized(old(property), free, e, k);
        assert t == free + [e];
      } else {
        InsertRepresents(old(links), old(property), old(heads), free, e, k);
        MergedIsJoin(free, e, k);
        JoinCover(free, e, k);
        UnreservedAdd(free, e, Join(free, e, k), reserved, reserved);
        JoinBounds(free, e, k, npages);
        JoinedAt(free, e, k);
      }
      MergeFreed(base, t, k, tail);
      free := if tail then free + [e] else Join(free, e, k);
    }

    /** The insertion loop of best_fit_init_memmap, which does leave the loop at the tail. */
    method LinkNew(base: int, ghost k: nat)
      requires Ring(links, RingOf(free)) && Slot(free, base, k) && base != HEAD
      modifies this`links
      ensures var r := RingOf(free);
              && r[k] in old(links) && r[Successor(k, |r|)] in old(links)
              && links == Added(old(links), base, r[k], r[Successor(k, |r|)])
    {
      hide Ring;
      ghost var r := RingOf(free);
      RingAt(links, r, k);
      RingAt(links, r, Successor(k, |r|));
      FirstRingEntry(links, free);
      if links[HEAD].next == HEAD {
        NonEmptyRing(links, free);
        links := Added(links, base, HEAD, links[HEAD].next);
        return;
      }
      RingEntry(links, free, 0);
      var le := links[HEAD].next;
      ghost var i: nat := 0;
      while le != HEAD
        invariant i < |free| && i <= k && links == old(links) && le == free[i].addr && le != HEAD
        decreases |free| - i
      {
        RingEntry(links, free, i);
        if i + 1 < |free| { RingEntry(links, free, i + 1); }
        if base < le {
          links := Added(links, base, links[le].prev, le);
          return;
        } else if links[le].next == HEAD {
          links := Added(links, base, le, links[le].next);
          return;
        }
        le := links[le].next;
        i := i + 1;
      }
    }

    /** best_fit_init_memmap: a run of reserved pages becomes one more block, not merged with any. */
    method InitMemmap(base: int, n: int)
      requires Valid() && n > 0 && 0 <= base && base + n <= npages
      requires forall p :: base <= p < base + n ==> p in reserved
      requires Apart(free, Extent(base, n))
      modifies this
      ensures Valid() && nrFree == old(nrFree) + n && Cleared(old(refs), refs, base, base + n)
      ensures forall p :: p in reserved <==> p in old(reserved) && !(base <= p < base + n)
      ensures exists k: nat :: Slot(old(free), base, k) && free == old(free)[..k] + [Extent(base, n)] + old(free)[k..]
    {
      hide Ring, NextRing, Sorted, Represents, Total, InBounds, Apart, Slot, Sized, Cover, Unreserved;
      ghost var e := Extent(base, n);
      ghost var k := FreeSlot(free, e);
      RepresentsRing(links, property, heads, free);
      for p := base to base + n
        invariant forall q :: q in reserved <==> q in old(reserved) && !(base <= q < p)
        invariant links == old(links) && nrFree == old(nrFree) && free == old(free)
        invariant Represents(links, property, heads, free) && Cleared(old(refs), refs, base, p)
      {
        ClearedPage(links, property, heads, free, e, p);
        reserved := reserved - {p};
        heads := heads - {p};
        property := property[p := 0];
        refs := refs[p := 0];
      }
      InsertRepresents(links, property, heads, free, e, k);
      InsertSorted(free, e, k);
      InsertCover(free, e, k);
      InsertBounds(free, e, k, npages);
      assert forall p :: p in reserved ==> p in old(reserved);
      UnreservedAdd(free, e, free[..k] + [e] + free[k..], old(reserved), reserved);
      property := property[base := n];
      heads := heads + {base};
      nrFree := nrFree + n;
      LinkNew(base, k);
      free := free[..k] + [e] + free[k..];
    }

    /** Run any sequence of allocations and frees of what clients hold, until a request for no pages fails its
        assertion or a run is freed above every free block. Until then the allocator is valid, what clients hold
        follows from the requests and their answers, no two hold a page in common or a free one, and every page is
        held or free that was before. Before each request the free list, of `lists`, has the pages that are not held,
        and the answer is its best block. */
    method Run(ops: seq<Op>, held: map<int, nat>)
      returns (mine: map<int, nat>, trace: seq<Option<int>>, stop: Stop, ghost lists: seq<seq<Extent>>)
      requires Valid() && Holds(free, held, reserved, npages)
      modifies this
      ensures |trace| <= |ops| && mine == Replay(held, ops[..|trace|], trace)
      ensures stop == Going ==>
                && Valid() && |trace| == |ops| && Holds(free, mine, reserved, npages)
                && Cover(free) + PagesOf(mine) == old(Cover(free)) + PagesOf(held)
      ensures stop == Asserted <==> |trace| > 0 && ops[|trace| - 1] == Malloc(0)
      ensures stop == TailFreed ==> !Valid() && |trace| > 0
      ensures stop == Going ==> |lists| == |ops| + 1 && lists[0] == old(free) && lists[|ops|] == free
      ensures |lists| >= |trace| && forall i :: 0 <= i < |trace| ==>
                && Cover(lists[i]) + PagesOf(Replay(held, ops[..i], trace[..i])) == old(Cover(free)) + PagesOf(held)
                && Answered(lists[i], ops[i], trace[i])
                && (TailFree(lists[i], Replay(held, ops[..i], trace[..i]), ops[i]) <==>
                    stop == TailFreed && i == |trace| - 1)
    {
      hide Ring, NextRing, Sorted, Represents, Total, InBounds, Unreserved, Cover, Holds, PagesOf, Replay, After,
           Answered, TailFree;
      mine, trace, stop := held, [], Going;
      lists := [free];
      NoRequests(held, ops);
      var n := 0;
      while n < |ops| && stop == Going
        invariant n <= |ops| && |trace| == n && |lists| == n + 1 && mine == Replay(held, ops[..n], trace)
        invariant stop == Asserted <==> n > 0 && ops[n - 1] == Malloc(0)
        invariant stop == TailFreed ==> !Valid() && n > 0
        invariant stop == Going ==>
                    && Valid() && Holds(free, mine, reserved, npages)
                    && Cover(free) + PagesOf(mine) == old(Cover(free)) + PagesOf(held)
        invariant lists[0] == old(free) && lists[n] == free
        invariant forall i :: 0 <= i < n ==>
                    && Cover(lists[i]) + PagesOf(Replay(held, ops[..i], trace[..i])) == old(Cover(free)) + PagesOf(held)
                    && Answered(lists[i], ops[i], trace[i])
                    && (TailFree(lists[i], Replay(held, ops[..i], trace[..i]), ops[i]) <==>
                        stop == TailFreed && i == n - 1)
      {
        var page;
        ghost var before := trace;
        mine, page, stop := Step(ops[n], mine);
        ReplayNext(held, ops, trace, n, page);
        trace := trace + [page];
        assert trace[..n] == before && forall i :: 0 <= i < n ==> trace[..i] == before[..i];
        lists := lists + [free];
        n := n + 1;
      }
      assert ops[..|ops|] == ops;
    }

    /** One request, with its answer; a free of what is not held is skipped. */
    method Step(op: Op, held: map<int, nat>) returns (mine: map<int, nat>, page: Option<int>, stop: Stop)
      requires Valid() && Holds(free, held, reserved, npages)
      modifies this
      ensures mine == After(held, op, page)
      ensures stop == Asserted <==> op == Malloc(0)
      ensures stop == TailFreed <==> TailFree(old(free), held, op)
      ensures stop == TailFreed ==> !Valid()
      ensures stop == Going ==>
                && Valid() && Holds(free, mine, reserved, npages)
                && Cover(free) + PagesOf(mine) == old(Cover(free)) + PagesOf(held)
      ensures Answered(old(free), op, page)
    {
      hide Ring, NextRing, Sorted, Represents, Total, InBounds, Unreserved, Cover, Holds, PagesOf, Best, Carve, NoFit,
           AnyAbove,
        JoinedInto, Apart;
      mine, page, stop := held, None, Going;
      match op
      case Malloc(n) =>
        if n == 0 {
          return held, None, Asserted;
        }
        page := AllocPages(n);
        if page.Some? {
          ghost var k :| 0 <= k < |old(free)| && Best(old(free), k, n) && page.value == old(free)[k].addr
                         && old(free)[k].len >= n
                         && free == Carve(old(free), k, n);
          HoldsTaken(old(free), held, reserved, npages, k, n);
          mine := held[page.value := n];
        }
        AnsweredBy(old(free), n, page);
      case Free(p) =>
        mine := held - {p};
        if p in held {
          ghost var e := Extent(p, held[p]);
          HeldBlock(free, held, reserved, npages, p);
          forall i | 0 <= i < |free| ensures free[i].addr >= 0 {
            BlockBounds(free, npages, i);
          }
          ApartHeads(links, property, heads, free, e);
          LastBlock(links, property, heads, free, e);
          if links[HEAD].prev != HEAD && links[HEAD].prev < p {
            stop := TailFreed;
          }
          FreePages(p, held[p]);
          if stop == Going {
            JoinedMeans(old(free), e, free);
            HoldsFreed(old(free), held, reserved, npages, p, free);
          }
        } else {
          assert held - {p} == held;
        }
    }

    /** After a run is freed above every free block, it can be allocated twice: taking it off the list has no effect.
        Two requests for its size then return the same pages, if no other block has exactly that size and enough
        other pages are free. */
    method DoubleAllocation(base: int, n: int) returns (first: Option<int>, second: Option<int>)
      requires Valid() && n > 0 && 0 <= base && base + n <= npages
      requires forall p :: base <= p < base + n ==> p !in reserved && p !in heads
      requires Apart(free, Extent(base, n)) && free != [] && !AnyAbove(free, base)
      requires nrFree >= n && forall j :: 0 <= j < |free| ==> free[j].len != n
      modifies this
      ensures first == Some(base) && second == Some(base)
    {
      hide Ring, NextRing, Sorted, Represents, Total, InBounds, Apart, Unreserved, AnyAbove, Sized, Added, Unlinked;
      ghost var s, e := free, Extent(base, n);
      FreePages(base, n);
      TailSize(property, s, e);
      TailEntry(links, s, e);
      ghost var k;
      first, k := FindBest(n);
      TailIsBest(s, e, k, nrFree);
      StillThere(links, s, e);
      Cut(base, n);
      second, k := FindBest(n);
      TailIsBest(s, e, k, nrFree);
    }

    /** Allocating and freeing again restores a list without touching blocks, and every flag and count of it, exactly
        if the block was split, or was not the last of several. */
    method AllocThenFree(n: int) returns (page: Option<int>)
      requires Valid() && Separated(free) && n > 0
      modifies this
      ensures page.None? ==> Valid() && free == old(free)
      ensures page.Some? ==> exists k ::
                && 0 <= k < |old(free)| && Best(old(free), k, n) && page.value == old(free)[k].addr
                && (Valid() <==> Restorable(old(free), k, n))
                && (Valid() ==> free == old(free) && nrFree == old(nrFree) && heads == old(heads))
    {
      hide Ring, NextRing, Sorted, Represents, Total, InBounds, Apart, Separated, Best, Carve, Unreserved, JoinedInto,
           AnyAbove,
        Cover, Restorable;
      page := AllocPages(n);
      if page.Some? {
        ghost var k :| 0 <= k < |old(free)| && Best(old(free), k, n) && page.value == old(free)[k].addr
        && old(free)[k].len >= n
                            && free == Carve(old(free), k, n);
        BlockBounds(old(free), npages, k);
        ReleaseUndoesCarve(old(free), k, n);
        RestorableMeans(old(free), k, n);
        TakenClean(old(free), old(reserved), k, n);
        ApartHeads(links, property, heads, free, Extent(page.value, n));
        ghost var mid := free;
        FreePages(page.value, n);
        if Restorable(old(free), k, n) {
          JoinedMeans(mid, Extent(page.value, n), free);
          SameHeads(old(links), old(property), old(heads), links, property, heads, free);
        }
      }
    }
  }

  /** Why a run ends early. */
  datatype Stop = Going | Asserted | TailFreed

  ghost function PagesOf(mine: map<int, nat>): set<int> {
    set p <- mine.Keys, u <- Range(Extent(p, mine[p])) :: u
  }

  ghost predicate HoldsOne(s: seq<Extent>, mine: map<int, nat>, reserved: set<int>, npages: nat, p: int)
    requires p in mine
  {
    && mine[p] > 0 && 0 <= p && p + mine[p] <= npages
    && Range(Extent(p, mine[p])) !! Cover(s) && Range(Extent(p, mine[p])) !! reserved
  }

  /** A run that is held is freed above every free block. */
  ghost predicate TailFree(s: seq<Extent>, held: map<int, nat>, op: Op) {
    op.Free? && op.p in held && s != [] && !AnyAbove(s, op.p)
  }

  /** A request for some pages gets the lowest of the smallest free blocks that are large enough, and nothing only if
      there is none. */
  ghost predicate Answered(s: seq<Extent>, op: Op, page: Option<int>) {
    op.Malloc? && op.size > 0 ==>
      if page.Some? then exists k: nat :: Best(s, k, op.size) && s[k].addr == page.value
      else forall j :: 0 <= j < |s| ==> s[j].len < op.size
  }

  /** Clients hold runs of pages, apart from one another, none free or reserved. */
  ghost predicate Holds(s: seq<Extent>, mine: map<int, nat>, reserved: set<int>, npages: nat) {
    && (forall p :: p in mine ==> HoldsOne(s, mine, reserved, npages, p))
    && (forall p, q :: p in mine && q in mine && p != q ==> Range(Extent(p, mine[p])) !! Range(Extent(q, mine[q])))
  }

  lemma AnsweredBy(s: seq<Extent>, n: nat, page: Option<int>)
    requires page.None? ==> NoFit(s, n)
    requires page.Some? ==> exists k :: 0 <= k < |s| && Best(s, k, n) && page.value == s[k].addr
    ensures Answered(s, Malloc(n), page)
  {
  }

  lemma NoRequests(held: map<int, nat>, ops: seq<Op>)
    ensures ops[..0] == [] && Replay(held, [], []) == held
  {
  }

  /** The last block tells whether a run lies above every free block. */
  lemma LastBlock(links: Links, property: Sizes, heads: set<int>, s: seq<Extent>, e: Extent)
    requires Represents(links, property, heads,
                        s) && Sorted(s) && Apart(s, e) && e.len > 0 && forall i :: 0 <= i < |s| ==> s[i].addr >= 0
    ensures HEAD in links
    ensures links[HEAD].prev != HEAD && links[HEAD].prev < e.addr <==> s != [] && !AnyAbove(s, e.addr)
  {
    RingAt(links, RingOf(s), 0);
    if s != [] {
      assert RingOf(s)[|s|] == s[|s| - 1].addr;
      assert forall i :: 0 <= i < |s| - 1 ==> s[i].addr < s[|s| - 1].addr;
      assert s[|s| - 1].addr != e.addr;
    }
  }

  lemma HeldBlock(s: seq<Extent>, mine: map<int, nat>, reserved: set<int>, npages: nat, p: int)
    requires Holds(s, mine, reserved, npages) && p in mine && Sorted(s)
    ensures mine[p] > 0 && 0 <= p && p + mine[p] <= npages && Apart(s, Extent(p, mine[p]))
    ensures forall u :: p <= u < p + mine[p] ==> u !in reserved
  {
    hide Cover;
    assert HoldsOne(s, mine, reserved, npages, p);
    ApartCover(s, Extent(p, mine[p]));
    forall u | p <= u < p + mine[p] ensures u !in reserved {
      assert u in Range(Extent(p, mine[p]));
    }
  }

  lemma HoldsTaken(s: seq<Extent>, mine: map<int, nat>, reserved: set<int>, npages: nat, k: nat, n: nat)
    requires Holds(s, mine, reserved, npages) && Unreserved(s, reserved) && InBounds(s, npages)
    requires Sorted(s) && k < |s| && 0 < n <= s[k].len
    ensures Holds(Carve(s, k, n), mine[s[k].addr := n], reserved, npages)
    ensures Cover(Carve(s, k, n)) + PagesOf(mine[s[k].addr := n]) == Cover(s) + PagesOf(mine)
  {
    hide Cover, Carve, Sorted, PagesOf, HoldsOne, Range;
    var p, mine' := s[k].addr, mine[s[k].addr := n];
    CarveCover(s, k, n);
    BlockBounds(s, npages, k);
    TakenHeld(s, reserved, npages, k, n, mine');
    forall q | q in mine
      ensures q != p && HoldsOne(Carve(s, k, n), mine', reserved, npages, q)
              && Range(Extent(p, n)) !! Range(Extent(q, mine[q]))
    {
      OtherHeld(s, mine, reserved, npages, k, n, q);
    }
    PagesAdd(mine, p, n);
  }

  lemma TakenHeld(s: seq<Extent>, reserved: set<int>, npages: nat, k: nat, n: nat, mine: map<int, nat>)
    requires Unreserved(s, reserved) && InBounds(s, npages) && Sorted(s) && k < |s| && 0 < n <= s[k].len
    requires s[k].addr in mine && mine[s[k].addr] == n
    ensures HoldsOne(Carve(s, k, n), mine, reserved, npages, s[k].addr)
  {
    hide Cover, Carve, Sorted, Range;
    CarveCover(s, k, n);
    BlockBounds(s, npages, k);
  }

  lemma OtherHeld(s: seq<Extent>, mine: map<int, nat>, reserved: set<int>, npages: nat, k: nat, n: nat, q: int)
    requires q in mine && HoldsOne(s, mine, reserved, npages, q) && Sorted(s) && k < |s| && 0 < n <= s[k].len
    ensures q != s[k].addr && HoldsOne(Carve(s, k, n), mine[s[k].addr := n], reserved, npages, q)
    ensures Range(Extent(s[k].addr, n)) !! Range(Extent(q, mine[q]))
  {
    hide Cover, Carve, Sorted, Span;
    CarveCover(s, k, n);
    assert q in Range(Extent(q, mine[q])) && s[k].addr in Range(Extent(s[k].addr, n));
  }

  lemma PagesAdd(mine: map<int, nat>, p: int, n: nat)
    requires p !in mine
    ensures PagesOf(mine[p := n]) == PagesOf(mine) + Range(Extent(p, n))
  {
    hide Span;
    var more := mine[p := n];
    forall u ensures u in PagesOf(more) <==> u in PagesOf(mine) + Range(Extent(p, n)) {
      if u in PagesOf(more) {
        var q :| q in more && u in Range(Extent(q, more[q]));
        assert q != p ==> q in mine.Keys;
      }
      if u in PagesOf(mine) {
        var q :| q in mine && u in Range(Extent(q, mine[q]));
        assert q in more.Keys && more[q] == mine[q];
      }
      if u in Range(Extent(p, n)) {
        assert p in more.Keys;
      }
    }
  }

  lemma HoldsFreed(s: seq<Extent>, mine: map<int, nat>, reserved: set<int>, npages: nat, p: int, r: seq<Extent>)
    requires Holds(s, mine, reserved, npages) && p in mine && Cover(r) == Cover(s) + Range(Extent(p, mine[p]))
    ensures Holds(r, mine - {p}, reserved, npages)
    ensures Cover(r) + PagesOf(mine - {p}) == Cover(s) + PagesOf(mine)
  {
    hide Cover, Span;
    var less := mine - {p};
    forall q | q in less ensures HoldsOne(r, less, reserved, npages, q) {
      assert HoldsOne(s, mine, reserved, npages, q);
    }
    PagesAdd(less, p, mine[p]);
    assert less[p := mine[p]] == mine;
  }

  lemma TailSize(property: Sizes, s: seq<Extent>, e: Extent)
    requires Sized(property, s + [e])
    ensures e.addr in property && property[e.addr] == e.len
  {
    assert (s + [e])[|s|] == e;
  }

  lemma TailEntry(m: Links, s: seq<Extent>, e: Extent)
    requires NextRing(m, RingOf(s + [e]))
    ensures HEAD in m
  {
    FirstNext(m, s + [e]);
  }

  /** list_del of an entry that is its own predecessor changes no `next`. */
  lemma StillThere(m: Links, s: seq<Extent>, e: Extent)
    requires NextRing(m, RingOf(s + [e])) && e.addr in m && m[e.addr] == Link(e.addr, HEAD) && HEAD in m
    ensures NextRing(Unlinked(m, e.addr, HEAD), RingOf(s + [e]))
  {
    var r, m' := RingOf(s + [e]), Unlinked(m, e.addr, HEAD);
    forall i | 0 <= i < |r| ensures NextAt(m', r, i) {
      assert NextAt(m, r, i);
    }
  }

  lemma TailIsBest(s: seq<Extent>, e: Extent, k: nat, most: int)
    requires e.len <= most && forall j :: 0 <= j < |s| ==> s[j].len != e.len
    ensures !NoneWithin(s + [e], e.len, most)
    ensures BestWithin(s + [e], k, e.len, most) ==> (s + [e])[k] == e
  {
    assert (s + [e])[|s|] == e;
  }

  /** The reference counts of the pages from `from` up to `to` are zero, and the others are as they were. */
  ghost predicate Cleared(refs: map<int, int>, refs': map<int, int>, from: int, to: int) {
    && (forall p :: from <= p < to ==> p in refs' && refs'[p] == 0)
    && (forall p :: !(from <= p < to) ==> (p in refs <==> p in refs') && (p in refs ==> refs'[p] == refs[p]))
  }

  ghost predicate Restorable(s: seq<Extent>, k: nat, n: int) {
    k < |s| && (s[k].len > n || k + 1 < |s| || |s| == 1)
  }

  /** No free page is reserved. */
  ghost predicate Unreserved(s: seq<Extent>, reserved: set<int>) {
    Cover(s) !! reserved
  }

  lemma UnreservedCarve(s: seq<Extent>, k: nat, n: int, reserved: set<int>)
    requires Unreserved(s, reserved) && Sorted(s) && k < |s| && 0 < n <= s[k].len
    ensures Unreserved(Carve(s, k, n), reserved)
  {
    hide Cover, Sorted, Carve;
    CarveCover(s, k, n);
  }

  lemma UnreservedAdd(s: seq<Extent>, e: Extent, r: seq<Extent>, reserved: set<int>, reserved': set<int>)
    requires Unreserved(s, reserved) && reserved' <= reserved && Cover(r) == Cover(s) + Range(e)
    requires forall p :: e.addr <= p < e.End() ==> p !in reserved'
    ensures Unreserved(r, reserved')
  {
    hide Cover;
  }

  lemma TakenClean(s: seq<Extent>, reserved: set<int>, k: nat, n: int)
    requires Unreserved(s, reserved) && Sorted(s) && k < |s| && 0 < n <= s[k].len
    ensures forall p :: s[k].addr <= p < s[k].addr + n ==> p !in reserved
  {
    hide Cover, Sorted;
    CarveCover(s, k, n);
    forall p | s[k].addr <= p < s[k].addr + n ensures p !in reserved {
      assert p in Range(Extent(s[k].addr, n));
    }
  }

  lemma ApartHeads(links: Links, property: Sizes, heads: set<int>, s: seq<Extent>, e: Extent)
    requires Represents(links, property, heads, s) && Sorted(s) && Apart(s, e)
    ensures forall p :: e.addr <= p < e.End() ==> p !in heads
  {
    hide Ring;
    forall p | e.addr <= p < e.End() ensures p !in heads {
      assert p !in Addrs(s);
    }
  }

  lemma SameHeads(links: Links, property: Sizes, heads: set<int>, links': Links, property': Sizes, heads': set<int>,
                  s: seq<Extent>)
    requires Represents(links, property, heads, s) && Represents(links', property', heads', s)
    ensures heads == heads'
  {
    hide Ring, Sized;
    assert forall p :: p in heads <==> p in heads';
  }

  lemma RestorableMeans(s: seq<Extent>, k: nat, n: int)
    requires Sorted(s) && k < |s| && 0 < n <= s[k].len
    ensures Restorable(s, k, n) <==> Carve(s, k, n) == [] || AnyAbove(Carve(s, k, n), s[k].addr)
  {
    var t := Carve(s, k, n);
    if s[k].len > n {
      assert t[k].addr == s[k].addr + n;
    } else {
      assert forall j :: 0 <= j < |t| ==> t[j] == s[if j < k then j else j + 1];
      assert k + 1 < |s| ==> t[k] == s[k + 1];
    }
  }

  ghost predicate AnyAbove(s: seq<Extent>, base: int) {
    exists i :: 0 <= i < |s| && base < s[i].addr
  }

  /** `e` has been coalesced into the address-ordered list `s`. */
  ghost predicate JoinedInto(s: seq<Extent>, e: Extent, r: seq<Extent>) {
    exists k: nat :: Slot(s, e.addr, k) && r == Join(s, e, k)
  }

  lemma JoinedAt(s: seq<Extent>, e: Extent, k: nat)
    requires Slot(s, e.addr, k)
    ensures JoinedInto(s, e, Join(s, e, k))
  {
  }

  /** So a successful free covers exactly the old free pages and the run, sorted and without overlap,
      and leaves no two touching blocks if there were none. */
  lemma JoinedMeans(s: seq<Extent>, e: Extent, r: seq<Extent>)
    requires Sorted(s) && e.len > 0 && Apart(s, e) && JoinedInto(s, e, r)
    ensures Sorted(r) && Cover(r) == Cover(s) + Range(e) && Total(r) == Total(s) + e.len
    ensures Separated(s) ==> r == Release(s, e) && Separated(r)
  {
    hide Join, Cover, Separated, Sorted, Apart, Total;
    var k: nat :| Slot(s, e.addr, k) && r == Join(s, e, k);
    JoinCover(s, e, k);
    if Separated(s) {
      CanonicalUnique(r, Release(s, e));
    }
  }

  lemma FreeSlot(s: seq<Extent>, e: Extent) returns (k: nat)
    requires Sorted(s) && e.len > 0 && Apart(s, e)
    ensures Slot(s, e.addr, k) && k <= |s| && e.addr !in Addrs(s)
    ensures AnyAbove(s, e.addr) <==> k < |s|
  {
    k := SlotExists(s, e);
    assert k < |s| ==> e.addr < s[k].addr;
  }

  lemma RepresentsRing(links: Links, property: Sizes, heads: set<int>, s: seq<Extent>)
    requires Represents(links, property, heads, s)
    ensures Ring(links, RingOf(s))
  {
  }

  /** Freeing above every free block leaves a list that is not a ring. */
  lemma FreedTail(links: Links, s: seq<Extent>, e: Extent)
    requires Ring(links, RingOf(s)) && |s| > 0 && e.addr !in Addrs(s) && e.addr != HEAD
    ensures RingOf(s)[|s|] in links && HEAD in links
    ensures var m := TailLinks(links, RingOf(s)[|s|], e.addr);
            && e.addr in m && m[e.addr] == Link(e.addr, HEAD)
            && NextRing(m, RingOf(s + [e])) && !Ring(m, RingOf(s + [e]))
            && forall p: Sizes, h :: !Represents(m, p, h, s + [e])
  {
    TailBroken(links, RingOf(s), e.addr);
    assert RingOf(s + [e]) == RingOf(s) + [e.addr];
  }

  lemma JoinBounds(s: seq<Extent>, e: Extent, k: nat, npages: nat)
    requires InBounds(s, npages) && k <= |s| && 0 <= e.addr && e.End() <= npages && e.len > 0
    requires Sorted(s)
    ensures InBounds(Join(s, e, k), npages)
  {
    hide Join;
    JoinPoints(s, e, k);
  }

  lemma InsertBounds(s: seq<Extent>, e: Extent, k: nat, npages: nat)
    requires InBounds(s, npages) && k <= |s| && 0 <= e.addr && e.End() <= npages
    ensures InBounds(s[..k] + [e] + s[k..], npages)
  {
  }

  /** Clearing a page of the new run touches no listed block. */
  lemma ClearedPage(links: Links, property: Sizes, heads: set<int>, s: seq<Extent>, e: Extent, p: int)
    requires Represents(links, property, heads, s) && Apart(s, e) && e.addr <= p < e.End() && Sorted(s)
    ensures Represents(links, property[p := 0], heads - {p}, s)
  {
    hide Ring;
    forall i | 0 <= i < |s| ensures s[i].addr != p {
      assert s[i].End() <= e.addr || e.End() <= s[i].addr;
    }
    assert p !in Addrs(s);
  }

  /** Merging the block at `k` downwards, then upwards. */
  ghost function Merged(t: seq<Extent>, k: nat): (r: seq<Extent>)
    requires k < |t|
  {
    var down := k > 0 && t[k - 1].End() == t[k].addr;
    var s := if down then Fuse(t, k - 1) else t;
    var j := if down then k - 1 else k;
    if j + 1 < |s| && s[j].End() == s[j + 1].addr then Fuse(s, j) else s
  }

  lemma FusedAt(t: seq<Extent>, k: nat)
    requires k < |t|
    ensures k > 0 ==> |Fuse(t, k - 1)| == |t| - 1
                      && Fuse(t, k - 1)[k - 1] == Extent(t[k - 1].addr, t[k - 1].len + t[k].len)
  {
  }

  lemma FuseTwice(t: seq<Extent>, k: nat)
    requires 0 < k && k + 1 < |t|
    ensures Fuse(Fuse(t, k), k - 1) == Fuse(Fuse(t, k - 1), k - 1)
    ensures Fuse(t, k - 1)[k] == t[k + 1]
  {
    var a, b := Fuse(t, k), Fuse(t, k - 1);
    assert a[..k - 1] == t[..k - 1] == b[..k - 1];
    assert a[k + 1..] == t[k + 2..] == b[k + 1..];
  }

  /** The order of the two merges does not matter. */
  lemma MergedIsJoin(s: seq<Extent>, e: Extent, k: nat)
    requires k <= |s|
    ensures Merged(s[..k] + [e] + s[k..], k) == Join(s, e, k)
  {
    hide Fuse, Join;
    var t := s[..k] + [e] + s[k..];
    JoinShape(s, e, k);
    FusedAt(t, k);
    if 0 < k < |s| {
      FuseTwice(t, k);
    }
    assert t[k] == e;
    assert k > 0 ==> t[k - 1] == s[k - 1];
    assert k < |s| ==> t[k + 1] == s[k];
  }

  lemma Neighbours(links: Links, property: Sizes, heads: set<int>, s: seq<Extent>, i: nat)
    requires Represents(links, property, heads, s) && i < |s|
    ensures s[i].addr in links && s[i].addr in property && property[s[i].addr] == s[i].len
    ensures links[s[i].addr].prev == if i > 0 then s[i - 1].addr else HEAD
    ensures links[s[i].addr].next == if i + 1 < |s| then s[i + 1].addr else HEAD
    ensures i > 0 ==> s[i - 1].addr != HEAD && s[i - 1].addr in property && property[s[i - 1].addr] == s[i - 1].len
    ensures i + 1 < |s| ==> s[i + 1].addr != HEAD && s[i + 1].addr in property
                            && property[s[i + 1].addr] == s[i + 1].len
  {
    RingEntry(links, s, i);
    if i > 0 { RingEntry(links, s, i - 1); }
    if i + 1 < |s| { RingEntry(links, s, i + 1); }
  }

  lemma NonEmptyRing(links: Links, s: seq<Extent>)
    requires Ring(links, RingOf(s)) && HEAD in links && links[HEAD].next == HEAD
    ensures s == []
  {
    if s != [] {
      RingEntry(links, s, 0);
      FirstRingEntry(links, s);
    }
  }

  lemma BlockAtMost(s: seq<Extent>, i: nat)
    requires Sorted(s) && i < |s|
    ensures 0 < s[i].len <= Total(s)
  {
    LenAtMostTotal(s, i);
  }

  lemma NoneLargeEnough(s: seq<Extent>, n: int)
    requires Sorted(s) && n > Total(s)
    ensures NoFit(s, n)
  {
    hide Total;
    forall i | 0 <= i < |s| ensures s[i].len < n {
      BlockAtMost(s, i);
    }
  }

  lemma BestFits(s: seq<Extent>, k: nat, n: int)
    requires Best(s, k, n)
    ensures k < |s| && s[k].len >= n && !NoFit(s, n)
  {
  }

  lemma CarveBounds(s: seq<Extent>, k: nat, n: int, npages: nat)
    requires InBounds(s, npages) && k < |s| && 0 < n <= s[k].len
    ensures InBounds(Carve(s, k, n), npages)
  {
    var t := Carve(s, k, n);
    if s[k].len == n {
      assert forall j :: 0 <= j < |t| ==> t[j] == s[if j < k then j else j + 1];
    }
  }

  lemma Unpack(links: Links, property: Sizes, heads: set<int>, s: seq<Extent>, k: nat)
    requires Represents(links, property, heads, s) && k < |s|
    ensures s[k].addr in property && property[s[k].addr] == s[k].len
    ensures s[k].addr in links && links[s[k].addr].prev in links && links[s[k].addr].next in links
    ensures var m := Unlinked(links, links[s[k].addr].prev, links[s[k].addr].next);
            links[s[k].addr].prev in m && m[links[s[k].addr].prev].next in m
  {
    RingAt(links, RingOf(s), k + 1);
    RingAt(links, RingOf(s), k);
    RingAt(links, RingOf(s), Successor(k + 1, |RingOf(s)|));
  }
}
