/**
 Lists of address extents, shared by the two allocators that keep their free memory as an
 address-ordered list of blocks: the SLOB heap (16-byte units) and the best-fit page allocator
 (pages). The list that coalesces every pair of touching blocks is the only such list for a given
 set of free addresses (`CanonicalUnique`), which is what makes a free undo an allocation.
 */
module Extents {

  datatype Extent = Extent(addr: int, len: int) {
    function End(): int { addr + len }
  }

  /** Address order without overlap; neighbours may touch. */
  ghost predicate Sorted(s: seq<Extent>) {
    && (forall i :: 0 <= i < |s| ==> s[i].len > 0)
    && (forall i, j :: 0 <= i < j < |s| ==> s[i].End() <= s[j].addr)
  }

  /** No extent ends where the next begins. */
  ghost predicate Separated(s: seq<Extent>) {
    forall i, j :: 0 <= i < j < |s| ==> s[i].End() != s[j].addr
  }

  ghost predicate Canonical(s: seq<Extent>) {
    Sorted(s) && Separated(s)
  }

  ghost function Span(a: int, n: int): (r: set<int>)
    ensures forall u :: u in r <==> a <= u < a + n
    decreases n
  {
    if n <= 0 then {} else Span(a, n - 1) + {a + n - 1}
  }

  ghost function Range(e: Extent): set<int> {
    Span(e.addr, e.len)
  }

  ghost function Cover(s: seq<Extent>): set<int> {
    if s == [] then {} else Range(s[0]) + Cover(s[1..])
  }

  ghost function Total(s: seq<Extent>): int {
    if s == [] then 0 else s[0].len + Total(s[1..])
  }

  lemma {:induction false} CoverMember(s: seq<Extent>, u: int)
    ensures u in Cover(s) <==> exists i :: 0 <= i < |s| && s[i].addr <= u < s[i].End()
  {
    if s != [] {
      CoverMember(s[1..], u);
      if i :| 0 <= i < |s| && s[i].addr <= u < s[i].End() {
        if i > 0 {
          assert s[1..][i - 1] == s[i];
        }
      }
      if j :| 0 <= j < |s[1..]| && s[1..][j].addr <= u < s[1..][j].End() {
        assert s[j + 1] == s[1..][j];
      }
    }
  }

  lemma CoverHas(s: seq<Extent>, i: int)
    requires 0 <= i < |s|
    ensures Range(s[i]) <= Cover(s)
  {
    forall u | u in Range(s[i]) ensures u in Cover(s) {
      CoverMember(s, u);
    }
  }

  lemma {:induction false} CoverConcat(s: seq<Extent>, t: seq<Extent>)
    ensures Cover(s + t) == Cover(s) + Cover(t)
    ensures Total(s + t) == Total(s) + Total(t)
  {
    if s == [] {
      assert s + t == t;
    } else {
      assert (s + t)[1..] == s[1..] + t;
      CoverConcat(s[1..], t);
    }
  }

  lemma SpanSplit(a: int, n: int, m: int)
    requires n >= 0 && m >= 0
    ensures Span(a, n + m) == Span(a, n) + Span(a + n, m)
    ensures Span(a, n) !! Span(a + n, m)
  {
  }

  lemma CoverAround(p: seq<Extent>, e: Extent, q: seq<Extent>)
    ensures Cover(p + [e] + q) == Cover(p) + Range(e) + Cover(q)
    ensures Total(p + [e] + q) == Total(p) + e.len + Total(q)
  {
    assert p + [e] + q == p + ([e] + q);
    CoverConcat(p, [e] + q);
    assert ([e] + q)[1..] == q;
  }

  lemma SplitAt(s: seq<Extent>, i: nat)
    requires i < |s|
    ensures Cover(s) == Cover(s[..i]) + Range(s[i]) + Cover(s[i + 1..])
    ensures Total(s) == Total(s[..i]) + s[i].len + Total(s[i + 1..])
  {
    hide Cover, Total;
    assert s == s[..i] + [s[i]] + s[i + 1..];
    CoverAround(s[..i], s[i], s[i + 1..]);
  }

  lemma ReplaceAt(s: seq<Extent>, i: nat, e: Extent)
    requires i < |s|
    ensures Cover(s[i := e]) == Cover(s[..i]) + Range(e) + Cover(s[i + 1..])
    ensures Total(s[i := e]) == Total(s[..i]) + e.len + Total(s[i + 1..])
  {
    hide Cover, Total;
    assert s[i := e] == s[..i] + [e] + s[i + 1..];
    CoverAround(s[..i], e, s[i + 1..]);
  }

  lemma {:induction false} SpanSize(a: int, n: int)
    requires n >= 0
    ensures |Span(a, n)| == n
    decreases n
  {
    if n > 0 {
      SpanSize(a, n - 1);
    }
  }

  /** The sum of the lengths counts the covered addresses. */
  lemma {:induction false} CoverSize(s: seq<Extent>)
    requires Sorted(s)
    ensures |Cover(s)| == Total(s)
  {
    if s != [] {
      CoverSize(s[1..]);
      SpanSize(s[0].addr, s[0].len);
      assert Range(s[0]) !! Cover(s[1..]) by {
        forall u | u in Cover(s[1..]) ensures u !in Range(s[0]) {
          CoverMember(s[1..], u);
        }
      }
    }
  }

  lemma HeadIsLeast(s: seq<Extent>, u: int)
    requires Canonical(s) && s != []
    ensures u in Cover(s) ==> s[0].addr <= u
    ensures u in Cover(s[1..]) ==> s[0].End() < u
    ensures s[0].addr in Cover(s) && s[0].End() !in Cover(s)
  {
    CoverMember(s, u);
    CoverMember(s[1..], u);
    CoverMember(s, s[0].End());
    CoverMember(s, s[0].addr);
  }

  lemma SameHead(s: seq<Extent>, t: seq<Extent>)
    requires Canonical(s) && Canonical(t) && s != [] && t != []
    requires Cover(s) == Cover(t)
    ensures s[0].addr == t[0].addr && s[0].len <= t[0].len
  {
    HeadIsLeast(s, t[0].addr);
    HeadIsLeast(t, s[0].addr);
    HeadIsLeast(s, s[0].addr);
    HeadIsLeast(t, t[0].End());
    CoverHas(s, 0);
    assert t[0].End() !in Range(s[0]);
  }

  /** A coalesced address-ordered list is determined by the set of addresses it covers. */
  lemma {:induction false} CanonicalUnique(s: seq<Extent>, t: seq<Extent>)
    requires Canonical(s) && Canonical(t) && Cover(s) == Cover(t)
    ensures s == t
  {
    if s == [] || t == [] {
      if s != [] { HeadIsLeast(s, 0); }
      if t != [] { HeadIsLeast(t, 0); }
    } else {
      SameHead(s, t);
      SameHead(t, s);
      assert Cover(s[1..]) == Cover(t[1..]) by {
        forall u ensures u in Cover(s[1..]) <==> u in Cover(t[1..]) {
          HeadIsLeast(s, u);
          HeadIsLeast(t, u);
        }
      }
      CanonicalUnique(s[1..], t[1..]);
    }
  }

  // ---------- taking memory from the front of a block ----------

  function Carve(s: seq<Extent>, i: nat, n: int): (r: seq<Extent>)
    requires i < |s| && n <= s[i].len
  {
    if s[i].len == n then s[..i] + s[i + 1..]
    else s[i := Extent(s[i].addr + n, s[i].len - n)]
  }

  lemma CarveSorted(s: seq<Extent>, i: nat, n: int)
    requires Sorted(s) && i < |s| && 0 < n <= s[i].len
    ensures Sorted(Carve(s, i, n)) && (Separated(s) ==> Separated(Carve(s, i, n)))
  {
    var r := Carve(s, i, n);
    if s[i].len == n {
      assert forall j :: 0 <= j < |r| ==> r[j] == s[if j < i then j else j + 1];
    }
  }

  lemma CarveApart(s: seq<Extent>, i: nat)
    requires Sorted(s) && i < |s|
    ensures Range(s[i]) !! Cover(s[..i]) && Range(s[i]) !! Cover(s[i + 1..])
  {
    ApartCover(s[..i], s[i]);
    ApartCover(s[i + 1..], s[i]);
  }

  lemma TakeOut(p: set<int>, t: set<int>, w: set<int>, q: set<int>)
    requires t !! p && t !! w && t !! q
    ensures p + w + q == (p + (t + w) + q) - t
  {
  }

  lemma CarveCover(s: seq<Extent>, i: nat, n: int)
    requires Sorted(s) && i < |s| && 0 < n <= s[i].len
    ensures Cover(Carve(s, i, n)) == Cover(s) - Range(Extent(s[i].addr, n))
    ensures Total(Carve(s, i, n)) == Total(s) - n
    ensures Range(Extent(s[i].addr, n)) <= Cover(s)
  {
    hide Cover, Total;
    CarveApart(s, i);
    SplitAt(s, i);
    if s[i].len == n {
      CoverConcat(s[..i], s[i + 1..]);
      TakeOut(Cover(s[..i]), Range(s[i]), {}, Cover(s[i + 1..]));
    } else {
      var rest := Extent(s[i].addr + n, s[i].len - n);
      ReplaceAt(s, i, rest);
      SpanSplit(s[i].addr, n, s[i].len - n);
      TakeOut(Cover(s[..i]), Span(s[i].addr, n), Range(rest), Cover(s[i + 1..]));
    }
  }

  // ---------- giving memory back ----------

  /** How many extents begin below `a`: the place of `a` in the order. */
  ghost predicate Slot(s: seq<Extent>, a: int, k: nat) {
    && k <= |s|
    && (forall i :: 0 <= i < k ==> s[i].addr < a)
    && (forall i :: k <= i < |s| ==> a < s[i].addr)
  }

  ghost predicate Apart(s: seq<Extent>, e: Extent) {
    forall i :: 0 <= i < |s| ==> s[i].End() <= e.addr || e.End() <= s[i].addr
  }

  /** Insert `e` before position `k`, coalescing with either neighbour that touches it. */
  function Join(s: seq<Extent>, e: Extent, k: nat): (r: seq<Extent>)
    requires k <= |s|
  {
    var right := k < |s| && e.End() == s[k].addr;
    var e1 := if right then Extent(e.addr, e.len + s[k].len) else e;
    var after := if right then s[k + 1..] else s[k..];
    if k > 0 && s[k - 1].End() == e.addr then
      s[..k - 1] + [Extent(s[k - 1].addr, s[k - 1].len + e1.len)] + after
    else
      s[..k] + [e1] + after
  }

  lemma SlotExists(s: seq<Extent>, e: Extent) returns (k: nat)
    requires Sorted(s) && e.len > 0 && Apart(s, e)
    ensures Slot(s, e.addr, k)
  {
    k := 0;
    while k < |s| && s[k].addr < e.addr
      invariant k <= |s| && forall i :: 0 <= i < k ==> s[i].addr < e.addr
    {
      k := k + 1;
    }
  }

  lemma ApartCover(s: seq<Extent>, e: Extent)
    requires e.len > 0 && forall i :: 0 <= i < |s| ==> s[i].len > 0
    ensures Apart(s, e) <==> Cover(s) !! Range(e)
  {
    if Apart(s, e) {
      forall u | u in Cover(s) ensures u !in Range(e) {
        CoverMember(s, u);
      }
    }
    if Cover(s) !! Range(e) {
      forall i | 0 <= i < |s| ensures s[i].End() <= e.addr || e.End() <= s[i].addr {
        CoverHas(s, i);
        assert s[i].addr in Range(s[i]) && e.addr in Range(e);
        assert e.addr !in Range(s[i]) && s[i].addr !in Range(e);
      }
    }
  }

  /** Plain insertion, before any coalescing. */
  lemma InsertSorted(s: seq<Extent>, e: Extent, k: nat)
    requires Sorted(s) && e.len > 0 && Apart(s, e) && Slot(s, e.addr, k)
    ensures Sorted(s[..k] + [e] + s[k..])
  {
    var r := s[..k] + [e] + s[k..];
    assert forall j :: 0 <= j < |r| && j != k ==> r[j] == s[if j < k then j else j - 1];
  }

  lemma InsertCover(s: seq<Extent>, e: Extent, k: nat)
    requires k <= |s|
    ensures Cover(s[..k] + [e] + s[k..]) == Cover(s) + Range(e)
    ensures Total(s[..k] + [e] + s[k..]) == Total(s) + e.len
  {
    hide Cover, Total;
    assert s == s[..k] + s[k..];
    CoverConcat(s[..k], s[k..]);
    CoverAround(s[..k], e, s[k..]);
  }

  function Fuse(s: seq<Extent>, i: nat): (r: seq<Extent>)
    requires i + 1 < |s|
  {
    s[..i] + [Extent(s[i].addr, s[i].len + s[i + 1].len)] + s[i + 2..]
  }

  lemma SplitPair(s: seq<Extent>, i: nat)
    requires i + 1 < |s|
    ensures Cover(s) == Cover(s[..i]) + Range(s[i]) + Range(s[i + 1]) + Cover(s[i + 2..])
    ensures Total(s) == Total(s[..i]) + s[i].len + s[i + 1].len + Total(s[i + 2..])
  {
    hide Cover, Total;
    SplitAt(s, i);
    SplitAt(s[i + 1..], 0);
    assert s[i + 1..][..0] == [] && s[i + 1..][1..] == s[i + 2..];
    CoverNothing();
  }

  lemma CoverNothing()
    ensures Cover([]) == {} && Total([]) == 0
  {
  }

  /** Fusing two touching neighbours changes neither the cover nor the total. */
  lemma FuseCover(s: seq<Extent>, i: nat)
    requires Sorted(s) && i + 1 < |s| && s[i].End() == s[i + 1].addr
    ensures Cover(Fuse(s, i)) == Cover(s) && Total(Fuse(s, i)) == Total(s)
  {
    hide Cover, Total;
    SplitPair(s, i);
    CoverAround(s[..i], Extent(s[i].addr, s[i].len + s[i + 1].len), s[i + 2..]);
    SpanSplit(s[i].addr, s[i].len, s[i + 1].len);
  }

  lemma FuseSorted(s: seq<Extent>, i: nat)
    requires Sorted(s) && i + 1 < |s| && s[i].End() == s[i + 1].addr
    ensures Sorted(Fuse(s, i))
  {
    var r := Fuse(s, i);
    assert forall j :: 0 <= j < i ==> r[j] == s[j];
    assert forall j :: i < j < |r| ==> r[j] == s[j + 1];
  }

  /** Insertion followed by a merge with the block above and a merge with the block below. */
  lemma JoinShape(s: seq<Extent>, e: Extent, k: nat)
    requires k <= |s|
    ensures var t := s[..k] + [e] + s[k..];
            var right := k < |s| && e.End() == s[k].addr;
            var t1 := if right then Fuse(t, k) else t;
            && |t1| > k
            && (k > 0 ==> t1[k - 1] == s[k - 1] && t1[k].addr == e.addr)
            && Join(s, e, k) == if k > 0 && s[k - 1].End() == e.addr then Fuse(t1, k - 1) else t1
  {
    hide Fuse;
    var right := k < |s| && e.End() == s[k].addr;
    var e1 := if right then Extent(e.addr, e.len + s[k].len) else e;
    var after := if right then s[k + 1..] else s[k..];
    if right {
      assert s[k..] == [s[k]] + after;
      FuseMiddle(s[..k], e, s[k], after);
    }
    if k > 0 {
      assert s[..k] + [e1] + after == s[..k - 1] + [s[k - 1]] + ([e1] + after);
      FuseMiddle(s[..k - 1], s[k - 1], e1, after);
    }
  }

  lemma FuseMiddle(p: seq<Extent>, a: Extent, b: Extent, q: seq<Extent>)
    ensures Fuse(p + [a] + ([b] + q), |p|) == p + [Extent(a.addr, a.len + b.len)] + q
  {
    var t := p + [a] + ([b] + q);
    assert t[..|p|] == p && t[|p| + 2..] == q;
  }

  /** Freeing adds exactly the freed addresses and keeps the list coalesced. */
  lemma JoinCover(s: seq<Extent>, e: Extent, k: nat)
    requires Sorted(s) && e.len > 0 && Apart(s, e) && Slot(s, e.addr, k)
    ensures Sorted(Join(s, e, k)) && (Separated(s) ==> Separated(Join(s, e, k)))
    ensures Cover(Join(s, e, k)) == Cover(s) + Range(e)
    ensures Total(Join(s, e, k)) == Total(s) + e.len
  {
    hide Cover, Total;
    InsertSorted(s, e, k);
    InsertCover(s, e, k);
    JoinShape(s, e, k);
    var t := s[..k] + [e] + s[k..];
    if k < |s| && e.End() == s[k].addr {
      FuseCover(t, k);
      FuseSorted(t, k);
      t := Fuse(t, k);
    }
    if k > 0 && s[k - 1].End() == e.addr {
      FuseCover(t, k - 1);
      FuseSorted(t, k - 1);
    }
    if Separated(s) {
      JoinSeparated(s, e, k);
    }
  }

  /** `Join` entry by entry: entry `Seat` holds the freed block with what it swallowed. */
  function Seat(s: seq<Extent>, e: Extent, k: nat): (m: nat)
    requires k <= |s|
  {
    if k > 0 && s[k - 1].End() == e.addr then k - 1 else k
  }

  predicate MeetsNext(s: seq<Extent>, e: Extent, k: nat)
    requires k <= |s|
  {
    k < |s| && e.End() == s[k].addr
  }

  lemma JoinPoints(s: seq<Extent>, e: Extent, k: nat)
    requires k <= |s|
    ensures var r, m, d := Join(s, e, k), Seat(s, e, k), |s| - |Join(s, e, k)|;
            && m < |r|
            && d == (if m < k then 0 else -1) + (if MeetsNext(s, e, k) then 1 else 0)
            && (forall i :: 0 <= i < m ==> r[i] == s[i])
            && (forall j :: m < j < |r| ==> r[j] == s[j + d])
            && r[m].addr == (if m < k then s[m].addr else e.addr)
            && r[m].End() == (if MeetsNext(s, e, k) then s[k].addr + s[k].len else e.End())
  {
  }

  lemma JoinSeparated(s: seq<Extent>, e: Extent, k: nat)
    requires Canonical(s) && e.len > 0 && Apart(s, e) && Slot(s, e.addr, k)
    ensures Separated(Join(s, e, k))
  {
    hide Join;
    JoinPoints(s, e, k);
    var r, m, d := Join(s, e, k), Seat(s, e, k), |s| - |Join(s, e, k)|;
    forall i, j | 0 <= i < j < |r| ensures r[i].End() != r[j].addr {
      if i < m < j {
        assert s[i].End() <= s[j + d].addr;
      }
    }
  }

  /** Give `e` back to a coalesced list. */
  ghost function Release(s: seq<Extent>, e: Extent): (r: seq<Extent>)
    requires Canonical(s) && e.len > 0 && Apart(s, e)
    ensures Canonical(r) && Cover(r) == Cover(s) + Range(e)
  {
    var k := SlotExistsF(s, e);
    JoinCover(s, e, k);
    Join(s, e, k)
  }

  ghost function SlotExistsF(s: seq<Extent>, e: Extent): (k: nat)
    requires Sorted(s) && e.len > 0 && Apart(s, e)
    ensures Slot(s, e.addr, k)
  {
    assert exists k: nat :: Slot(s, e.addr, k) by {
      var k := SlotExists(s, e);
    }
    var k: nat :| Slot(s, e.addr, k);
    k
  }

  /** Giving back what was just carved off restores the list exactly. */
  lemma ReleaseUndoesCarve(s: seq<Extent>, i: nat, n: int)
    requires Canonical(s) && i < |s| && 0 < n <= s[i].len
    ensures var e := Extent(s[i].addr, n);
            && Canonical(Carve(s, i, n)) && Apart(Carve(s, i, n), e)
            && Release(Carve(s, i, n), e) == s
  {
    var e := Extent(s[i].addr, n);
    CarveSorted(s, i, n);
    CarveCover(s, i, n);
    ApartCover(Carve(s, i, n), e);
    CanonicalUnique(Release(Carve(s, i, n), e), s);
  }
}
