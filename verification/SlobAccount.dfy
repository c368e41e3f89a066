/**
 Who owns each unit of the SLOB heap: every unit of the pages obtained is free or belongs to exactly
 one live block, and the free list is the one coalesced list of the free units.
 */
module SlobAccount {
  import opened Extents
  import opened SlobMemory

  type Live = map<int, int>

  ghost predicate Owns(live: Live, b: int, u: int) {
    b in live && b <= u < b + live[b]
  }

  ghost function LiveUnits(live: Live): (r: set<int>)
    ensures forall u :: u in r <==> exists b :: Owns(live, b, u)
  {
    var r := set b <- live.Keys, u <- Span(b, live[b]) :: u;
    assert forall u :: u in r <==> exists b :: Owns(live, b, u) by {
      forall u ensures u in r <==> exists b :: Owns(live, b, u) {
        if b :| b in live.Keys && u in Span(b, live[b]) { assert Owns(live, b, u); }
        if b :| Owns(live, b, u) { assert b in live.Keys && u in Span(b, live[b]); }
      }
    }
    r
  }

  ghost predicate LiveApart(live: Live) {
    && (forall b :: b in live ==> live[b] > 0)
    && (forall b, c :: b in live && c in live && b < c ==> b + live[b] <= c)
  }

  ghost function PageUnits(pages: set<int>): set<int> {
    set p <- pages, u <- Span(p, PAGE) :: u
  }

  ghost predicate Aligned(pages: set<int>) {
    forall p :: p in pages ==> p > 0 && p % PAGE == 0
  }

  ghost predicate ClearOf(units: set<int>, arena: int) {
    arena !in units && arena - 1 !in units && arena + 1 !in units
  }

  /** Free units and live units split the arena header and the pages between them. */
  ghost predicate Accounted(free: seq<Extent>, live: Live, pages: set<int>, arena: int) {
    && Canonical(free)
    && LiveApart(live)
    && Aligned(pages)
    && ClearOf(PageUnits(pages), arena)
    && arena in Cover(free)
    && Cover(free) !! LiveUnits(live)
    && Cover(free) + LiveUnits(live) == {arena} + PageUnits(pages)
  }

  /** The live blocks and the pages determine the free list completely. */
  lemma FreeDetermined(f: seq<Extent>, g: seq<Extent>, live: Live, pages: set<int>, arena: int)
    requires Accounted(f, live, pages, arena) && Accounted(g, live, pages, arena)
    ensures f == g
  {
    hide Canonical, Cover;
    assert Cover(f) == Cover(g);
    CanonicalUnique(f, g);
  }

  lemma ArenaKept(free: seq<Extent>, live: Live, pages: set<int>, arena: int)
    requires Accounted(free, live, pages, arena)
    ensures ArenaAlone(free, arena) && arena !in LiveUnits(live)
  {
    hide Canonical, Cover;
    assert Cover(free) <= {arena} + PageUnits(pages);
  }

  // ---------- the three transitions ----------

  lemma LiveAdd(live: Live, b: int, n: int)
    requires LiveApart(live) && n > 0 && Span(b, n) !! LiveUnits(live)
    ensures b !in live && LiveApart(live[b := n])
    ensures LiveUnits(live[b := n]) == LiveUnits(live) + Span(b, n)
  {
    hide Span, LiveUnits;
    var live' := live[b := n];
    assert b in Span(b, n);
    forall c | c in live ensures c + live[c] <= b || b + n <= c {
      assert Owns(live, c, c) && c !in Span(b, n);
      assert b !in LiveUnits(live) && !Owns(live, c, b);
    }
    forall u ensures u in LiveUnits(live') <==> u in LiveUnits(live) + Span(b, n) {
      if c :| Owns(live, c, u) { assert Owns(live', c, u); }
      if c :| Owns(live', c, u) { assert c != b ==> Owns(live, c, u); }
      assert u in Span(b, n) ==> Owns(live', b, u);
    }
  }

  lemma LiveDrop(live: Live, b: int)
    requires LiveApart(live) && b in live
    ensures LiveApart(live - {b})
    ensures LiveUnits(live - {b}) == LiveUnits(live) - Span(b, live[b])
    ensures Span(b, live[b]) <= LiveUnits(live)
  {
    hide Span, LiveUnits;
    var rest := live - {b};
    forall u ensures u in LiveUnits(rest) <==> u in LiveUnits(live) - Span(b, live[b])
             ensures u in Span(b, live[b]) ==> u in LiveUnits(live) {
      if c :| Owns(live, c, u) { assert c != b ==> Owns(rest, c, u); }
      if c :| Owns(rest, c, u) { assert Owns(live, c, u); }
      assert u in Span(b, live[b]) ==> Owns(live, b, u);
    }
  }

  lemma AccountedAlloc(free: seq<Extent>, live: Live, pages: set<int>, arena: int, k: nat, n: int)
    requires Accounted(free, live, pages, arena)
    requires k < |free| && 0 < n <= free[k].len && free[k].addr != arena
    ensures Accounted(Carve(free, k, n), live[free[k].addr := n], pages, arena)
    ensures free[k].addr !in live
  {
    hide Cover, Carve, LiveUnits, PageUnits, LiveApart;
    ArenaKept(free, live, pages, arena);
    ArenaClear(free, arena, k);
    CarveSorted(free, k, n);
    CarveCover(free, k, n);
    LiveAdd(live, free[k].addr, n);
    assert arena !in Span(free[k].addr, n);
  }

  lemma AccountedFree(free: seq<Extent>, live: Live, pages: set<int>, arena: int, b: int)
    requires Accounted(free, live, pages, arena) && b in live
    ensures var e := Extent(b, live[b]);
            && e.len > 0 && Apart(free, e)
            && arena !in Range(e) && e.End() != arena && e.addr != arena + 1
            && Accounted(Release(free, e), live - {b}, pages, arena)
  {
    hide Span;
    var e := Extent(b, live[b]);
    LiveDrop(live, b);
    ArenaKept(free, live, pages, arena);
    ApartCover(free, e);
    LiveTouchesNoArena(live, pages, arena, b);
    hide Cover, LiveUnits, PageUnits, LiveApart, Canonical;
  }

  lemma LiveTouchesNoArena(live: Live, pages: set<int>, arena: int, b: int)
    requires LiveApart(live) && b in live && arena !in LiveUnits(live)
    requires LiveUnits(live) <= {arena} + PageUnits(pages)
    requires ClearOf(PageUnits(pages), arena)
    ensures b + live[b] != arena && b != arena + 1 && arena !in Span(b, live[b])
  {
    hide Span;
    assert Owns(live, b, b) && Owns(live, b, b + live[b] - 1);
    assert Owns(live, b, arena) || arena !in Span(b, live[b]);
  }

  ghost predicate NewPage(q: int, pages: set<int>, arena: int) {
    q > 0 && q % PAGE == 0 && q !in pages && ClearOf(Span(q, PAGE), arena)
  }

  lemma PagesApart(pages: set<int>, q: int)
    requires Aligned(pages) && q % PAGE == 0 && q !in pages
    ensures Span(q, PAGE) !! PageUnits(pages)
    ensures PageUnits(pages + {q}) == PageUnits(pages) + Span(q, PAGE)
  {
    hide Span;
    forall u | u in PageUnits(pages) ensures u !in Span(q, PAGE) {
      var p :| p in pages && u in Span(p, PAGE);
    }
  }

  lemma AccountedGrow(free: seq<Extent>, live: Live, pages: set<int>, arena: int, q: int)
    requires Accounted(free, live, pages, arena) && NewPage(q, pages, arena)
    ensures var e := Extent(q, PAGE);
            && Apart(free, e)
            && e.End() != arena && e.addr != arena + 1
            && Accounted(Release(free, e), live, pages + {q}, arena)
  {
    hide Span;
    var e := Extent(q, PAGE);
    assert q in Span(q, PAGE) && q + PAGE - 1 in Span(q, PAGE);
    PagesApart(pages, q);
    assert Cover(free) !! Range(e) && LiveUnits(live) !! Range(e) by {
      hide Cover, LiveUnits, PageUnits, Canonical;
      assert Cover(free) <= {arena} + PageUnits(pages);
      assert LiveUnits(live) <= {arena} + PageUnits(pages);
    }
    ApartCover(free, e);
    hide Cover, LiveUnits, PageUnits, LiveApart, Canonical;
  }

  // ---------- counting ----------

  ghost function LiveTotal(live: Live): int {
    if exists b :: b in live then
      var b :| b in live;
      live[b] + LiveTotal(live - {b})
    else 0
  }

  lemma {:induction false} LiveSize(live: Live)
    requires LiveApart(live)
    ensures |LiveUnits(live)| == LiveTotal(live)
    decreases |live|
  {
    hide Span, LiveUnits;
    if exists b :: b in live {
      var b :| b in live && LiveTotal(live) == live[b] + LiveTotal(live - {b});
      LiveDrop(live, b);
      SpanSize(b, live[b]);
      LiveSize(live - {b});
      assert LiveUnits(live) == LiveUnits(live - {b}) + Span(b, live[b]);
    } else {
      assert LiveUnits(live) == {};
    }
  }

  lemma {:induction false} PagesSize(pages: set<int>)
    requires Aligned(pages)
    ensures |PageUnits(pages)| == PAGE * |pages|
    decreases |pages|
  {
    hide Span;
    if exists q :: q in pages {
      var q :| q in pages;
      PagesSize(pages - {q});
      PagesApart(pages - {q}, q);
      SpanSize(q, PAGE);
      hide PageUnits;
      assert pages == (pages - {q}) + {q};
    } else {
      assert pages == {};
      assert PageUnits(pages) == {};
    }
  }

  /** Free units without the arena, plus live units, are 256 times the pages obtained. */
  lemma Conservation(free: seq<Extent>, live: Live, pages: set<int>, arena: int)
    requires Accounted(free, live, pages, arena)
    ensures Total(free) - 1 + LiveTotal(live) == PAGE * |pages|
  {
    CoverSize(free);
    LiveSize(live);
    PagesSize(pages);
    hide Cover, LiveUnits, PageUnits, Canonical;
    assert |Cover(free) + LiveUnits(live)| == |Cover(free)| + |LiveUnits(live)|;
    assert |{arena} + PageUnits(pages)| == 1 + |PageUnits(pages)|;
  }
}
