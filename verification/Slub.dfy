/**
 The SLUB caches of lab2/kern/mm/slub.c as operations on memory. All caches share one memory and one page allocator.
 */
module Slub {
  import opened Sequences
  import opened ListRing
  import opened SlubModel

  lemma FirstOf(links: Links, slabs: Slabs, caches: Caches, lists: Lists, key: Key)
    requires ListsOk(links, slabs, caches, lists) && key in lists
    ensures key.Head() in links
    ensures links[key.Head()].next == if lists[key] == [] then key.Head() else lists[key][0]
    ensures lists[key] != [] ==> lists[key][0] != key.Head() && OnList(slabs, caches, key, lists[key][0])
  {
    RingAt(links, RingOf(key, lists[key]), 0);
    if lists[key] != [] {
      assert lists[key][0] in lists[key];
      assert RingOf(key, lists[key])[1] == lists[key][0];
      assert RingOf(key, lists[key])[0] != RingOf(key, lists[key])[1];
    }
  }

  lemma PlaceOf(links: Links, slabs: Slabs, caches: Caches, lists: Lists, s: int) returns (i: nat)
    requires ListsOk(links, slabs, caches, lists) && s in slabs && slabs[s].cache in caches
    ensures var key := KeyOf(slabs[s], caches); key in lists && i < |lists[key]| && lists[key][i] == s
  {
    var key := KeyOf(slabs[s], caches);
    assert OnList(slabs, caches, key, s);
    assert s in lists[key];
    i :| 0 <= i < |lists[key]| && lists[key][i] == s;
  }

  lemma HasFree(slabs: Slabs, caches: Caches, next: map<int, int>, frees: Frees, s: int)
    requires SlabsOk(slabs, caches, next, frees) && s in slabs
    ensures slabs[s].cache in caches && 0 <= slabs[s].inuse <= caches[slabs[s].cache].num
    ensures slabs[s].inuse != caches[slabs[s].cache].num ==> frees[s] != []
    ensures caches[slabs[s].cache].num >= 1 && s in frees
  {
    assert SlabOk(caches[slabs[s].cache], slabs[s], next, frees[s], s);
  }

  /** All slots of slab `s`, the last one first. */
  ghost predicate AllSlots(c: Cache, s: int, q: seq<int>) {
    |q| == c.num && forall j :: 0 <= j < |q| ==> q[j] == SlotAt(s, c.objSize, |q| - 1 - j)
  }

  /** Slabs stay with their caches. */
  ghost predicate Kept(slabs: Slabs, slabs': Slabs) {
    forall s :: s in slabs ==> s in slabs' && slabs'[s].cache == slabs[s].cache
  }

  class SlubSystem {
    var caches: Caches
    var counts: map<int, Counts>
    var slabs: Slabs
    var links: Links
    var next: map<int, int>

    // The page allocator: the answers it will give, and the pages it has handed out. An answer that
    // is no fresh page counts as NULL.
    var supply: seq<int>
    var held: set<int>
    var asked: nat

    ghost var lists: Lists
    ghost var frees: Frees

    ghost predicate Valid()
      reads this
    {
      && ListsOk(links, slabs, caches, lists)
      && SlabsOk(slabs, caches, next, frees)
      && CountsOk(slabs, caches, counts)
      && held == caches.Keys + slabs.Keys && caches.Keys !! slabs.Keys
    }

    ghost predicate Live(o: int)
      reads this
    {
      IsLive(slabs, caches, frees, o)
    }

    /** The bytes an object in use has. */
    ghost function SizeOf(o: int): int
      requires Live(o)
      reads this
    {
      caches[slabs[RoundDown(o)].cache].objSize
    }

    /** An object in use lies inside its page past the header, its links are never read there, and
        rounding its address down finds its slab. */
    lemma LiveGeometry(o: int)
      requires Valid() && Live(o)
      ensures var s := RoundDown(o); s in slabs && s + HEADER <= o && o + SizeOf(o) <= s + PAGE && o !in frees[s]
    {
      SlotBounds(RoundDown(o), caches[slabs[RoundDown(o)].cache], o);
    }

    /** Objects in use are pairwise disjoint, whatever their caches. */
    lemma LiveApart(o: int, p: int)
      requires Valid() && Live(o) && Live(p) && o != p
      ensures o + SizeOf(o) <= p || p + SizeOf(p) <= o
    {
      var s, t := RoundDown(o), RoundDown(p);
      SlotsApart(s, t, caches[slabs[s].cache], caches[slabs[t].cache], o, p);
    }

    constructor (supply: seq<int>)
      ensures Valid() && caches == map[] && slabs == map[] && held == {} && this.supply == supply
    {
      caches, counts, slabs, links, next := map[], map[], map[], map[], map[];
      this.supply, held, asked := supply, {}, 0;
      lists, frees := map[], map[];
    }

    /** The page allocator has a page to give. */
    predicate PageReady()
      reads this
    {
      supply != [] && supply[0] > 0 && supply[0] % PAGE == 0 && supply[0] !in held
    }

    method AllocPage() returns (p: int)
      modifies this`supply, this`held, this`asked
      ensures asked == old(asked) + 1
      ensures p == 0 <==> !old(PageReady())
      ensures old(supply) != [] ==> supply == old(supply)[1..] && (p != 0 ==> p == old(supply)[0])
      ensures p == 0 ==> held == old(held)
      ensures p != 0 ==> p > 0 && p % PAGE == 0 && p !in old(held) && held == old(held) + {p}
    {
      asked := asked + 1;
      p := 0;
      if PageReady() {
        p := supply[0];
        held := held + {p};
      }
      if supply != [] {
        supply := supply[1..];
      }
    }

    method FreePage(p: int)
      requires p in held
      modifies this`held
      ensures held == old(held) - {p}
    {
      held := held - {p};
    }

    /** list_del of slab `s`, then list_add_before the given list head. */
    method Relink(s: int, head: int)
      requires s in links && links[s].prev in links && links[s].next in links
      requires var m := Unlinked(links, links[s].prev, links[s].next); head in m && m[head].prev in m
      modifies this`links
      ensures var m := Unlinked(old(links), old(links)[s].prev, old(links)[s].next);
              links == Added(m, s, m[head].prev, head)
    {
      links := Unlinked(links, links[s].prev, links[s].next);
      links := Added(links, s, links[head].prev, head);
    }

    /** The statements of kmem_cache_alloc once the slab is chosen. */
    method TakeObject(c: int, s: int) returns (obj: int)
      requires Valid() && s in slabs && slabs[s].cache == c && c in caches && slabs[s].inuse != caches[c].num
      modifies this`slabs, this`counts, this`links, this`lists, this`frees
      ensures Valid() && RoundDown(obj) == s && !old(Live(obj)) && obj != 0
      ensures forall o :: Live(o) <==> old(Live(o)) || o == obj
      ensures slabs.Keys == old(slabs).Keys && slabs[s].cache == c && Kept(old(slabs), slabs)
      ensures c in old(counts) && counts == old(counts)[c := old(counts)[c].(active := old(counts)[c].active + 1)]
      ensures s in old(frees) && old(frees)[s] != [] && frees == old(frees)[s := old(frees)[s][1..]]
      ensures obj == old(slabs)[s].freelist == old(frees)[s][0]
      ensures slabs == old(slabs)[s := Slab(c, old(slabs)[s].inuse + 1, slabs[s].freelist)]
      ensures SlabMoved(old(lists), lists, KeyOf(old(slabs)[s], caches), KeyOf(slabs[s], caches), s)
    {
      hide ListsOk, SlabsOk, CountsOk, IsLive, Moved, Added, Unlinked, RoundDown, SlabOk;
      HasFree(slabs, caches, next, frees, s);
      SlabsPop(slabs, caches, next, frees, s);
      CountKeys(slabs, caches, counts);
      obj := slabs[s].freelist;
      var slab := slabs[s].(freelist := next[obj], inuse := slabs[s].inuse + 1);
      ghost var i := PlaceOf(links, slabs, caches, lists, s);
      ListsMove(links, slabs, caches, lists, s, slab, i);
      CountsMove(slabs, caches, counts, s, slab);
      lists := Moved(lists, KeyOf(slabs[s], caches), i, KeyOf(slab, caches));
      frees := frees[s := frees[s][1..]];

      slabs := slabs[s := slab];
      counts := counts[c := counts[c].(active := counts[c].active + 1)];
      if slab.inuse == caches[c].num {
        Relink(s, Key(c, Full).Head());
      } else {
        Relink(s, Key(c, Partial).Head());
      }
    }

    /** The statements of kmem_cache_free once the slab is known to belong to the cache. */
    method PutObject(c: int, s: int, obj: int)
      requires Valid() && Live(obj) && s == RoundDown(obj) && s in slabs && slabs[s].cache == c && c in caches
      modifies this`slabs, this`counts, this`links, this`lists, this`frees, this`next
      ensures Valid() && slabs.Keys == old(slabs).Keys && Kept(old(slabs), slabs)
      ensures forall o :: Live(o) <==> old(Live(o)) && o != obj
      ensures c in old(counts) && counts == old(counts)[c := old(counts)[c].(active := old(counts)[c].active - 1)]
      ensures s in old(frees) && frees == old(frees)[s := [obj] + old(frees)[s]]
      ensures slabs == old(slabs)[s := Slab(c, old(slabs)[s].inuse - 1, obj)]
      ensures SlabMoved(old(lists), lists, KeyOf(old(slabs)[s], caches), KeyOf(slabs[s], caches), s)
    {
      hide ListsOk, SlabsOk, CountsOk, Moved, Added, Unlinked, IsLive, RoundDown, SlabOk;
      HasFree(slabs, caches, next, frees, s);
      SlabsPush(slabs, caches, next, frees, obj);
      CountKeys(slabs, caches, counts);
      var slab := slabs[s].(freelist := obj, inuse := slabs[s].inuse - 1);
      ghost var i := PlaceOf(links, slabs, caches, lists, s);
      ListsMove(links, slabs, caches, lists, s, slab, i);
      CountsMove(slabs, caches, counts, s, slab);
      lists := Moved(lists, KeyOf(slabs[s], caches), i, KeyOf(slab, caches));
      frees := frees[s := [obj] + frees[s]];

      next := next[obj := slabs[s].freelist];
      slabs := slabs[s := slab];
      counts := counts[c := counts[c].(active := counts[c].active - 1)];
      if slab.inuse == 0 {
        Relink(s, Key(c, Empty).Head());
      } else {
        Relink(s, Key(c, Partial).Head());
      }
    }

    /** kmem_cache_free: NULL is ignored, and an object of another cache is a panic. */
    method KmemCacheFree(c: int, obj: int) returns (panicked: bool)
      requires Valid() && (obj != 0 ==> Live(obj)) && c in caches
      modifies this`slabs, this`counts, this`links, this`lists, this`frees, this`next
      ensures Valid() && slabs.Keys == old(slabs).Keys && Kept(old(slabs), slabs)
      ensures panicked <==> obj != 0 && old(slabs)[RoundDown(obj)].cache != c
      ensures obj == 0 || panicked ==> slabs == old(slabs) && frees == old(frees) && counts == old(counts)
      ensures obj != 0 && !panicked ==>
                && (forall o :: Live(o) <==> old(Live(o)) && o != obj)
                && c in old(counts) && counts == old(counts)[c := old(counts)[c].(active := old(counts)[c].active - 1)]
      ensures obj == 0 || panicked ==> lists == old(lists)
      ensures obj != 0 && !panicked ==>
                var s := RoundDown(obj);
                && s in old(frees) && frees == old(frees)[s := [obj] + old(frees)[s]]
                && slabs == old(slabs)[s := Slab(c, old(slabs)[s].inuse - 1, obj)]
                && SlabMoved(old(lists), lists, KeyOf(old(slabs)[s], caches), KeyOf(slabs[s], caches), s)
    {
      hide ListsOk, SlabsOk, CountsOk, IsSlot, Moved;
      if obj == 0 {
        return false;
      }
      var s := RoundDown(obj);
      if slabs[s].cache != c {
        return true;
      }
      PutObject(c, s, obj);
      return false;
    }

    /** kmem_cache_grow: a fresh page becomes an empty slab whose freelist holds all its slots. */
    method KmemCacheGrow(c: int) returns (ok: bool, ghost s: int)
      requires Valid() && c in caches
      modifies this
      ensures Valid() && caches == old(caches) && asked == old(asked) + 1
      ensures ok <==> old(PageReady())
      ensures !ok ==> slabs == old(slabs) && lists == old(lists) && counts == old(counts) && held == old(held)
                      && frees == old(frees)
      ensures ok ==>
                && s !in old(held) && held == old(held) + {s} && slabs.Keys == old(slabs).Keys + {s}
                && old(supply) != [] && s == old(supply)[0] && supply == old(supply)[1..]
                && s in slabs && slabs == old(slabs)[s := Slab(c, 0, slabs[s].freelist)]
                && s in frees && frees == old(frees)[s := frees[s]] && AllSlots(caches[c], s, frees[s])
                && Key(c, Empty) in old(lists) && lists == old(lists)[Key(c, Empty) := old(lists)[Key(c, Empty)] + [s]]
                && c in old(counts)
                && counts == old(counts)[c := Counts(old(counts)[c].totalSlabs + 1,
                                                     old(counts)[c].totalObjs + caches[c].num, old(counts)[c].active)]
      ensures forall o :: Live(o) <==> old(Live(o))
    {
      hide ListsOk, SlabsOk, CountsOk, IsLive, Added, SlabOk;
      var page := AllocPage();
      if page == 0 {
        return false, 0;
      }
      s := page;
      CacheShapes(slabs, caches, next, frees, c);
      var slab;
      ghost var q;
      slab, q := ThreadSlots(c, page);
      SlabsAdd(slabs, caches, old(next), next, frees, page, slab, q);
      AddSlab(c, page, slab, q);
      ok := true;
    }

    /** The rest of kmem_cache_grow: the finished header joins the empty list. */
    method AddSlab(c: int, page: int, slab: Slab, ghost q: seq<int>)
      requires ListsOk(links, slabs, caches, lists) && CountsOk(slabs, caches, counts) && c in caches
      requires page > 0 && page % PAGE == 0 && page !in slabs && page !in caches && slab.cache == c && slab.inuse == 0
      modifies this`slabs, this`frees, this`lists, this`links, this`counts
      ensures ListsOk(links, slabs, caches, lists) && CountsOk(slabs, caches, counts)
      ensures slabs == old(slabs)[page := slab] && frees == old(frees)[page := q]
      ensures Key(c, Empty) in old(lists) && lists == old(lists)[Key(c, Empty) := old(lists)[Key(c, Empty)] + [page]]
      ensures c in old(counts)
      ensures counts == old(counts)[c := Counts(old(counts)[c].totalSlabs + 1,
                                                old(counts)[c].totalObjs + caches[c].num, old(counts)[c].active)]
    {
      hide ListsOk, CountsOk, Added;
      CountKeys(slabs, caches, counts);
      ListsGrow(links, slabs, caches, lists, page, slab);
      CountsGrow(slabs, caches, counts, page, slab);
      slabs := slabs[page := slab];
      frees := frees[page := q];
      lists := lists[Key(c, Empty) := lists[Key(c, Empty)] + [page]];
      var head := Key(c, Empty).Head();
      links := Added(links, page, links[head].prev, head);
      counts := counts[c := counts[c].(totalSlabs := counts[c].totalSlabs + 1,
                                       totalObjs := counts[c].totalObjs + caches[c].num)];
    }

    /** The loop of kmem_cache_grow that threads every slot onto the freelist. */
    method ThreadSlots(c: int, page: int) returns (slab: Slab, ghost q: seq<int>)
      requires c in caches && CacheShape(caches[c]) && page > 0 && page % PAGE == 0
      modifies this`next
      ensures slab.cache == c && slab.inuse == 0 && SlabOk(caches[c], slab, next, q, page)
      ensures AllSlots(caches[c], page, q)
      ensures forall o :: RoundDown(o) != page ==> (o in next <==> o in old(next))
                                                   && (o in next ==> next[o] == old(next)[o])
    {
      slab, q := Slab(c, 0, 0), [];
      var obj := page + HEADER;
      var size := caches[c].objSize;
      ghost var rec := caches[c];
      for i := 0 to caches[c].num
        invariant slab.cache == c && slab.inuse == 0 && obj == SlotAt(page, size, i)
        invariant SlabOk(rec.(num := i), slab, next, q, page) && AllSlots(rec.(num := i), page, q)
        invariant forall o :: RoundDown(o) != page ==> (o in next <==> o in old(next))
                                                       && (o in next ==> next[o] == old(next)[o])
      {
        ThreadStep(rec, slab, next, q, page, i);
        next := next[obj := slab.freelist];
        slab := slab.(freelist := obj);
        q := [obj] + q;
        obj := obj + size;
      }
    }

    ghost predicate NoFreeSlot(c: int)
      reads this
    {
      forall s :: s in slabs && slabs[s].cache == c && c in caches ==> slabs[s].inuse == caches[c].num
    }

    /** The first statements of kmem_cache_alloc: the first partial slab, else the first empty one, else a new one. */
    method ChooseSlab(c: int) returns (ok: bool, s: int)
      requires Valid() && c in caches
      modifies this
      ensures Valid() && caches == old(caches) && Key(c, Partial) in old(lists) && Key(c, Empty) in old(lists)
      ensures ok <==> !old(NoFreeSlot(c)) || old(PageReady())
      ensures asked == if old(NoFreeSlot(c)) then old(asked) + 1 else old(asked)
      ensures forall o :: Live(o) <==> old(Live(o))
      ensures ok ==> s in slabs && slabs[s].cache == c && slabs[s].inuse != caches[c].num
      ensures !ok || !old(NoFreeSlot(c)) ==>
                slabs == old(slabs) && lists == old(lists) && frees == old(frees) && counts == old(counts)
                && held == old(held)
      ensures !old(NoFreeSlot(c)) ==>
                var partial, empty := old(lists)[Key(c, Partial)], old(lists)[Key(c, Empty)];
                && supply == old(supply) && (partial != [] || empty != [])
                && s == (if partial != [] then partial[0] else empty[0])
                && KeyOf(slabs[s], caches) == Key(c, if partial != [] then Partial else Empty)
      ensures ok && old(NoFreeSlot(c)) ==>
                && old(supply) != [] && s == old(supply)[0] && supply == old(supply)[1..] && held == old(held) + {s}
                && s !in old(slabs) && slabs == old(slabs)[s := Slab(c, 0, slabs[s].freelist)]
                && lists == old(lists)[Key(c, Empty) := [s]] && KeyOf(slabs[s], caches) == Key(c, Empty)
                && s in frees && frees == old(frees)[s := frees[s]] && AllSlots(caches[c], s, frees[s])
                && c in old(counts) && counts == old(counts)[c := Counts(old(counts)[c].totalSlabs + 1,
                                                     old(counts)[c].totalObjs + caches[c].num, old(counts)[c].active)]
    {
      hide ListsOk, SlabsOk, CountsOk, IsLive, AllSlots;
      var partial, empty := Key(c, Partial).Head(), Key(c, Empty).Head();
      FreeSlotLists(links, slabs, caches, lists, next, frees, c);
      FirstOf(links, slabs, caches, lists, Key(c, Partial));
      FirstOf(links, slabs, caches, lists, Key(c, Empty));
      CacheShapes(slabs, caches, next, frees, c);
      if links[partial].next != partial {
        return true, links[partial].next;
      } else if links[empty].next != empty {
        return true, links[empty].next;
      }
      ghost var t;
      ok, t := KmemCacheGrow(c);
      if !ok {
        return false, 0;
      }
      assert old(lists)[Key(c, Empty)] + [t] == [t];
      FirstOf(links, slabs, caches, lists, Key(c, Empty));
      s := links[empty].next;
    }

    /** kmem_cache_alloc: the slab chosen gives the head of its freelist and goes to the end of its list; there is a
        new slab only when the cache has no free slot at all. */
    method KmemCacheAlloc(c: int) returns (obj: int)
      requires Valid() && c in caches
      modifies this
      ensures Valid() && caches == old(caches) && c in counts && c in old(counts)
      ensures asked == if old(NoFreeSlot(c)) then old(asked) + 1 else old(asked)
      ensures obj == 0 <==> old(NoFreeSlot(c)) && !old(PageReady())
      ensures Kept(old(slabs), slabs)
      ensures obj == 0 ==> slabs == old(slabs) && counts == old(counts) && held == old(held)
                           && lists == old(lists) && frees == old(frees)
      ensures obj == 0 ==> forall o :: Live(o) <==> old(Live(o))
      ensures obj != 0 ==>
                && !old(Live(obj)) && (forall o :: Live(o) <==> old(Live(o)) || o == obj)
                && RoundDown(obj) in slabs && slabs[RoundDown(obj)].cache == c
      ensures Key(c, Partial) in old(lists) && Key(c, Empty) in old(lists)
      ensures obj != 0 && old(NoFreeSlot(c)) ==>
                var s := RoundDown(obj);
                && old(supply) != [] && s == old(supply)[0] && s !in old(slabs) && held == old(held) + {s}
                && supply == old(supply)[1..] && obj == s + 48 + caches[c].objSize * (caches[c].num - 1)
                && slabs == old(slabs)[s := Slab(c, 1, slabs[s].freelist)]
                && SlabMoved(old(lists)[Key(c, Empty) := [s]], lists, Key(c, Empty), KeyOf(slabs[s], caches), s)
                && counts == old(counts)[c := Counts(old(counts)[c].totalSlabs + 1,
                                                     old(counts)[c].totalObjs + caches[c].num,
                                                     old(counts)[c].active + 1)]
      ensures !old(NoFreeSlot(c)) ==>
                var s, partial, empty := RoundDown(obj), old(lists)[Key(c, Partial)], old(lists)[Key(c, Empty)];
                && (partial != [] || empty != []) && s == (if partial != [] then partial[0] else empty[0])
                && s in old(slabs) && held == old(held) && supply == old(supply)
                && s in old(frees) && old(frees)[s] != [] && frees == old(frees)[s := old(frees)[s][1..]]
                && obj == old(slabs)[s].freelist == old(frees)[s][0]
                && slabs == old(slabs)[s := Slab(c, old(slabs)[s].inuse + 1, slabs[s].freelist)]
                && SlabMoved(old(lists), lists, Key(c, if partial != [] then Partial else Empty),
                             KeyOf(slabs[s], caches), s)
                && counts == old(counts)[c := old(counts)[c].(active := old(counts)[c].active + 1)]
    {
      hide ListsOk, SlabsOk, CountsOk, IsLive, RoundDown, SlabOk, SlabMoved, KeyOf;
      CountKeys(slabs, caches, counts);
      CacheShapes(slabs, caches, next, frees, c);
      var ok, s := ChooseSlab(c);
      if !ok {
        return 0;
      }
      obj := TakeObject(c, s);
    }

    /** kmem_cache_create: NULL without a page, for a slab order other than 0, or for objects that do
        not fit a slab; the page is given back in the last two cases. A cache of objects shorter than a link is made
        too, but the invariant does not hold of it: its freelists would overlap themselves. */
    method KmemCacheCreate(size: int, order: int) returns (c: int)
      requires Valid() && size > 0
      modifies this
      ensures size >= LINK_WORD || c == 0 ==> Valid() && forall o :: Live(o) <==> old(Live(o))
      ensures slabs == old(slabs)
      ensures c == 0 <==> order != 0 || size > SPACE || !old(PageReady())
      ensures c == 0 ==> caches == old(caches) && counts == old(counts) && held == old(held)
      ensures c != 0 ==>
                && old(supply) != [] && c == old(supply)[0] && supply == old(supply)[1..]
                && c !in old(held) && held == old(held) + {c}
                && c in caches && caches == old(caches)[c := Cache(size, caches[c].num)]
                && size * caches[c].num <= 4048 < size * (caches[c].num + 1)
                && counts == old(counts)[c := Counts(0, 0, 0)]
    {
      hide ListsOk, SlabsOk, CountsOk, IsLive, NewHeads, NewLists;
      var page := AllocPage();
      if page == 0 {
        return 0;
      }
      if order != 0 {
        FreePage(page);
        return 0;
      }
      FitsSlab(size);
      var num := SPACE / size;
      if num == 0 {
        FreePage(page);
        return 0;
      }
      if size >= LINK_WORD {
        CreateOk(links, slabs, caches, lists, next, frees, counts, page, Cache(size, num));
      }
      caches := caches[page := Cache(size, num)];
      counts := counts[page := Counts(0, 0, 0)];
      links := NewHeads(links, page);
      lists := NewLists(lists, page);
      return page;
    }

    /** What holds while kmem_cache_destroy gives the slabs of `c` back, all of them empty. */
    ghost predicate Draining(c: int)
      reads this
    {
      && ListsOk(links, slabs, caches, lists)
      && SlabsOk(slabs, caches, next, frees)
      && CountsExcept(slabs, caches, counts, c)
      && held == caches.Keys + slabs.Keys && caches.Keys !! slabs.Keys
      && c in caches && (forall s :: s in slabs && slabs[s].cache == c ==> slabs[s].inuse == 0)
    }

    /** One step of the loop of kmem_cache_destroy: unlink the first empty slab and free its page. */
    method DropSlab(c: int, s: int)
      requires Draining(c) && Key(c, Empty) in lists && lists[Key(c, Empty)] != [] && lists[Key(c, Empty)][0] == s
      modifies this`links, this`slabs, this`frees, this`lists, this`held
      ensures Draining(c) && s in old(slabs) && old(slabs)[s].cache == c
      ensures slabs == old(slabs) - {s} && held == old(held) - {s}
      ensures lists == old(lists)[Key(c, Empty) := old(lists)[Key(c, Empty)][1..]]
      ensures forall o :: Live(o) <==> old(Live(o))
    {
      hide ListsOk, SlabsOk, CountsExcept, IsLive, Unlinked;
      FirstOf(links, slabs, caches, lists, Key(c, Empty));
      ListsShrink(links, slabs, caches, lists, s, 0);
      SlabsDrop(slabs, caches, next, frees, s);
      CountsShrink(slabs, caches, counts, s, c);
      assert Without(lists[Key(c, Empty)], 0) == lists[Key(c, Empty)][1..];
      links := Unlinked(links, links[s].prev, links[s].next);
      FreePage(s);
      slabs := slabs - {s};
      frees := frees - {s};
      lists := lists[Key(c, Empty) := lists[Key(c, Empty)][1..]];
    }

    /** kmem_cache_destroy: a panic while objects are in use; otherwise every slab page and the cache's
        own page go back, each once. */
    method KmemCacheDestroy(c: int) returns (panicked: bool)
      requires Valid() && c in caches
      modifies this
      ensures Valid() && c in old(counts) && (panicked <==> old(counts)[c].active != 0)
      ensures panicked ==> caches == old(caches) && slabs == old(slabs) && held == old(held)
      ensures !panicked ==>
                && caches == old(caches) - {c} && held == old(held) - SlabsOf(old(slabs), c) - {c}
                && |old(held) - held| == old(counts)[c].totalSlabs + 1
                && (forall s :: s in slabs <==> s in old(slabs) && old(slabs)[s].cache != c)
                && (forall s :: s in slabs ==> slabs[s] == old(slabs)[s])
                && counts == old(counts) - {c}
                && (forall o :: Live(o) <==> old(Live(o)))
    {
      hide ListsOk, SlabsOk, CountsOk, CountsExcept, IsLive, Unlinked, DropLists;
      CountKeys(slabs, caches, counts);
      if counts[c].active != 0 {
        return true;
      }
      DrainStarts(links, slabs, caches, lists, next, frees, counts, c);
      Drain(c);
      PagesReturned(old(slabs), old(caches), old(counts), slabs, c);
      DropCache(c);
      return false;
    }

    /** The loop of kmem_cache_destroy, which deletes entries while it walks over them. */
    method Drain(c: int)
      requires Draining(c)
      modifies this`links, this`slabs, this`frees, this`lists, this`held
      ensures Draining(c)
      ensures forall s :: s in slabs <==> s in old(slabs) && old(slabs)[s].cache != c
      ensures forall s :: s in slabs ==> slabs[s].cache != c && slabs[s] == old(slabs)[s]
      ensures forall o :: Live(o) <==> old(Live(o))
    {
      hide ListsOk, SlabsOk, CountsExcept, IsLive, Unlinked;
      var head := Key(c, Empty).Head();
      KeyIn(links, slabs, caches, lists, Key(c, Empty));
      FirstOf(links, slabs, caches, lists, Key(c, Empty));
      var le := links[head].next;
      while le != head
        invariant Draining(c) && caches == old(caches) && Key(c, Empty) in lists
        invariant le == if lists[Key(c, Empty)] == [] then head else lists[Key(c, Empty)][0]
        invariant lists[Key(c, Empty)] != [] ==> lists[Key(c, Empty)][0] != head
        invariant forall s :: s in slabs ==> s in old(slabs) && slabs[s] == old(slabs)[s]
        invariant forall s :: s in old(slabs) && s !in slabs ==> old(slabs)[s].cache == c
        invariant forall o :: Live(o) <==> old(Live(o))
        decreases |lists[Key(c, Empty)]|
      {
        SecondOf(links, slabs, caches, lists, Key(c, Empty));
        var nextLe := links[le].next;
        DropSlab(c, le);
        FirstOf(links, slabs, caches, lists, Key(c, Empty));
        le := nextLe;
      }
      Drained(links, slabs, caches, lists, next, frees, c);
    }

    /** The last statements of kmem_cache_destroy, with no slab left. */
    method DropCache(c: int)
      requires Draining(c) && forall s :: s in slabs ==> slabs[s].cache != c
      modifies this`caches, this`counts, this`lists, this`held
      ensures Valid() && caches == old(caches) - {c} && held == (old(caches) - {c}).Keys + slabs.Keys
      ensures counts == old(counts) - {c}
      ensures forall o :: Live(o) <==> old(Live(o))
    {
      hide ListsOk, SlabsOk, CountsOk, CountsExcept, IsLive, DropLists;
      DropOk(links, slabs, caches, lists, next, frees, counts, c);
      FreePage(c);
      lists := DropLists(lists, c);
      caches := caches - {c};
      counts := counts - {c};
    }
  }

  lemma FitsSlab(size: int)
    requires size > 0
    ensures size >= LINK_WORD && SPACE / size >= 1 ==> CacheShape(Cache(size, SPACE / size))
    ensures SPACE / size >= 1 <==> size <= SPACE
    ensures size * (SPACE / size) <= SPACE < size * (SPACE / size + 1)
  {
    var q := SPACE / size;
    assert size * q <= SPACE < size * q + size;
  }

  lemma FreeSlotLists(links: Links, slabs: Slabs, caches: Caches, lists: Lists, next: map<int, int>, frees: Frees,
                      c: int)
    requires ListsOk(links, slabs, caches, lists) && SlabsOk(slabs, caches, next, frees) && c in caches
    ensures Key(c, Partial) in lists && Key(c, Empty) in lists
    ensures (lists[Key(c, Partial)] == [] && lists[Key(c, Empty)] == []) <==>
            forall s :: s in slabs && slabs[s].cache == c ==> slabs[s].inuse == caches[c].num
  {
    hide Ring, SlabOk;
    var p, e := lists[Key(c, Partial)], lists[Key(c, Empty)];
    if p != [] {
      assert p[0] in p;
      assert OnList(slabs, caches, Key(c, Partial), p[0]);
    }
    if e != [] {
      assert e[0] in e;
      assert OnList(slabs, caches, Key(c, Empty), e[0]);
      HasFree(slabs, caches, next, frees, e[0]);
    }
    if p == [] && e == [] {
      forall s | s in slabs && slabs[s].cache == c ensures slabs[s].inuse == caches[c].num {
        assert s in lists[KeyOf(slabs[s], caches)] <==> OnList(slabs, caches, KeyOf(slabs[s], caches), s);
      }
    }
  }

  lemma CreateOk(links: Links, slabs: Slabs, caches: Caches, lists: Lists, next: map<int, int>, frees: Frees,
                 counts: map<int, Counts>, c: int, rec: Cache)
    requires ListsOk(links, slabs, caches, lists) && SlabsOk(slabs, caches, next, frees)
             && CountsOk(slabs, caches, counts)
    requires c > 0 && c % PAGE == 0 && c !in caches && c !in slabs && CacheShape(rec)
    ensures ListsOk(NewHeads(links, c), slabs, caches[c := rec], NewLists(lists, c))
    ensures SlabsOk(slabs, caches[c := rec], next, frees)
    ensures CountsOk(slabs, caches[c := rec], counts[c := Counts(0, 0, 0)])
    ensures forall o :: IsLive(slabs, caches[c := rec], frees, o) <==> IsLive(slabs, caches, frees, o)
  {
    hide SlabOk, ListsOk, InuseSum, RoundDown, IsSlot;
    assert Owned(slabs, caches);
    ListsCreate(links, slabs, caches, lists, c, rec);
    NoSlabs(slabs, c);
  }

  lemma {:induction false} NoSlabs(slabs: Slabs, c: int)
    requires forall s :: s in slabs ==> slabs[s].cache != c
    ensures InuseSum(slabs, c) == 0 && SlabsOf(slabs, c) == {}
    decreases |slabs|
  {
    if exists s :: s in slabs {
      var s :| s in slabs && InuseSum(slabs, c) == Share(slabs[s], c) + InuseSum(slabs - {s}, c);
      NoSlabs(slabs - {s}, c);
      assert Share(slabs[s], c) == 0;
    } else {
      assert InuseSum(slabs, c) == 0;
    }
  }

  // ---------- destroying a cache ----------

  ghost predicate CountsExcept(slabs: Slabs, caches: Caches, counts: map<int, Counts>, c: int) {
    && counts.Keys == caches.Keys
    && forall d :: d in caches && d != c ==> CountOk(slabs, d, caches[d], counts[d])
  }

  lemma KeyIn(links: Links, slabs: Slabs, caches: Caches, lists: Lists, key: Key)
    requires ListsOk(links, slabs, caches, lists) && key.cache in caches
    ensures key in lists
  {
  }

  lemma SecondOf(links: Links, slabs: Slabs, caches: Caches, lists: Lists, key: Key)
    requires ListsOk(links, slabs, caches, lists) && key in lists && lists[key] != []
    ensures lists[key][0] in links
    ensures links[lists[key][0]].next == if |lists[key]| == 1 then key.Head() else lists[key][1]
  {
    RingAt(links, RingOf(key, lists[key]), 1);
  }

  /** With no object in use the full and partial lists are empty, so the asserts of the source hold. */
  lemma DrainStarts(links: Links, slabs: Slabs, caches: Caches, lists: Lists, next: map<int, int>, frees: Frees,
                    counts: map<int, Counts>, c: int)
    requires ListsOk(links, slabs, caches, lists) && SlabsOk(slabs, caches, next, frees)
             && CountsOk(slabs, caches, counts)
    requires c in caches && counts[c].active == 0
    ensures CountsExcept(slabs, caches, counts, c)
    ensures forall s :: s in slabs && slabs[s].cache == c ==> slabs[s].inuse == 0
    ensures Key(c, Full) in lists && Key(c, Partial) in lists && Key(c, Empty) in lists
    ensures lists[Key(c, Full)] == [] && lists[Key(c, Partial)] == []
  {
    hide Ring, InuseSum;
    forall s | s in slabs ensures slabs[s].inuse >= 0 {
      HasFree(slabs, caches, next, frees, s);
    }
    NothingInUse(slabs, c);
    FirstOf(links, slabs, caches, lists, Key(c, Full));
    FirstOf(links, slabs, caches, lists, Key(c, Partial));
  }

  lemma SlabsDrop(slabs: Slabs, caches: Caches, next: map<int, int>, frees: Frees, s: int)
    requires SlabsOk(slabs, caches, next, frees) && s in slabs && slabs[s].inuse == 0
    ensures SlabsOk(slabs - {s}, caches, next, frees - {s})
    ensures forall o :: IsLive(slabs - {s}, caches, frees - {s}, o) <==> IsLive(slabs, caches, frees, o)
  {
    var c := caches[slabs[s].cache];
    forall x | RoundDown(x) == s && IsSlot(s, c, x) ensures x in frees[s] {
      assert SlabOk(c, slabs[s], next, frees[s], s);
      if x !in frees[s] {
        FreeAtMost(c, frees[s], s, x);
      }
    }
    hide SlabOk, IsSlot, RoundDown;
  }

  lemma CountsShrink(slabs: Slabs, caches: Caches, counts: map<int, Counts>, s: int, c: int)
    requires CountsExcept(slabs, caches, counts, c) && s in slabs && slabs[s].cache == c
    ensures CountsExcept(slabs - {s}, caches, counts, c)
  {
    forall d | d in caches && d != c ensures CountOk(slabs - {s}, d, caches[d], counts[d]) {
      SumDrop(slabs, d, s);
      assert SlabsOf(slabs - {s}, d) == SlabsOf(slabs, d);
    }
  }

  lemma Drained(links: Links, slabs: Slabs, caches: Caches, lists: Lists, next: map<int, int>, frees: Frees, c: int)
    requires ListsOk(links, slabs, caches, lists) && SlabsOk(slabs, caches, next, frees) && c in caches
    requires forall s :: s in slabs && slabs[s].cache == c ==> slabs[s].inuse == 0
    requires Key(c, Empty) in lists && lists[Key(c, Empty)] == []
    ensures forall s :: s in slabs ==> slabs[s].cache != c
  {
    hide Ring, SlabOk;
    forall s | s in slabs ensures slabs[s].cache != c {
      assert s in lists[Key(c, Empty)] <==> OnList(slabs, caches, Key(c, Empty), s);
    }
  }

  lemma DropOk(links: Links, slabs: Slabs, caches: Caches, lists: Lists, next: map<int, int>, frees: Frees,
               counts: map<int, Counts>, c: int)
    requires ListsOk(links, slabs, caches, lists) && SlabsOk(slabs, caches, next, frees)
             && CountsExcept(slabs, caches, counts, c)
    requires c in caches && forall s :: s in slabs ==> slabs[s].cache != c
    ensures ListsOk(links, slabs, caches - {c}, DropLists(lists, c))
    ensures SlabsOk(slabs, caches - {c}, next, frees)
    ensures CountsOk(slabs, caches - {c}, counts - {c})
    ensures forall o :: IsLive(slabs, caches - {c}, frees, o) <==> IsLive(slabs, caches, frees, o)
  {
    hide SlabOk, ListsOk, CountOk, RoundDown, IsSlot;
    ListsDrop(links, slabs, caches, lists, c);
  }

  lemma PagesReturned(slabs: Slabs, caches: Caches, counts: map<int, Counts>, slabs': Slabs, c: int)
    requires CountsOk(slabs, caches, counts) && c in caches && caches.Keys !! slabs.Keys
    requires forall s :: s in slabs' <==> s in slabs && slabs[s].cache != c
    ensures var held, held' := caches.Keys + slabs.Keys, (caches - {c}).Keys + slabs'.Keys;
            && held' == held - SlabsOf(slabs, c) - {c}
            && |held - held'| == counts[c].totalSlabs + 1
  {
    hide InuseSum, SlabsOf;
    SlabsOfSet(slabs, slabs', c);
    SetsReturned(caches.Keys, slabs.Keys, SlabsOf(slabs, c), c);
    assert (caches - {c}).Keys == caches.Keys - {c};
  }

  lemma SlabsOfSet(slabs: Slabs, slabs': Slabs, c: int)
    requires forall s :: s in slabs' <==> s in slabs && slabs[s].cache != c
    ensures SlabsOf(slabs, c) <= slabs.Keys && slabs'.Keys == slabs.Keys - SlabsOf(slabs, c)
  {
    forall s ensures s in slabs'.Keys <==> s in slabs.Keys - SlabsOf(slabs, c) {
      assert s in slabs'.Keys <==> s in slabs';
    }
  }

  lemma SetsReturned(a: set<int>, b: set<int>, s: set<int>, c: int)
    requires a !! b && s <= b && c in a
    ensures (a - {c}) + (b - s) == (a + b) - s - {c}
    ensures |(a + b) - ((a - {c}) + (b - s))| == |s| + 1
  {
    assert (a + b) - ((a - {c}) + (b - s)) == s + {c};
  }

  /** One more slot on the freelist of a slab under construction. */
  lemma ThreadStep(rec: Cache, slab: Slab, next: map<int, int>, q: seq<int>, page: int, i: int)
    requires CacheShape(rec) && 0 <= i < rec.num && page % PAGE == 0 && slab.inuse == 0
    requires SlabOk(rec.(num := i), slab, next, q, page)
    ensures var o := SlotAt(page, rec.objSize, i);
            && RoundDown(o) == page && o + rec.objSize == SlotAt(page, rec.objSize, i + 1)
            && SlabOk(rec.(num := i + 1), slab.(freelist := o), next[o := slab.freelist], [o] + q, page)
  {
    var o, more := SlotAt(page, rec.objSize, i), rec.(num := i + 1);
    assert rec.objSize * (i + 1) == rec.objSize * i + rec.objSize;
    assert IsSlot(page, rec, o) && IsSlot(page, more, o);
    SlotBounds(page, rec, o);
    forall x | x in q ensures x != o && IsSlot(page, more, x) {
      var j :| 0 <= j < i && x == SlotAt(page, rec.objSize, j);
      SlotsOrdered(page, rec.objSize, j, i);
    }
    var taken := slab.(inuse := 1);
    assert SlabOk(more, taken, next, q, page);
    SlabPush(more, taken, next, q, page, o);
  }

  lemma SlabsAdd(slabs: Slabs, caches: Caches, next: map<int, int>, next': map<int, int>, frees: Frees, s: int,
                 slab: Slab, q: seq<int>)
    requires SlabsOk(slabs, caches, next, frees) && s !in slabs && s > 0 && s % PAGE == 0
    requires slab.cache in caches && slab.inuse == 0 && SlabOk(caches[slab.cache], slab, next', q, s)
    requires forall o :: RoundDown(o) != s ==> (o in next <==> o in next') && (o in next ==> next[o] == next'[o])
    ensures SlabsOk(slabs[s := slab], caches, next', frees[s := q])
    ensures forall x :: IsLive(slabs[s := slab], caches, frees[s := q], x) <==> IsLive(slabs, caches, frees, x)
  {
    forall t | t in slabs ensures SlabOk(caches[slabs[t].cache], slabs[t], next', frees[t], t) {
      SlabOtherPage(caches[slabs[t].cache], slabs[t], next, next', frees[t], t, s);
    }
    forall x | RoundDown(x) == s && IsSlot(s, caches[slab.cache], x) ensures x in q {
      if x !in q {
        FreeAtMost(caches[slab.cache], q, s, x);
      }
    }
    hide SlabOk, IsSlot, RoundDown;
  }

  lemma SlabOtherPage(c: Cache, slab: Slab, next: map<int, int>, next': map<int, int>, q: seq<int>, t: int, s: int)
    requires SlabOk(c, slab, next, q, t) && CacheShape(c) && t % PAGE == 0 && s != t
    requires forall o :: RoundDown(o) != s ==> (o in next <==> o in next') && (o in next ==> next[o] == next'[o])
    ensures SlabOk(c, slab, next', q, t)
  {
    forall i | 0 <= i < |q| ensures ChainAt(next', q, i) {
      assert ChainAt(next, q, i);
      assert q[i] in q;
      SlotBounds(t, c, q[i]);
    }
  }

  lemma CacheShapes(slabs: Slabs, caches: Caches, next: map<int, int>, frees: Frees, c: int)
    requires SlabsOk(slabs, caches, next, frees) && c in caches
    ensures CacheShape(caches[c])
  {
  }

  lemma CountKeys(slabs: Slabs, caches: Caches, counts: map<int, Counts>)
    requires CountsOk(slabs, caches, counts)
    ensures counts.Keys == caches.Keys
  {
  }
}
