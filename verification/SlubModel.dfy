/**
 The state of the SLUB caches of lab2/kern/mm/slub.c as values, with what every operation keeps.
 Addresses are bytes. A cache and each of its slabs occupy one page; a slab's header is at the start
 of its page and its list entry at the start of the header.
 */
module SlubModel {
  import opened Sequences
  import opened ListRing

  const PAGE := 4096
  const HEADER := 48
  const SPACE := PAGE - HEADER
  const LINK_WORD := 8

  datatype Kind = Full | Partial | Empty

  /** A list of a cache: its head lies inside the cache's own page. */
  datatype Key = Key(cache: int, kind: Kind) {
    function Head(): int {
      cache + match kind case Full => 56 case Partial => 72 case Empty => 88
    }
  }

  /** The fixed part of a cache, and its statistics. */
  datatype Cache = Cache(objSize: int, num: int)

  datatype Counts = Counts(totalSlabs: int, totalObjs: int, active: int)

  datatype Slab = Slab(cache: int, inuse: int, freelist: int)

  type Caches = map<int, Cache>
  type Slabs = map<int, Slab>
  type Lists = map<Key, seq<int>>
  type Frees = map<int, seq<int>>

  function RoundDown(a: int): (r: int)
    ensures r % PAGE == 0 && r <= a < r + PAGE
  {
    a - a % PAGE
  }

  function SlotAt(s: int, size: int, i: int): int {
    s + HEADER + size * i
  }

  ghost predicate IsSlot(s: int, c: Cache, o: int) {
    exists i :: 0 <= i < c.num && o == SlotAt(s, c.objSize, i)
  }

  ghost predicate CacheShape(c: Cache) {
    c.objSize >= LINK_WORD && c.num >= 1 && c.objSize * c.num <= SPACE
  }

  function KindOf(inuse: int, num: int): Kind {
    if inuse == 0 then Empty else if inuse == num then Full else Partial
  }

  // ---------- slots ----------

  lemma SlotBounds(s: int, c: Cache, o: int)
    requires CacheShape(c) && s % PAGE == 0 && IsSlot(s, c, o)
    ensures s + HEADER <= o && o + c.objSize <= s + PAGE && RoundDown(o) == s
  {
    var i :| 0 <= i < c.num && o == SlotAt(s, c.objSize, i);
    SlotProduct(c.objSize, i, c.num);
  }

  lemma {:induction false} SlotProduct(size: int, i: int, n: int)
    requires size >= 0 && 0 <= i < n
    ensures 0 <= size * i && size * i + size <= size * n
    decreases n
  {
    assert size * n == size * (n - 1) + size;
    if i < n - 1 {
      SlotProduct(size, i, n - 1);
    }
  }

  /** Two different slots of one cache's slabs do not overlap. */
  lemma SlotsApart(s: int, t: int, c: Cache, d: Cache, o: int, p: int)
    requires CacheShape(c) && CacheShape(d) && s % PAGE == 0 && t % PAGE == 0
    requires IsSlot(s, c, o) && IsSlot(t, d, p) && o != p && (s == t ==> c == d)
    ensures o + c.objSize <= p || p + d.objSize <= o
  {
    hide SlotAt, RoundDown;
    SlotBounds(s, c, o);
    SlotBounds(t, d, p);
    if s == t {
      var i :| 0 <= i < c.num && o == SlotAt(s, c.objSize, i);
      var j :| 0 <= j < c.num && p == SlotAt(s, c.objSize, j);
      SlotsOrdered(s, c.objSize, i, j);
      SlotsOrdered(s, c.objSize, j, i);
    }
  }

  lemma SlotsOrdered(s: int, size: int, i: int, j: int)
    requires size >= 0 && 0 <= i && 0 <= j
    ensures i < j ==> SlotAt(s, size, i) + size <= SlotAt(s, size, j)
  {
    if i < j {
      SlotProduct(size, i, j);
    }
  }

  /** The link words of neighbouring free slots overlap exactly when objects are shorter than a link. */
  lemma LinkWordsApart(s: int, size: int, i: int)
    requires size > 0
    ensures SlotAt(s, size, i) + LINK_WORD <= SlotAt(s, size, i + 1) <==> size >= LINK_WORD
  {
    assert size * (i + 1) == size * i + size;
  }

  // ---------- the freelist of a slab ----------

  ghost predicate ChainAt(next: map<int, int>, q: seq<int>, i: nat)
    requires i < |q|
  {
    q[i] in next && next[q[i]] == if i + 1 < |q| then q[i + 1] else 0
  }

  ghost function First(q: seq<int>): int {
    if q == [] then 0 else q[0]
  }

  /** The freelist of slab `s` is a chain of distinct slots of `s`, one for each object not in use. */
  ghost predicate SlabOk(c: Cache, slab: Slab, next: map<int, int>, q: seq<int>, s: int) {
    && 0 <= slab.inuse && slab.inuse + |q| == c.num
    && slab.freelist == First(q)
    && Distinct(q)
    && (forall o :: o in q ==> IsSlot(s, c, o))
    && (forall i :: 0 <= i < |q| ==> ChainAt(next, q, i))
  }

  lemma SlabPop(c: Cache, slab: Slab, next: map<int, int>, q: seq<int>, s: int)
    requires SlabOk(c, slab, next, q, s) && q != [] && CacheShape(c) && s > 0 && s % PAGE == 0
    ensures slab.freelist == q[0] && q[0] in next && q[0] > 0 && q[0] !in q[1..] && IsSlot(s, c, q[0])
    ensures SlabOk(c, slab.(freelist := next[q[0]], inuse := slab.inuse + 1), next, q[1..], s)
    ensures slab.inuse < c.num
  {
    assert ChainAt(next, q, 0);
    assert q[0] in q;
    SlotBounds(s, c, q[0]);
    var p := q[1..];
    forall i | 0 <= i < |p| ensures ChainAt(next, p, i) {
      assert ChainAt(next, q, i + 1);
    }
  }

  lemma SlabPush(c: Cache, slab: Slab, next: map<int, int>, q: seq<int>, s: int, o: int)
    requires SlabOk(c, slab, next, q, s) && IsSlot(s, c, o) && o !in q
    requires slab.inuse > 0
    ensures SlabOk(c, slab.(freelist := o, inuse := slab.inuse - 1), next[o := slab.freelist], [o] + q, s)
  {
    var p, n := [o] + q, next[o := slab.freelist];
    forall i | 0 <= i < |p| ensures ChainAt(n, p, i) {
      if i > 0 {
        assert ChainAt(next, q, i - 1);
        assert p[i] in q;
      }
    }
  }

  /** Stores into other pages leave a slab's freelist alone. */
  lemma SlabFrame(c: Cache, slab: Slab, next: map<int, int>, q: seq<int>, s: int, o: int, v: int)
    requires SlabOk(c, slab, next, q, s) && CacheShape(c) && s % PAGE == 0 && RoundDown(o) != s
    ensures SlabOk(c, slab, next[o := v], q, s)
  {
    var next' := next[o := v];
    forall i | 0 <= i < |q| ensures ChainAt(next', q, i) {
      assert ChainAt(next, q, i);
      assert q[i] in q;
      SlotBounds(s, c, q[i]);
    }
  }

  /** A live object's slot is off the freelist, so its slab has one in use. */
  lemma {:induction false} FreeAtMost(c: Cache, q: seq<int>, s: int, o: int)
    requires CacheShape(c) && Distinct(q) && IsSlot(s, c, o) && o !in q
    requires forall x :: x in q ==> IsSlot(s, c, x)
    ensures |q| < c.num
  {
    var all := [o] + q;
    var slots := set i | 0 <= i < c.num :: SlotAt(s, c.objSize, i);
    assert forall x :: x in all ==> x in slots;
    DistinctFits(all, slots);
    SlotCount(s, c, c.num);
  }

  lemma {:induction false} DistinctFits(q: seq<int>, s: set<int>)
    requires Distinct(q) && forall x :: x in q ==> x in s
    ensures |q| <= |s|
  {
    if q != [] {
      var last := q[|q| - 1];
      var rest := q[..|q| - 1];
      assert last in q;
      forall x | x in rest ensures x in s - {last} {
        assert x in q;
      }
      DistinctFits(rest, s - {last});
    }
  }

  lemma {:induction false} SlotCount(s: int, c: Cache, n: int)
    requires 0 <= n
    ensures |set i | 0 <= i < n :: SlotAt(s, c.objSize, i)| <= n
    decreases n
  {
    var slots := set i | 0 <= i < n :: SlotAt(s, c.objSize, i);
    if n == 0 {
      assert slots == {};
    } else {
      var fewer := set i | 0 <= i < n - 1 :: SlotAt(s, c.objSize, i);
      SlotCount(s, c, n - 1);
      assert slots == fewer + {SlotAt(s, c.objSize, n - 1)};
    }
  }

  // ---------- the lists ----------

  function RingOf(key: Key, q: seq<int>): (r: seq<int>) {
    [key.Head()] + q
  }

  ghost predicate Aligned(s: set<int>) {
    forall p :: p in s ==> p > 0 && p % PAGE == 0
  }

  ghost function KeyOf(slab: Slab, caches: Caches): Key
    requires slab.cache in caches
  {
    Key(slab.cache, KindOf(slab.inuse, caches[slab.cache].num))
  }

  ghost predicate OnList(slabs: Slabs, caches: Caches, key: Key, s: int) {
    s in slabs && slabs[s].cache in caches && KeyOf(slabs[s], caches) == key
  }

  /** Each list is a ring, and holds exactly the slabs whose number of objects in use puts them there;
      so every slab is on exactly one list. */
  ghost predicate ListsOk(links: Links, slabs: Slabs, caches: Caches, lists: Lists) {
    && Aligned(caches.Keys) && Aligned(slabs.Keys)
    && (forall key :: key in lists <==> key.cache in caches)
    && (forall key :: key in lists ==> Ring(links, RingOf(key, lists[key])))
    && (forall key, s :: key in lists ==> (s in lists[key] <==> OnList(slabs, caches, key, s)))
  }

  lemma HeadsDiffer(k: Key, l: Key)
    requires k.cache % PAGE == 0 && l.cache % PAGE == 0 && k != l
    ensures k.Head() != l.Head() && k.Head() % PAGE != 0
  {
  }

  ghost predicate Apart(r: seq<int>, q: seq<int>) {
    forall x :: x in r ==> x !in q
  }

  lemma RingsApart(links: Links, slabs: Slabs, caches: Caches, lists: Lists, k: Key, l: Key)
    requires ListsOk(links, slabs, caches, lists) && k in lists && l in lists && k != l
    ensures Apart(RingOf(k, lists[k]), RingOf(l, lists[l]))
  {
    HeadsDiffer(k, l);
    forall x | x in RingOf(k, lists[k]) ensures x !in RingOf(l, lists[l]) {
      assert x in lists[k] <==> OnList(slabs, caches, k, x);
      assert x in lists[l] <==> OnList(slabs, caches, l, x);
    }
  }

  lemma AppendRing(m: Links, r: seq<int>, e: int)
    requires Ring(m, r) && e !in r
    ensures r[0] in m && m[r[0]].prev in m && m[r[0]].prev == r[|r| - 1]
    ensures Ring(Added(m, e, m[r[0]].prev, r[0]), r + [e])
  {
    RingAt(m, r, 0);
    AddRing(m, r, |r| - 1, e);
    assert Inserted(r, |r| - 1, e) == r + [e];
  }

  lemma UnlinkFrame(m: Links, r: seq<int>, i: nat, z: seq<int>)
    requires Ring(m, r) && 0 < i < |r| && Ring(m, z) && Apart(r, z)
    ensures NextAt(m, r, i) && PrevAt(m, r, i) && m[r[i]].prev in m && m[r[i]].next in m
    ensures Ring(Unlinked(m, m[r[i]].prev, m[r[i]].next), z)
  {
    DelRing(m, r, i);
    hide Ring;
    assert m[r[i]].prev in r && m[r[i]].next in r;
    RingInMemory(m, z);
    RingFrame(m, Unlinked(m, m[r[i]].prev, m[r[i]].next), z);
  }

  lemma RingInMemory(m: Links, z: seq<int>)
    requires Ring(m, z)
    ensures forall x :: x in z ==> x in m
  {
    forall i | 0 <= i < |z| ensures z[i] in m {
      RingAt(m, z, i);
    }
  }

  lemma AddFrame(m: Links, r: seq<int>, e: int, z: seq<int>)
    requires Ring(m, r) && e !in r && Ring(m, z) && Apart(r, z) && e !in z
    ensures r[0] in m && m[r[0]].prev in m
    ensures Ring(Added(m, e, m[r[0]].prev, r[0]), z)
  {
    AppendRing(m, r, e);
    hide Ring;
    assert m[r[0]].prev in r;
    RingInMemory(m, z);
    RingFrame(m, Added(m, e, m[r[0]].prev, r[0]), z);
  }

  ghost predicate RingsOk(m: Links, lists: Lists) {
    forall key :: key in lists ==> Ring(m, RingOf(key, lists[key]))
  }

  ghost predicate AllApart(lists: Lists) {
    forall k, l :: k in lists && l in lists && k != l ==> Apart(RingOf(k, lists[k]), RingOf(l, lists[l]))
  }

  ghost predicate Nowhere(lists: Lists, s: int) {
    forall key :: key in lists ==> s !in RingOf(key, lists[key])
  }

  lemma WithoutEntry(key: Key, q: seq<int>, i: nat)
    requires Distinct(RingOf(key, q)) && i < |q|
    ensures RingOf(key, Without(q, i)) == Without(RingOf(key, q), i + 1)
    ensures forall x :: x in Without(q, i) <==> x in q && x != q[i]
    ensures q[i] !in RingOf(key, Without(q, i))
  {
    var r := RingOf(key, q);
    assert forall j :: 0 <= j < |q| ==> r[j + 1] == q[j];
    forall j | 0 <= j < |q| && j != i ensures q[j] != q[i] {
      assert r[j + 1] != r[i + 1];
    }
    assert r[0] != r[i + 1];
    assert q == q[..i] + [q[i]] + q[i + 1..];
  }

  /** list_del of entry `i` of list `key`. */
  lemma UnlinkRings(m: Links, lists: Lists, key: Key, i: nat)
    requires RingsOk(m, lists) && AllApart(lists) && key in lists && i < |lists[key]|
    ensures var s := lists[key][i];
            && s in m && m[s].prev in m && m[s].next in m
            && RingsOk(Unlinked(m, m[s].prev, m[s].next), lists[key := Without(lists[key], i)])
            && AllApart(lists[key := Without(lists[key], i)])
            && Nowhere(lists[key := Without(lists[key], i)], s)
  {
    hide Ring, RingOf;
    var s, q := lists[key][i], lists[key];
    var r := RingOf(key, q);
    RingEntries(m, key, q, i);
    DelRing(m, r, i + 1);
    WithoutEntry(key, q, i);
    forall l | l in lists && l != key
      ensures Ring(Unlinked(m, m[s].prev, m[s].next), RingOf(l, lists[l]))
      ensures s !in RingOf(l, lists[l])
      ensures Apart(RingOf(l, lists[l]), RingOf(key, Without(q, i)))
      ensures Apart(RingOf(key, Without(q, i)), RingOf(l, lists[l]))
    {
      UnlinkFrame(m, r, i + 1, RingOf(l, lists[l]));
      RingHas(l, lists[l]);
    }
  }

  lemma RingEntries(m: Links, key: Key, q: seq<int>, i: nat)
    requires Ring(m, RingOf(key, q)) && i < |q|
    ensures Distinct(RingOf(key, q)) && |RingOf(key, q)| == |q| + 1 && RingOf(key, q)[i + 1] == q[i]
    ensures q[i] in RingOf(key, q)
    ensures forall x :: x in RingOf(key, Without(q, i)) ==> x in RingOf(key, q)
  {
  }

  lemma RingHas(key: Key, q: seq<int>)
    ensures forall x :: x in q ==> x in RingOf(key, q)
  {
  }

  /** list_add_before(head of `key`, s). */
  lemma LinkRings(m: Links, lists: Lists, key: Key, s: int)
    requires RingsOk(m, lists) && AllApart(lists) && key in lists && Nowhere(lists, s)
    ensures key.Head() in m && m[key.Head()].prev in m
    ensures RingsOk(Added(m, s, m[key.Head()].prev, key.Head()), lists[key := lists[key] + [s]])
    ensures AllApart(lists[key := lists[key] + [s]])
  {
    hide Ring;
    var q := lists[key];
    var r := RingOf(key, q);
    AppendRing(m, r, s);
    assert RingOf(key, q + [s]) == r + [s];
    forall l | l in lists && l != key
      ensures Ring(Added(m, s, m[key.Head()].prev, key.Head()), RingOf(l, lists[l]))
      ensures Apart(RingOf(l, lists[l]), r + [s]) && Apart(r + [s], RingOf(l, lists[l]))
    {
      AddFrame(m, r, s, RingOf(l, lists[l]));
    }
  }

  // ---------- moving a slab between lists ----------

  ghost function Moved(lists: Lists, from: Key, i: nat, to: Key): (r: Lists)
    requires from in lists && to in lists && i < |lists[from]|
  {
    var l := lists[from := Without(lists[from], i)];
    l[to := l[to] + [lists[from][i]]]
  }

  /** Slab `s` went from list `from` to the end of list `to`. */
  ghost predicate SlabMoved(lists: Lists, lists': Lists, from: Key, to: Key, s: int) {
    && from in lists && to in lists
    && exists i :: 0 <= i < |lists[from]| && lists[from][i] == s && lists' == Moved(lists, from, i, to)
  }

  lemma ListsApart(links: Links, slabs: Slabs, caches: Caches, lists: Lists)
    requires ListsOk(links, slabs, caches, lists)
    ensures RingsOk(links, lists) && AllApart(lists)
  {
    hide Ring;
    forall k, l | k in lists && l in lists && k != l
      ensures Apart(RingOf(k, lists[k]), RingOf(l, lists[l]))
    {
      RingsApart(links, slabs, caches, lists, k, l);
    }
  }

  lemma MovedMembers(slabs: Slabs, caches: Caches, lists: Lists, s: int, slab: Slab, i: nat, key: Key, x: int)
    requires forall key, s :: key in lists ==> (s in lists[key] <==> OnList(slabs, caches, key, s))
    requires s in slabs && slabs[s].cache in caches && slab.cache == slabs[s].cache && key in lists
    requires KeyOf(slabs[s], caches) in lists && KeyOf(slab, caches) in lists
    requires var from := KeyOf(slabs[s], caches);
             i < |lists[from]| && lists[from][i] == s && forall x :: x in Without(lists[from], i) <==> x in lists[from]
                                                                                                       && x != s
    ensures x in Moved(lists, KeyOf(slabs[s], caches), i, KeyOf(slab, caches))[key] <==>
              OnList(slabs[s := slab], caches, key, x)
  {
    assert x in lists[key] <==> OnList(slabs, caches, key, x);
  }

  /** When the number of objects in use of slab `s` changes, moving it to the end of the list it now
      belongs on restores every list. */
  lemma ListsMove(links: Links, slabs: Slabs, caches: Caches, lists: Lists, s: int, slab: Slab, i: nat)
    requires ListsOk(links, slabs, caches, lists) && s in slabs && slabs[s].cache in caches
             && slab.cache == slabs[s].cache
    requires var from := KeyOf(slabs[s], caches); from in lists && i < |lists[from]| && lists[from][i] == s
    ensures KeyOf(slab, caches) in lists
    ensures s in links && links[s].prev in links && links[s].next in links
    ensures var head := KeyOf(slab, caches).Head();
            var m1 := Unlinked(links, links[s].prev, links[s].next);
            && head in m1 && m1[head].prev in m1
            && ListsOk(Added(m1, s, m1[head].prev, head), slabs[s := slab], caches,
                       Moved(lists, KeyOf(slabs[s], caches), i, KeyOf(slab, caches)))
  {
    var from, to := KeyOf(slabs[s], caches), KeyOf(slab, caches);
    ListsApart(links, slabs, caches, lists);
    UnlinkRings(links, lists, from, i);
    WithoutEntry(from, lists[from], i);
    LinkRings(Unlinked(links, links[s].prev, links[s].next), lists[from := Without(lists[from], i)], to, s);
    assert (slabs[s := slab]).Keys == slabs.Keys;
    hide Ring, RingOf, Without, Moved;
    forall key, x | key in lists
      ensures x in Moved(lists, from, i, to)[key] <==> OnList(slabs[s := slab], caches, key, x)
    {
      MovedMembers(slabs, caches, lists, s, slab, i, key, x);
    }
  }

  /** A new, empty slab at the end of the empty list of its cache. */
  lemma ListsGrow(links: Links, slabs: Slabs, caches: Caches, lists: Lists, s: int, slab: Slab)
    requires ListsOk(links, slabs, caches, lists) && slab.cache in caches && slab.inuse == 0
    requires s > 0 && s % PAGE == 0 && s !in slabs && s !in caches
    ensures var key := Key(slab.cache, Empty);
            && key in lists && key.Head() in links && links[key.Head()].prev in links
            && ListsOk(Added(links, s, links[key.Head()].prev, key.Head()), slabs[s := slab], caches,
                       lists[key := lists[key] + [s]])
  {
    var key := Key(slab.cache, Empty);
    var slabs' := slabs[s := slab];
    ListsApart(links, slabs, caches, lists);
    NewIsNowhere(slabs, caches, lists, s);
    LinkRings(links, lists, key, s);
    assert slabs'.Keys == slabs.Keys + {s};
    hide Ring, RingOf;
    forall k, x | k in lists
      ensures x in lists[key := lists[key] + [s]][k] <==> OnList(slabs', caches, k, x)
    {
      assert x in lists[k] <==> OnList(slabs, caches, k, x);
    }
  }

  lemma NewIsNowhere(slabs: Slabs, caches: Caches, lists: Lists, s: int)
    requires s !in slabs && s % PAGE == 0 && Aligned(caches.Keys)
    requires forall key :: key in lists <==> key.cache in caches
    requires forall key, s :: key in lists ==> (s in lists[key] <==> OnList(slabs, caches, key, s))
    ensures Nowhere(lists, s)
  {
    forall key | key in lists ensures s !in RingOf(key, lists[key]) {
      assert s in lists[key] <==> OnList(slabs, caches, key, s);
      assert key.Head() % PAGE != 0;
    }
  }

  /** Taking slab `s` off its list and forgetting it. */
  lemma ListsShrink(links: Links, slabs: Slabs, caches: Caches, lists: Lists, s: int, i: nat)
    requires ListsOk(links, slabs, caches, lists) && s in slabs && slabs[s].cache in caches
    requires var key := KeyOf(slabs[s], caches); key in lists && i < |lists[key]| && lists[key][i] == s
    ensures s in links && links[s].prev in links && links[s].next in links
    ensures var key := KeyOf(slabs[s], caches);
            ListsOk(Unlinked(links, links[s].prev, links[s].next), slabs - {s}, caches,
                    lists[key := Without(lists[key], i)])
  {
    var key := KeyOf(slabs[s], caches);
    ListsApart(links, slabs, caches, lists);
    UnlinkRings(links, lists, key, i);
    WithoutEntry(key, lists[key], i);
    hide Ring, RingOf, Without;
    forall k, x | k in lists
      ensures x in lists[key := Without(lists[key], i)][k] <==> OnList(slabs - {s}, caches, k, x)
    {
      assert x in lists[k] <==> OnList(slabs, caches, k, x);
    }
  }

  function NewHeads(m: Links, c: int): (m': Links) {
    var f, p, e := Key(c, Full).Head(), Key(c, Partial).Head(), Key(c, Empty).Head();
    m[f := Link(f, f)][p := Link(p, p)][e := Link(e, e)]
  }

  ghost function NewLists(lists: Lists, c: int): Lists {
    lists[Key(c, Full) := []][Key(c, Partial) := []][Key(c, Empty) := []]
  }

  ghost predicate Owned(slabs: Slabs, caches: Caches) {
    forall s :: s in slabs ==> slabs[s].cache in caches
  }

  /** A new cache with three empty lists. */
  lemma ListsCreate(links: Links, slabs: Slabs, caches: Caches, lists: Lists, c: int, rec: Cache)
    requires ListsOk(links, slabs, caches, lists) && Owned(slabs, caches)
    requires c > 0 && c % PAGE == 0 && c !in caches && c !in slabs
    ensures ListsOk(NewHeads(links, c), slabs, caches[c := rec], NewLists(lists, c))
  {
    var links', caches', lists' := NewHeads(links, c), caches[c := rec], NewLists(lists, c);
    assert caches'.Keys == caches.Keys + {c};
    forall key ensures key in lists' <==> key.cache in caches' {
      assert key in lists <==> key.cache in caches;
      assert key == Key(key.cache, Full) || key == Key(key.cache, Partial) || key == Key(key.cache, Empty);
    }
    forall key | key in lists' ensures Ring(links', RingOf(key, lists'[key])) {
      if key.cache == c {
        EmptyRing(links', key);
      } else {
        KeptRing(links, slabs, caches, lists, c, key);
      }
    }
    forall key, x | key in lists' ensures x in lists'[key] <==> OnList(slabs, caches', key, x) {
      if key.cache != c {
        assert x in lists[key] <==> OnList(slabs, caches, key, x);
      }
    }
  }

  lemma EmptyRing(m: Links, key: Key)
    requires key.Head() in m && m[key.Head()] == Link(key.Head(), key.Head())
    ensures Ring(m, RingOf(key, []))
  {
    var r := RingOf(key, []);
    assert NextAt(m, r, 0) && PrevAt(m, r, 0);
  }

  lemma KeptRing(links: Links, slabs: Slabs, caches: Caches, lists: Lists, c: int, key: Key)
    requires ListsOk(links, slabs, caches, lists) && c % PAGE == 0 && c !in caches && key in lists
    ensures Ring(NewHeads(links, c), RingOf(key, lists[key]))
  {
    hide Ring;
    RingInMemory(links, RingOf(key, lists[key]));
    forall kind, x | x in RingOf(key, lists[key]) ensures x != Key(c, kind).Head() {
      HeadsDiffer(Key(c, kind), key);
      assert x in lists[key] <==> OnList(slabs, caches, key, x);
    }
    RingFrame(links, NewHeads(links, c), RingOf(key, lists[key]));
  }

  ghost function DropLists(lists: Lists, c: int): Lists {
    lists - {Key(c, Full), Key(c, Partial), Key(c, Empty)}
  }

  /** A cache without slabs can be forgotten. */
  lemma ListsDrop(links: Links, slabs: Slabs, caches: Caches, lists: Lists, c: int)
    requires ListsOk(links, slabs, caches, lists) && c in caches
    requires forall s :: s in slabs ==> slabs[s].cache != c
    ensures ListsOk(links, slabs, caches - {c}, DropLists(lists, c))
  {
    hide Ring;
    var lists' := DropLists(lists, c);
    forall key ensures key in lists' <==> key.cache in caches - {c} {
      assert key in lists <==> key.cache in caches;
    }
    forall key, x | key in lists' ensures x in lists'[key] <==> OnList(slabs, caches - {c}, key, x) {
      assert x in lists[key] <==> OnList(slabs, caches, key, x);
    }
  }

  // ---------- counting ----------

  ghost function SlabsOf(slabs: Slabs, c: int): set<int> {
    set s | s in slabs && slabs[s].cache == c
  }

  ghost function Share(slab: Slab, c: int): int {
    if slab.cache == c then slab.inuse else 0
  }

  ghost function InuseSum(slabs: Slabs, c: int): int {
    if exists s :: s in slabs then
      var s :| s in slabs;
      Share(slabs[s], c) + InuseSum(slabs - {s}, c)
    else 0
  }

  lemma {:induction false} SumDrop(slabs: Slabs, c: int, s: int)
    requires s in slabs
    ensures InuseSum(slabs, c) == Share(slabs[s], c) + InuseSum(slabs - {s}, c)
    decreases |slabs|
  {
    var t :| t in slabs && InuseSum(slabs, c) == Share(slabs[t], c) + InuseSum(slabs - {t}, c);
    if t != s {
      SumDrop(slabs - {t}, c, s);
      SumDrop(slabs - {s}, c, t);
      assert (slabs - {t}) - {s} == (slabs - {s}) - {t};
    }
  }

  lemma SumUpdate(slabs: Slabs, c: int, s: int, slab: Slab)
    ensures InuseSum(slabs[s := slab], c) ==
            InuseSum(slabs, c) + Share(slab, c) - (if s in slabs then Share(slabs[s], c) else 0)
  {
    SumDrop(slabs[s := slab], c, s);
    assert slabs[s := slab] - {s} == slabs - {s};
    if s in slabs {
      SumDrop(slabs, c, s);
    } else {
      assert slabs - {s} == slabs;
    }
  }

  ghost predicate CountOk(slabs: Slabs, c: int, rec: Cache, n: Counts) {
    && n.totalSlabs == |SlabsOf(slabs, c)|
    && n.totalObjs == rec.num * n.totalSlabs
    && n.active == InuseSum(slabs, c)
  }

  ghost predicate CountsOk(slabs: Slabs, caches: Caches, counts: map<int, Counts>) {
    && counts.Keys == caches.Keys
    && forall c :: c in caches ==> CountOk(slabs, c, caches[c], counts[c])
  }

  /** Changing the objects in use of one slab changes the sum of its cache by the difference. */
  lemma CountsMove(slabs: Slabs, caches: Caches, counts: map<int, Counts>, s: int, slab: Slab)
    requires CountsOk(slabs, caches, counts) && s in slabs && slab.cache == slabs[s].cache && slab.cache in caches
    ensures var n := counts[slab.cache];
            CountsOk(slabs[s := slab], caches,
                     counts[slab.cache := n.(active := n.active + slab.inuse - slabs[s].inuse)])
  {
    forall c | c in caches ensures InuseSum(slabs[s := slab], c) == InuseSum(slabs, c) + Share(slab,
                                                                                               c) - Share(slabs[s], c)
                           ensures SlabsOf(slabs[s := slab], c) == SlabsOf(slabs, c) {
      SumUpdate(slabs, c, s, slab);
    }
  }

  lemma SlabsOfAdd(slabs: Slabs, c: int, s: int, slab: Slab)
    requires s !in slabs
    ensures |SlabsOf(slabs[s := slab], c)| == |SlabsOf(slabs, c)| + if c == slab.cache then 1 else 0
  {
    assert SlabsOf(slabs[s := slab], c) == SlabsOf(slabs, c) + if c == slab.cache then {s} else {};
  }

  lemma CountsGrow(slabs: Slabs, caches: Caches, counts: map<int, Counts>, s: int, slab: Slab)
    requires CountsOk(slabs, caches, counts) && s !in slabs && slab.cache in caches && slab.inuse == 0
    ensures var n := counts[slab.cache];
            CountsOk(slabs[s := slab], caches,
                     counts[slab.cache := n.(totalSlabs := n.totalSlabs + 1,
                                             totalObjs := n.totalObjs + caches[slab.cache].num)])
  {
    hide InuseSum, SlabsOf;
    forall c | c in caches
      ensures InuseSum(slabs[s := slab], c) == InuseSum(slabs, c)
      ensures |SlabsOf(slabs[s := slab], c)| == |SlabsOf(slabs, c)| + if c == slab.cache then 1 else 0
    {
      SumUpdate(slabs, c, s, slab);
      SlabsOfAdd(slabs, c, s, slab);
    }
    var n, num := counts[slab.cache].totalSlabs, caches[slab.cache].num;
    assert num * (n + 1) == num * n + num;
  }

  /** With nothing in use no slab has anything in use. */
  lemma {:induction false} NothingInUse(slabs: Slabs, c: int)
    requires (forall s :: s in slabs ==> slabs[s].inuse >= 0) && InuseSum(slabs, c) == 0
    ensures forall s :: s in slabs && slabs[s].cache == c ==> slabs[s].inuse == 0
  {
    forall s | s in slabs && slabs[s].cache == c ensures slabs[s].inuse == 0 {
      SumDrop(slabs, c, s);
      SumNonNegative(slabs - {s}, c);
    }
  }

  lemma {:induction false} SumNonNegative(slabs: Slabs, c: int)
    requires forall s :: s in slabs ==> slabs[s].inuse >= 0
    ensures InuseSum(slabs, c) >= 0
    decreases |slabs|
  {
    if exists s :: s in slabs {
      var s :| s in slabs && InuseSum(slabs, c) == Share(slabs[s], c) + InuseSum(slabs - {s}, c);
      SumNonNegative(slabs - {s}, c);
      assert Share(slabs[s], c) >= 0;
    } else {
      assert InuseSum(slabs, c) == 0;
    }
  }

  // ---------- all slabs together ----------

  ghost predicate SlabsOk(slabs: Slabs, caches: Caches, next: map<int, int>, frees: Frees) {
    && frees.Keys == slabs.Keys
    && (forall c :: c in caches ==> CacheShape(caches[c]))
    && (forall s :: s in slabs ==> s > 0 && s % PAGE == 0 && slabs[s].cache in caches)
    && (forall s :: s in slabs ==> SlabOk(caches[slabs[s].cache], slabs[s], next, frees[s], s))
  }

  /** An object in use: a slot of some slab that is not on the slab's freelist. */
  ghost predicate IsLive(slabs: Slabs, caches: Caches, frees: Frees, o: int) {
    var s := RoundDown(o);
    s in slabs && slabs[s].cache in caches && s in frees && IsSlot(s, caches[slabs[s].cache], o) && o !in frees[s]
  }

  lemma SlabsPop(slabs: Slabs, caches: Caches, next: map<int, int>, frees: Frees, s: int)
    requires SlabsOk(slabs, caches, next, frees) && s in slabs && frees[s] != []
    ensures var o := frees[s][0];
            && slabs[s].freelist == o && o > 0 && o in next && RoundDown(o) == s
            && slabs[s].inuse < caches[slabs[s].cache].num
            && SlabsOk(slabs[s := slabs[s].(freelist := next[o], inuse := slabs[s].inuse + 1)], caches, next,
                       frees[s := frees[s][1..]])
            && !IsLive(slabs, caches, frees, o)
    ensures var o := frees[s][0];
            var slabs' := slabs[s := slabs[s].(freelist := next[o], inuse := slabs[s].inuse + 1)];
            forall x :: IsLive(slabs', caches, frees[s := frees[s][1..]], x) <==>
              IsLive(slabs, caches, frees, x) || x == o
  {
    var c, o := caches[slabs[s].cache], frees[s][0];
    SlabPop(c, slabs[s], next, frees[s], s);
    SlotBounds(s, c, o);
    assert frees[s] == [o] + frees[s][1..];
    hide SlabOk, IsSlot;
  }

  lemma SlabsPush(slabs: Slabs, caches: Caches, next: map<int, int>, frees: Frees, o: int)
    requires SlabsOk(slabs, caches, next, frees) && IsLive(slabs, caches, frees, o)
    ensures var s := RoundDown(o);
            var slabs' := slabs[s := slabs[s].(freelist := o, inuse := slabs[s].inuse - 1)];
            && slabs[s].inuse > 0
            && SlabsOk(slabs', caches, next[o := slabs[s].freelist], frees[s := [o] + frees[s]])
            && forall x :: IsLive(slabs', caches, frees[s := [o] + frees[s]], x) <==> IsLive(slabs, caches, frees, x)
                                                                                      && x != o
  {
    var s := RoundDown(o);
    var c := caches[slabs[s].cache];
    FreeAtMost(c, frees[s], s, o);
    SlabPush(c, slabs[s], next, frees[s], s, o);
    forall t | t in slabs && t != s
      ensures SlabOk(caches[slabs[t].cache], slabs[t], next[o := slabs[s].freelist], frees[t], t)
    {
      SlabFrame(caches[slabs[t].cache], slabs[t], next, frees[t], t, o, slabs[s].freelist);
    }
    hide SlabOk, IsSlot;
  }
}
