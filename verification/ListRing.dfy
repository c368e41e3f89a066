/**
 The circular doubly linked list of lab2/libs/list.h. Entries live at addresses; a list is a ring of
 entries whose first one is the list head. The page allocator and the SLUB caches both use it.
 */
module ListRing {
  import opened Sequences

  datatype Link = Link(prev: int, next: int)

  type Links = map<int, Link>

  function Predecessor(i: nat, n: nat): (j: nat)
    requires i < n
    ensures j < n && Successor(j, n) == i
  {
    if i == 0 then n - 1 else i - 1
  }

  ghost predicate NextAt(m: Links, r: seq<int>, i: nat)
    requires i < |r|
  {
    r[i] in m && m[r[i]].next == r[Successor(i, |r|)]
  }

  ghost predicate PrevAt(m: Links, r: seq<int>, i: nat)
    requires i < |r|
  {
    r[i] in m && m[r[i]].prev == r[Predecessor(i, |r|)]
  }

  ghost predicate Distinct(r: seq<int>) {
    forall i, j :: 0 <= i < j < |r| ==> r[i] != r[j]
  }

  /** Following `next` from the head visits `r` in order and returns to the head. */
  ghost predicate NextRing(m: Links, r: seq<int>) {
    |r| > 0 && Distinct(r) && forall i :: 0 <= i < |r| ==> NextAt(m, r, i)
  }

  /** And `prev` goes round the same ring backwards. */
  ghost predicate Ring(m: Links, r: seq<int>) {
    NextRing(m, r) && forall i :: 0 <= i < |r| ==> PrevAt(m, r, i)
  }

  lemma RingAt(m: Links, r: seq<int>, i: nat)
    requires Ring(m, r) && i < |r|
    ensures NextAt(m, r, i) && PrevAt(m, r, i)
  {
  }

  // ---------- the two primitives ----------

  /** Memory after __list_add(elm, prev, next). */
  function Added(m: Links, elm: int, prev: int, next: int): (m': Links)
    requires prev in m && next in m
  {
    var m1 := m[next := m[next].(prev := elm)];
    var m2 := m1[prev := m1[prev].(next := elm)];
    m2[elm := Link(prev, next)]
  }

  /** Memory after __list_del(prev, next). */
  function Unlinked(m: Links, prev: int, next: int): (m': Links)
    requires prev in m && next in m
  {
    var m1 := m[prev := m[prev].(next := next)];
    m1[next := m1[next].(prev := prev)]
  }

  function Inserted(r: seq<int>, i: nat, e: int): (r': seq<int>)
    requires i < |r|
  {
    r[..i + 1] + [e] + r[i + 1..]
  }

  /** Adding a new entry after entry `i` of a ring. */
  lemma AddRing(m: Links, r: seq<int>, i: nat, e: int)
    requires Ring(m, r) && i < |r| && e !in r
    ensures NextAt(m, r, i) && r[Successor(i, |r|)] in m
    ensures Ring(Added(m, e, r[i], r[Successor(i, |r|)]), Inserted(r, i, e))
  {
    RingAt(m, r, i);
    RingAt(m, r, Successor(i, |r|));
    var q := Inserted(r, i, e);
    var m' := Added(m, e, r[i], r[Successor(i, |r|)]);
    InsertedDistinct(r, i, e);
    forall j | 0 <= j < |q| ensures NextAt(m', q, j) && PrevAt(m', q, j) {
      AddedAt(m, r, i, e, j);
    }
  }

  lemma InsertedDistinct(r: seq<int>, i: nat, e: int)
    requires Distinct(r) && i < |r| && e !in r
    ensures Distinct(Inserted(r, i, e))
  {
    var q := Inserted(r, i, e);
    assert forall j :: 0 <= j < |q| && j != i + 1 ==> q[j] == r[if j <= i then j else j - 1];
  }

  lemma AddedAt(m: Links, r: seq<int>, i: nat, e: int, j: nat)
    requires Ring(m, r) && i < |r| && e !in r && j <= |r|
    ensures NextAt(m, r, i) && r[Successor(i, |r|)] in m
    ensures var m' := Added(m, e, r[i], r[Successor(i, |r|)]);
            NextAt(m', Inserted(r, i, e), j) && PrevAt(m', Inserted(r, i, e), j)
  {
    RingAt(m, r, i);
    RingAt(m, r, Successor(i, |r|));
    if j != i + 1 {
      RingAt(m, r, if j <= i then j else j - 1);
    }
  }

  /** Deleting entry `i`, not the head. */
  lemma DelRing(m: Links, r: seq<int>, i: nat)
    requires Ring(m, r) && 0 < i < |r|
    ensures NextAt(m, r, i) && PrevAt(m, r, i) && m[r[i]].prev in m && m[r[i]].next in m
    ensures Ring(Unlinked(m, m[r[i]].prev, m[r[i]].next), Without(r, i))
  {
    RingAt(m, r, i);
    RingAt(m, r, i - 1);
    RingAt(m, r, Successor(i, |r|));
    var q := Without(r, i);
    var m' := Unlinked(m, m[r[i]].prev, m[r[i]].next);
    assert Distinct(q) by {
      assert forall j :: 0 <= j < |q| ==> q[j] == r[if j < i then j else j + 1];
    }
    forall j | 0 <= j < |q| ensures NextAt(m', q, j) && PrevAt(m', q, j) {
      UnlinkedAt(m, r, i, j);
    }
  }

  lemma UnlinkedAt(m: Links, r: seq<int>, i: nat, j: nat)
    requires Ring(m, r) && 0 < i < |r| && j + 1 < |r|
    ensures NextAt(m, r, i) && PrevAt(m, r, i) && m[r[i]].prev in m && m[r[i]].next in m
    ensures var m' := Unlinked(m, m[r[i]].prev, m[r[i]].next);
            NextAt(m', Without(r, i), j) && PrevAt(m', Without(r, i), j)
  {
    hide Ring, NextRing, Without;
    RingDistinct(m, r);
    RingAt(m, r, i);
    RingAt(m, r, i - 1);
    RingAt(m, r, Successor(i, |r|));
    RingAt(m, r, if j < i then j else j + 1);
    WithoutAt(r, i, j);
    WithoutAt(r, i, Successor(j, |r| - 1));
    WithoutAt(r, i, Predecessor(j, |r| - 1));
  }

  lemma WithoutAt(r: seq<int>, i: nat, j: nat)
    requires i < |r| && j + 1 < |r|
    ensures |Without(r, i)| == |r| - 1 && Without(r, i)[j] == r[if j < i then j else j + 1]
  {
  }

  lemma RingDistinct(m: Links, r: seq<int>)
    requires Ring(m, r)
    ensures Distinct(r)
  {
  }

  /** A ring survives any change to entries that are not on it. */
  lemma RingFrame(m: Links, m': Links, r: seq<int>)
    requires Ring(m, r) && forall x :: x in r ==> x in m' && (x in m ==> m'[x] == m[x])
    ensures Ring(m', r)
  {
    forall i | 0 <= i < |r| ensures NextAt(m', r, i) && PrevAt(m', r, i) {
      RingAt(m, r, i);
      assert r[i] in r;
    }
  }
}
