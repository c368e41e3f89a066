/**
 kmalloc and kfree of lab2/kern/mm/kmalloc.c: seven general caches for the powers of two from 32 to
 2048 bytes, and the bit arithmetic that routes a request to one of them.
 */
module SlubKmalloc {
  import opened SlubModel
  import opened Slub
  import opened Powers
  import opened Requests
  import opened Sequences

  const MIN_LOG2 := 5
  const MAX_LOG2 := 11
  const CACHES := MAX_LOG2 - MIN_LOG2 + 1

  /** Whether any of the `width` bits of `x` from bit `low` on is set: the test `x & mask` of the source
      for a mask of consecutive ones. */
  predicate AnyBit(x: int, low: nat, width: nat) {
    x / Pow2(low) % Pow2(width) != 0
  }

  /** `n` is the position, counted from 1, of the highest set bit. */
  predicate HighestBit(x: int, n: nat) {
    if x == 0 then n == 0 else n >= 1 && Pow2(n - 1) <= x < Pow2(n)
  }

  /** Shifting `x` right by `k` positions lowers its highest bit by `k`. */
  lemma ShiftHighest(x: int, k: nat, n: nat)
    requires x >= Pow2(k) && x / Pow2(k) >= 1 && HighestBit(x / Pow2(k), n)
    ensures HighestBit(x, n + k)
  {
    hide Pow2;
    Pow2Sum(k, n - 1);
    Pow2Sum(k, n);
    Unshift(x, Pow2(k), Pow2(n - 1), Pow2(n));
  }

  lemma TopBits(x: int, low: nat, width: nat)
    requires 0 <= x < Pow2(low + width)
    ensures AnyBit(x, low, width) <==> x >= Pow2(low)
    ensures 0 <= x / Pow2(low) < Pow2(width)
    ensures x >= Pow2(low) ==> x / Pow2(low) >= 1
  {
    hide Pow2;
    Pow2Sum(low, width);
    ShiftBelow(x, Pow2(low), Pow2(width));
    SmallRemainder(x / Pow2(low), Pow2(width));
  }

  lemma SmallRemainder(y: int, w: nat)
    requires 0 <= y < w
    ensures y % w == y
  {
  }

  /** `x` is a negative number of `width` bits; shifting it right keeps it one of fewer. */
  predicate Negative(x: int, width: nat)
    requires width > 0
  {
    0 <= x + Pow2(width - 1) && x < 0
  }

  lemma TopOfNegative(x: int, half: nat)
    requires half > 0 && Negative(x, 2 * half)
    ensures AnyBit(x, half, half) && Negative(x / Pow2(half), half)
  {
    hide Pow2;
    Pow2Sum(half, half - 1);
    PowerStep(half - 1);
    FloorNegative(x, Pow2(half), Pow2(half - 1));
    WrapNegative(x / Pow2(half), Pow2(half));
  }

  lemma FloorNegative(x: int, p: nat, q: nat)
    requires p >= 1 && 0 <= x + p * q && x < 0
    ensures 0 <= x / p + q && x / p < 0
  {
    var y := x / p;
    assert p * y <= x < p * y + p;
    assert p * (y + q) == p * y + p * q;
    if y + q < 0 {
      Scale(p, y + q, -1);
    }
    if y >= 0 {
      Scale(p, 0, y);
    }
  }

  lemma WrapNegative(y: int, p: nat)
    requires 0 < y + p && y < 0
    ensures y % p != 0
  {
    assert y % p == y + p;
  }

  /** One step of fls: if any of the upper `half` bits is set, count them and shift them down. */
  method Halve(x: int, n: nat, half: nat, ghost start: int) returns (y: int, m: nat)
    requires half > 0 && (0 <= x < Pow2(2 * half) || (start < 0 && Negative(x, 2 * half)))
    requires forall h: nat :: HighestBit(x, h) && start > 0 ==> HighestBit(start, h + n)
    requires if start > 0 then x > 0 else Negative(x, 2 * half)
    ensures if start > 0 then 0 < y < Pow2(half) else Negative(y, half) && m == n + half
    ensures forall h: nat :: HighestBit(y, h) && start > 0 ==> HighestBit(start, h + m)
  {
    if start > 0 {
      TopBits(x, half, half);
    } else {
      TopOfNegative(x, half);
    }
    y, m := x, n;
    if AnyBit(x, half, half) {
      m := n + half;
      y := x / Pow2(half);
      forall h: nat | HighestBit(y, h) && start > 0 ensures HighestBit(start, h + m) {
        ShiftHighest(x, half, h);
        assert HighestBit(x, h + half);
        assert h + m == (h + half) + n;
      }
    }
  }

  /** fls: find last set bit, by halving; a negative int has its sign bit set. */
  method Fls(i: int) returns (n: nat)
    requires -0x8000_0000 <= i < 0x8000_0000
    ensures i >= 0 ==> HighestBit(i, n)
    ensures i < 0 ==> n == 32
  {
    hide Pow2;
    if i == 0 {
      return 0;
    }
    Pow2Values();
    var x;
    x, n := Halve(i, 0, 16, i);
    x, n := Halve(x, n, 8, i);
    x, n := Halve(x, n, 4, i);
    x, n := Halve(x, n, 2, i);
    x, n := Halve(x, n, 1, i);
    if x % 2 == 1 {
      assert i > 0 ==> HighestBit(x, 1);
      n := n + 1;
    }
  }

  lemma Pow2Values()
    ensures Pow2(0) == 1 && Pow2(1) == 2 && Pow2(2) == 4 && Pow2(4) == 16 && Pow2(8) == 256 && Pow2(16) == 65536
    ensures Pow2(5) == 32 && Pow2(11) == 2048 && Pow2(31) == 0x8000_0000 && Pow2(32) == 0x1_0000_0000
  {
    Pow2Sum(16, 16);
    PowerStep(31);
  }

  /** ffs: find first set bit; applied to powers of two. */
  method Ffs(i: int) returns (n: nat)
    ensures i == 0 ==> n == 0
    ensures i != 0 ==> n >= 1 && exists odd: int :: odd % 2 == 1 && i == Pow2(n - 1) * odd
  {
    if i == 0 {
      return 0;
    }
    n := 1;
    var x := i;
    while x % 2 == 0
      invariant n >= 1 && x != 0 && i == Pow2(n - 1) * x
      decreases if x < 0 then -x else x
    {
      assert x == 2 * (x / 2);
      Regroup(Pow2(n - 1), x / 2);
      x := x / 2;
      n := n + 1;
    }
  }

  lemma Regroup(p: nat, h: int)
    ensures p * (2 * h) == (2 * p) * h
  {
  }

  /** A power of two has no odd divisor but 1, so its lowest set bit is its only one. */
  lemma {:induction false} OddPower(k: nat, m: nat, odd: int)
    requires odd % 2 == 1 && Pow2(k) == Pow2(m) * odd
    ensures k == m
  {
    if m > 0 {
      Regroup(Pow2(m - 1), odd);
      assert Pow2(m) * odd == 2 * (Pow2(m - 1) * odd);
      if k > 0 {
        OddPower(k - 1, m - 1, odd);
      }
    }
  }

  /** The least general cache whose objects hold `size` bytes. */
  ghost predicate BestCache(size: int, index: int) {
    0 <= index < 7 && size <= Pow2(index + 5) && forall k: nat :: 5 <= k < index + 5 ==> Pow2(k) < size
  }

  lemma InRange(size: int, index: int)
    requires BestCache(size, index)
    ensures 0 <= index < CACHES
  {
  }

  /** The index computation of kmalloc: round up to a power of two with fls, at least 32, and take its
      logarithm with ffs. */
  method CacheIndex(size: int) returns (index: int)
    requires 1 <= size <= 2048
    ensures BestCache(size, index)
  {
    Pow2Values();
    hide Pow2;
    var f := Fls(size - 1);
    var rounded := Pow2(f);
    ghost var log := f;
    if rounded < Pow2(MIN_LOG2) {
      rounded := Pow2(MIN_LOG2);
      log := MIN_LOG2;
    }
    var n := Ffs(rounded);
    ghost var odd :| odd % 2 == 1 && rounded == Pow2(n - 1) * odd;
    OddPower(log, n - 1, odd);
    index := n - 1 - MIN_LOG2;
    RoundedFits(size, f);
  }

  lemma RoundedFits(size: int, f: nat)
    requires 1 <= size <= Pow2(MAX_LOG2) && HighestBit(size - 1, f)
    ensures size <= Pow2(f) && f <= MAX_LOG2
    ensures f < MIN_LOG2 <==> Pow2(f) < Pow2(MIN_LOG2)
    ensures forall j: nat :: j < f ==> Pow2(j) < size
    ensures f <= MIN_LOG2 ==> size <= Pow2(MIN_LOG2)
  {
    Pow2Values();
    hide Pow2;
    if f > MAX_LOG2 {
      Pow2Monotone(MAX_LOG2, f - 1);
    }
    if f < MIN_LOG2 {
      Pow2Monotone(f + 1, MIN_LOG2);
      PowerStep(f);
    } else {
      Pow2Monotone(MIN_LOG2, f);
    }
    forall j: nat | j < f ensures Pow2(j) < size {
      Pow2Monotone(j, f - 1);
    }
  }

  lemma PowerStep(n: nat)
    ensures Pow2(n + 1) == 2 * Pow2(n)
  {
  }

  /** kmalloc and kfree over the caches of slub.c. */
  class GeneralCaches {
    const sys: SlubSystem
    var table: seq<int>

    ghost predicate Valid()
      reads this, sys
    {
      sys.Valid() && Made(7)
    }

    /** The first `n` general caches exist, and objects of the i-th have 2^(i+5) bytes. */
    ghost predicate Made(n: nat)
      reads this, sys
    {
      n <= |table| && forall i :: 0 <= i < n ==> table[i] in sys.caches
                                                 && sys.caches[table[i]].objSize == Pow2(i + 5)
    }

    constructor (sys: SlubSystem)
      ensures this.sys == sys && table == []
    {
      this.sys, table := sys, [];
    }

    /** kmalloc_init: it panics exactly if the page allocator has not a page for each cache. */
    method KmallocInit() returns (panicked: bool)
      requires sys.Valid() && table == []
      modifies this, sys
      ensures sys.Valid() && (!panicked ==> Valid() && |table| == 7)
      ensures panicked <==> !Enough(old(sys.supply), old(sys.held), CACHES)
      ensures sys.slabs == old(sys.slabs) && (forall o :: sys.Live(o) <==> old(sys.Live(o)))
    {
      hide ListsOk, SlabsOk, CountsOk, IsLive, Pow2;
      for i := 0 to CACHES
        invariant sys.Valid() && |table| == i && Made(i)
        invariant Enough(old(sys.supply), old(sys.held), CACHES) == Enough(sys.supply, sys.held, CACHES - i)
        invariant sys.slabs == old(sys.slabs) && (forall o :: sys.Live(o) <==> old(sys.Live(o)))
      {
        CacheFits(i);
        var cache := sys.KmemCacheCreate(Pow2(i + MIN_LOG2), 0);
        if cache == 0 {
          return true;
        }
        table := table + [cache];
      }
      return false;
    }

    /** kmalloc: NULL for 0 and for more than 2048 bytes; otherwise a new object of the least power of
        two that is at least 32 and at least `size`, unless the cache is full and there is no page. */
    method Kmalloc(size: int) returns (p: int, ghost index: int)
      requires Valid() && size >= 0
      modifies sys
      ensures Valid() && Kept(old(sys.slabs), sys.slabs) && sys.caches == old(sys.caches)
      ensures size == 0 || size > 2048 ==> p == 0 && sys.slabs == old(sys.slabs) && sys.held == old(sys.held)
      ensures 1 <= size <= 2048 ==>
                && BestCache(size, index)
                && (p == 0 <==> old(sys.NoFreeSlot(table[index])) && !old(sys.PageReady()))
                && (p != 0 ==> RoundDown(p) in sys.slabs && sys.slabs[RoundDown(p)].cache == table[index])
      ensures p != 0 ==> !old(sys.Live(p)) && sys.Live(p) && sys.SizeOf(p) == Pow2(index + 5)
      ensures p != 0 ==> size <= sys.SizeOf(p) && 32 <= sys.SizeOf(p)
                         && (sys.SizeOf(p) == 32 || sys.SizeOf(p) < 2 * size)
      ensures forall o :: sys.Live(o) <==> old(sys.Live(o)) || (p != 0 && o == p)
      ensures if 1 <= size <= 2048 && 0 <= index < |table| && old(sys.NoFreeSlot(table[index])) then
                sys.asked == old(sys.asked) + 1
                && (p != 0 ==> old(sys.supply) != [] && sys.supply == old(sys.supply)[1..]
                               && sys.held == old(sys.held) + {old(sys.supply)[0]})
              else sys.asked == old(sys.asked) && sys.supply == old(sys.supply) && sys.held == old(sys.held)
    {
      Pow2Values();
      hide Pow2, ListsOk, SlabsOk, CountsOk, BestCache, IsSlot, RoundDown;
      if size == 0 {
        return 0, 0;
      }
      if size > Pow2(MAX_LOG2) {
        return 0, 0;
      }
      var i := CacheIndex(size);
      index := i;
      InRange(size, i);
      BestSize(size, i);
      p := sys.KmemCacheAlloc(table[i]);
    }

    /** kfree: NULL is ignored; the header of the object's page names its cache, so freeing a live
        object never panics and ends exactly that object. */
    method Kfree(p: int) returns (panicked: bool)
      requires Valid() && (p != 0 ==> sys.Live(p))
      modifies sys
      ensures Valid() && !panicked && Kept(old(sys.slabs), sys.slabs) && sys.caches == old(sys.caches)
              && sys.held == old(sys.held) && sys.supply == old(sys.supply) && sys.asked == old(sys.asked)
      ensures forall o :: sys.Live(o) <==> old(sys.Live(o)) && (p == 0 || o != p)
    {
      hide Pow2, ListsOk, SlabsOk, CountsOk, IsSlot, RoundDown, SlabMoved;
      if p == 0 {
        return false;
      }
      var slab := RoundDown(p);
      var cache := sys.slabs[slab].cache;
      panicked := sys.KmemCacheFree(cache, p);
    }

    /** `mine` maps each pointer a client holds to the bytes it asked for; nothing else is in use. */
    ghost predicate Serves(mine: map<int, nat>)
      reads this, sys
    {
      && (forall o :: sys.Live(o) <==> o in mine)
      && (forall o :: o in mine ==> mine[o] <= sys.SizeOf(o))
    }

    /** In every run of kmalloc and kfree what clients hold follows from the requests and their answers and is exactly
        what is in use, each block has the bytes asked for, no two overlap, and nothing panics. */
    method Run(ops: seq<Op>, held: map<int, nat>) returns (mine: map<int, nat>, trace: seq<Option<int>>, panicked: bool)
      requires Valid() && Serves(held)
      modifies sys
      ensures Valid() && Serves(mine) && !panicked && |trace| == |ops| && mine == Replay(held, ops, trace)
      ensures Declined(ops, trace)
      ensures old(Enough(sys.supply, sys.held, |ops|)) || sys.asked == old(sys.asked) ==> Granted(ops, trace)
      ensures forall o, p :: o in mine && p in mine && o != p ==> o + mine[o] <= p || p + mine[p] <= o
    {
      hide ListsOk, SlabsOk, CountsOk, Enough, Replay, After, BestCache, Granted, Declined;
      mine, trace, panicked := held, [], false;
      NoRequests(held, ops);
      for i := 0 to |ops|
        invariant Valid() && Serves(mine) && !panicked && |trace| == i && mine == Replay(held, ops[..i], trace)
        invariant sys.asked >= old(sys.asked) && Declined(ops, trace)
        invariant old(Enough(sys.supply, sys.held, |ops|)) ==> Enough(sys.supply, sys.held, |ops| - i)
        invariant old(Enough(sys.supply, sys.held, |ops|)) || sys.asked == old(sys.asked) ==> Granted(ops, trace)
      {
        var p;
        mine, p, panicked := Step(ops[i], mine, |ops| - i);
        ReplayNext(held, ops, trace, i, p);
        AnswersNext(ops, trace, p);
        trace := trace + [p];
      }
      assert ops[..|ops|] == ops;
      forall o, p | o in mine && p in mine && o != p ensures o + mine[o] <= p || p + mine[p] <= o {
        sys.LiveApart(o, p);
      }
    }

    lemma NullIsFree()
      requires Valid()
      ensures !sys.Live(0)
    {
    }

    /** One request, with the pointer it returned; a free of something not held is a client error and is skipped. */
    method Step(op: Op, held: map<int, nat>, ghost n: nat)
      returns (mine: map<int, nat>, p: Option<int>, panicked: bool)
      requires Valid() && Serves(held) && n > 0
      modifies sys
      ensures sys.asked >= old(sys.asked)
              && (op.Malloc? && 1 <= op.size <= 2048 && p.None? ==> sys.asked > old(sys.asked))
      ensures old(Enough(sys.supply, sys.held, n)) ==>
                Enough(sys.supply, sys.held, n - 1) && (op.Malloc? && 1 <= op.size <= 2048 ==> p.Some?)
      ensures Valid() && Serves(mine) && !panicked && mine == After(held, op, p) && (p.Some? ==> p.value !in held)
      ensures op.Malloc? && (op.size == 0 || op.size > 2048) ==> p.None?
      ensures op.Malloc? && 1 <= op.size <= 2048 ==>
                exists index :: BestCache(op.size, index) && index < |table|
                                && (p.None? <==> old(sys.NoFreeSlot(table[index])) && !old(sys.PageReady()))
    {
      hide Pow2, ListsOk, SlabsOk, CountsOk, IsSlot, RoundDown, BestCache, Enough;
      mine, p, panicked := held, None, false;
      NullIsFree();
      if Enough(sys.supply, sys.held, n) {
        EnoughStep(sys.supply, sys.held, n);
      }
      match op
      case Malloc(size) =>
        var q;
        ghost var index;
        q, index := Kmalloc(size);
        if 1 <= size <= 2048 {
          InRange(size, index);
        }
        if q != 0 {
          BigEnough(size, index);
          p := Some(q);
          mine := mine[q := size];
        }
      case Free(q) =>
        if q in held {
          panicked := Kfree(q);
        } else {
          assert held - {q} == held;
        }
        mine := held - {q};
    }
  }

  /** The next `n` answers of the page allocator are pages. */
  predicate Enough(supply: seq<int>, held: set<int>, n: nat) {
    n == 0 || (supply != [] && supply[0] > 0 && supply[0] % PAGE == 0 && supply[0] !in held
               && Enough(supply[1..], held + {supply[0]}, n - 1))
  }

  /** Requests for 0 or more than 2048 bytes get NULL. */
  ghost predicate Declined(ops: seq<Op>, trace: seq<Option<int>>) {
    forall i :: 0 <= i < |trace| <= |ops| && ops[i].Malloc? && (ops[i].size == 0 || ops[i].size > 2048) ==>
      trace[i].None?
  }

  /** All others get a block. */
  ghost predicate Granted(ops: seq<Op>, trace: seq<Option<int>>) {
    forall i :: 0 <= i < |trace| <= |ops| && ops[i].Malloc? && 1 <= ops[i].size <= 2048 ==> trace[i].Some?
  }

  lemma AnswersNext(ops: seq<Op>, trace: seq<Option<int>>, p: Option<int>)
    requires |trace| < |ops|
    ensures var op := ops[|trace|];
            && (Declined(ops, trace) && (op.Malloc? && (op.size == 0 || op.size > 2048) ==> p.None?) ==>
                  Declined(ops, trace + [p]))
            && (Granted(ops, trace) && (op.Malloc? && 1 <= op.size <= 2048 ==> p.Some?) ==>
                  Granted(ops, trace + [p]))
  {
  }

  lemma NoRequests(held: map<int, nat>, ops: seq<Op>)
    ensures ops[..0] == [] && Replay(held, ops[..0], []) == held && Declined(ops, []) && Granted(ops, [])
  {
  }

  lemma {:induction false} EnoughStep(supply: seq<int>, held: set<int>, n: nat)
    requires n > 0 && Enough(supply, held, n)
    ensures supply != [] && supply[0] > 0 && supply[0] % PAGE == 0 && supply[0] !in held
    ensures Enough(supply[1..], held + {supply[0]}, n - 1) && Enough(supply, held, n - 1)
    decreases n
  {
    if n > 1 {
      EnoughStep(supply[1..], held + {supply[0]}, n - 1);
    }
  }

  /** The objects of the best cache are less than twice as long as asked for, if longer than 32 bytes. */
  lemma BestSize(size: int, index: int)
    requires BestCache(size, index)
    ensures var bytes := Pow2(index + 5); size <= bytes && 32 <= bytes && (bytes == 32 || bytes < 2 * size)
  {
    Pow2Values();
    hide Pow2;
    Pow2Monotone(5, index + 5);
    if index > 0 {
      PowerStep(index + 4);
    }
  }

  lemma BigEnough(size: int, index: int)
    requires BestCache(size, index)
    ensures size <= Pow2(index + 5)
  {
  }

  lemma CacheFits(i: nat)
    requires i < CACHES
    ensures LINK_WORD <= Pow2(i + MIN_LOG2) <= SPACE
  {
    Pow2Values();
    hide Pow2;
    Pow2Monotone(MIN_LOG2, i + MIN_LOG2);
    Pow2Monotone(i + MIN_LOG2, MAX_LOG2);
  }
}
