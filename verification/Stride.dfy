/**
 The stride scheduler of lab6/kern/schedule/default_sched_stride.c on the skew heap: 32-bit strides
 compared through a signed difference. The true, unbounded stride of a process is its `pass`; the
 stored stride is its pass modulo 2^32.
 */
module Stride {
  import opened SkewTree
  import SkewHeap
  import Powers

  const MOD := 0x1_0000_0000
  const BIG_STRIDE := 0x7FFF_FFFF

  function AsInt32(u: int): int
    requires 0 <= u < MOD
  {
    if u < 0x8000_0000 then u else u - MOD
  }

  /** proc_stride_comp_f on two stored strides. */
  function StrideComp(p: int, q: int): int {
    var c := AsInt32((p - q) % MOD);
    if c > 0 then 1 else if c == 0 then 0 else -1
  }

  function Sign(d: int): int {
    if d > 0 then 1 else if d == 0 then 0 else -1
  }

  ghost predicate Agrees(x: int, y: int) {
    StrideComp(x % MOD, y % MOD) == Sign(x - y)
  }

  lemma WrappedDifference(x: int, y: int)
    ensures (x % MOD - y % MOD) % MOD == (x - y) % MOD
  {
    var a, b := x / MOD, y / MOD;
    assert x == MOD * a + x % MOD && y == MOD * b + y % MOD;
  }

  /** Within half the number circle the wrapped comparison is the true one. */
  lemma CompIsOrder(x: int, y: int)
    requires -BIG_STRIDE <= x - y <= BIG_STRIDE
    ensures Agrees(x, y)
  {
    WrappedDifference(x, y);
  }

  /** BIG_STRIDE is the largest spread for which that holds. */
  lemma WindowTight(b: int)
    ensures (forall x, y :: -b <= x - y <= b ==> Agrees(x, y)) <==> b <= BIG_STRIDE
  {
    if b <= BIG_STRIDE {
      forall x, y | -b <= x - y <= b ensures Agrees(x, y) {
        CompIsOrder(x, y);
      }
    } else {
      assert !Agrees(0x8000_0000, 0);
    }
  }

  /** A process created with stride 0 while another has been picked twice is ordered wrongly. */
  lemma NewcomerMisordered()
    ensures StrideComp(0, (2 * BIG_STRIDE) % MOD) == 1
  {
  }

  /** How far a pick moves a process of the given priority. */
  function Increment(priority: int): (d: int)
    requires priority > 0
    ensures 0 <= d <= BIG_STRIDE
    ensures d * priority <= BIG_STRIDE < (d + 1) * priority
  {
    Quotient(BIG_STRIDE, priority);
    AtMostWhole(BIG_STRIDE / priority, priority);
    BIG_STRIDE / priority
  }

  lemma Quotient(b: int, p: int)
    requires p >= 1
    ensures b / p * p <= b < (b / p + 1) * p
  {
    assert b == p * (b / p) + b % p;
  }

  lemma AtMostWhole(q: int, p: int)
    requires p >= 1
    ensures q >= 0 ==> q * p >= q
  {
  }

  type Table = map<int, int>

  /** A priority of 0 counts as 1, and is made 1 when its process is picked. */
  function Counted(priority: int): int {
    if priority == 0 then 1 else priority
  }

  /** How far each pick moves process `x`. */
  function Weight(priority: Table, x: int): int
    requires x in priority && priority[x] >= 0
  {
    Increment(Counted(priority[x]))
  }

  ghost predicate SameWeights(a: Table, b: Table) {
    a.Keys == b.Keys && forall x :: x in a ==> Counted(b[x]) == Counted(a[x])
  }

  /** How often `x` was picked. */
  function Count(trace: seq<int>, x: int): (n: nat) {
    if trace == [] then 0 else Count(trace[..|trace| - 1], x) + if trace[|trace| - 1] == x then 1 else 0
  }

  lemma CountNext(trace: seq<int>, next: int, x: int)
    ensures Count(trace + [next], x) == Count(trace, x) + if next == x then 1 else 0
  {
    assert (trace + [next])[..|trace|] == trace;
  }

  /** Every pick of a process moved its pass by its weight. */
  ghost predicate Paid(start: Table, pass: Table, priority: Table, trace: seq<int>) {
    && pass.Keys == start.Keys == priority.Keys
    && (forall x :: x in priority ==> priority[x] >= 0)
    && forall x :: x in start ==> pass[x] == start[x] + Count(trace, x) * Weight(priority, x)
  }

  lemma PaidNext(start: Table, pass: Table, first: Table, priority: Table, trace: seq<int>, next: int)
    requires Paid(start, pass, first, trace) && SameWeights(first, priority) && next in pass
    requires forall x :: x in priority ==> priority[x] >= 0
    ensures Paid(start, pass[next := pass[next] + Weight(priority, next)], first, trace + [next])
  {
    hide Increment;
    forall x | x in start
      ensures Count(trace + [next], x) * Weight(first, x)
           == Count(trace, x) * Weight(first, x) + if x == next then Weight(first, x) else 0
    {
      CountNext(trace, next, x);
      OneMore(Count(trace, x), Weight(first, x));
    }
  }

  lemma PaidIdle(start: Table, pass: Table, first: Table, trace: seq<int>)
    requires Paid(start, pass, first, trace) && 0 !in start
    ensures Paid(start, pass, first, trace + [0])
  {
    forall x | x in start ensures Count(trace + [0], x) == Count(trace, x) {
      CountNext(trace, 0, x);
    }
  }

  /** Processes that start level and stay runnable have weighted shares that differ by at most BIG_STRIDE. */
  lemma FairShares(start: Table, pass: Table, priority: Table, trace: seq<int>, s: set<int>, x: int, y: int)
    requires Paid(start, pass, priority, trace) && Spread(pass, s) && x in s && y in s && start[x] == start[y]
    ensures Count(trace, x) * Weight(priority, x) - Count(trace, y) * Weight(priority, y) <= BIG_STRIDE
    ensures InProportion(Count(trace, x), if priority[x] == 0 then 1 else priority[x],
                         Count(trace, y), if priority[y] == 0 then 1 else priority[y])
  {
    ShareBound(Count(trace, x), Weight(priority, x), Counted(priority[x]),
               Count(trace, y), Weight(priority, y), Counted(priority[y]));
  }

  /** Picks `cx` and `cy` in proportion to the priorities `px` and `py`, but for rounding and one round of the others:
      in the limit, and for priorities small against BIG_STRIDE, `cx / cy <= px / py`. */
  ghost predicate InProportion(cx: int, px: int, cy: int, py: int) {
    cx * py * (BIG_STRIDE + 1 - px) <= BIG_STRIDE * px * (cy + py)
  }

  /** Weighted shares within BIG_STRIDE of each other, in terms of the priorities. */
  lemma ShareBound(cx: nat, wx: int, px: int, cy: nat, wy: int, py: int)
    requires cx * wx - cy * wy <= BIG_STRIDE && px > 0 && py > 0
    requires BIG_STRIDE < (wx + 1) * px && wy * py <= BIG_STRIDE
    ensures InProportion(cx, px, cy, py)
  {
    var b := BIG_STRIDE;
    var k := px * py;
    calc <= {
      cx * py * (b + 1 - px);
      { Below(cx * py, b + 1 - px, wx * px); }
      cx * py * (wx * px);
      == { Regroup(cx, py, wx, px); }
      k * (cx * wx);
      { Powers.Scale(k, cx * wx, b + cy * wy); }
      k * (b + cy * wy);
      == { Spread3(px, py, b, cy, wy); }
      b * px * py + px * cy * (wy * py);
      { Powers.Scale(px * cy, wy * py, b); }
      b * px * py + px * cy * b;
      == { Gather(px, py, b, cy); }
      b * px * (cy + py);
    }
  }

  lemma Below(k: int, a: int, b: int)
    requires k >= 0 && a <= b
    ensures k * a <= k * b
  {
    Powers.Scale(k, a, b);
  }

  lemma Regroup(cx: int, py: int, wx: int, px: int)
    ensures cx * py * (wx * px) == px * py * (cx * wx)
  {
  }

  lemma Spread3(px: int, py: int, b: int, cy: int, wy: int)
    ensures px * py * (b + cy * wy) == b * px * py + px * cy * (wy * py)
  {
  }

  lemma Gather(px: int, py: int, b: int, cy: int)
    ensures b * px * py + px * cy * b == b * px * (cy + py)
  {
  }

  function CompOf(stride: Table): Comp {
    (x, y) => if x in stride && y in stride then StrideComp(stride[x], stride[y]) else 0
  }

  ghost predicate Wrapped(stride: Table, pass: Table) {
    stride.Keys == pass.Keys && forall x :: x in pass ==> stride[x] == pass[x] % MOD
  }

  /** No two processes of `s` are more than BIG_STRIDE apart. */
  ghost predicate Spread(pass: Table, s: set<int>) {
    s <= pass.Keys && forall x, y :: x in s && y in s ==> pass[x] - pass[y] <= BIG_STRIDE
  }

  lemma CompOfPass(stride: Table, pass: Table, s: set<int>, x: int, y: int)
    requires Wrapped(stride, pass) && Spread(pass, s) && x in s && y in s
    ensures Leq(CompOf(stride), x, y) <==> pass[x] <= pass[y]
  {
    CompIsOrder(pass[y], pass[x]);
  }

  lemma CompBelow(stride: Table, pass: Table, s: set<int>, x: int, y: int)
    requires Wrapped(stride, pass) && Spread(pass, s) && x in s && y in s
    ensures CompOf(stride)(x, y) == -1 <==> pass[x] < pass[y]
  {
    CompIsOrder(pass[x], pass[y]);
  }

  /** So the comparison the scheduler gives the skew heap is a total preorder on its queue. */
  lemma CompTotal(stride: Table, pass: Table, s: set<int>)
    requires Wrapped(stride, pass) && Spread(pass, s)
    ensures TotalPreorder(CompOf(stride), s)
  {
    hide Wrapped, Spread, Leq, CompOf;
    var comp := CompOf(stride);
    forall x, y | x in s && y in s ensures Leq(comp, x, y) || Leq(comp, y, x) {
      CompOfPass(stride, pass, s, x, y);
      CompOfPass(stride, pass, s, y, x);
    }
    forall x, y, z | x in s && y in s && z in s && Leq(comp, x, y) && Leq(comp, y, z) ensures Leq(comp, x, z) {
      CompOfPass(stride, pass, s, x, y);
      CompOfPass(stride, pass, s, y, z);
      CompOfPass(stride, pass, s, x, z);
    }
  }

  /** Heap order only depends on the comparison of the nodes of the tree. */
  lemma {:induction false} OrderedAgree(c: Comp, d: Comp, t: Tree)
    requires HeapOrdered(c, t) && forall x, y :: x in Ids(t) && y in Ids(t) ==> c(x, y) == d(x, y)
    ensures HeapOrdered(d, t)
  {
    if t.Node? {
      SkewHeap.RootIn(t.left);
      SkewHeap.RootIn(t.right);
      OrderedAgree(c, d, t.left);
      OrderedAgree(c, d, t.right);
    }
  }

  lemma PickedSpread(pass: Table, s: set<int>, p: int, d: int)
    requires Spread(pass, s) && p in s && 0 <= d <= BIG_STRIDE
    requires forall y :: y in s ==> pass[p] <= pass[y]
    ensures Spread(pass[p := pass[p] + d], s)
  {
  }

  lemma MinimumPass(stride: Table, pass: Table, t: Tree)
    requires Wrapped(stride, pass) && Spread(pass, Ids(t)) && HeapOrdered(CompOf(stride), t) && t.Node?
    ensures t.id in Ids(t) && forall y :: y in Ids(t) ==> pass[t.id] <= pass[y]
  {
    hide Wrapped, Spread, HeapOrdered, CompOf, Leq, Ids;
    SkewHeap.RootIn(t);
    CompTotal(stride, pass, Ids(t));
    SpreadKeys(pass, Ids(t));
    forall y | y in Ids(t) ensures pass[t.id] <= pass[y] {
      RootMinimal(CompOf(stride), t, y);
      CompOfPass(stride, pass, Ids(t), t.id, y);
    }
  }

  lemma SpreadKeys(pass: Table, s: set<int>)
    requires Spread(pass, s)
    ensures s <= pass.Keys
  {
  }

  lemma SpreadSubset(pass: Table, s: set<int>, r: set<int>)
    requires Spread(pass, s) && r <= s
    ensures Spread(pass, r)
  {
  }

  lemma WrappedAdd(stride: Table, pass: Table, p: int, d: int)
    requires Wrapped(stride, pass) && p in pass
    ensures p in stride && Wrapped(stride[p := (stride[p] + d) % MOD], pass[p := pass[p] + d])
  {
    var a := pass[p] / MOD;
    assert pass[p] + d == MOD * a + (pass[p] % MOD + d);
  }

  /** Raising the root's stride leaves both its subtrees in order, so removing it is sound. */
  lemma RemoveRaisedRoot(stride: Table, pass: Table, t: Tree, u: int)
    requires Wrapped(stride, pass) && Spread(pass, Ids(t)) && t.Node? && Distinct(t) && HeapOrdered(CompOf(stride), t)
    ensures var comp := CompOf(stride[t.id := u]);
            HeapOrdered(comp, Remove(comp, t, t.id)) && Remove(comp, t, t.id) == Merge(comp, t.left, t.right)
  {
    var comp := CompOf(stride[t.id := u]);
    OrderedAgree(CompOf(stride), comp, t.left);
    OrderedAgree(CompOf(stride), comp, t.right);
    CompTotal(stride, pass, Ids(t));
    TotalAgree(CompOf(stride), comp, Ids(t), Ids(t.left) + Ids(t.right));
    MergeOrdered(comp, t.left, t.right);
  }

  lemma TotalAgree(c: Comp, d: Comp, s: set<int>, r: set<int>)
    requires TotalPreorder(c, s) && r <= s && forall x, y :: x in r && y in r ==> c(x, y) == d(x, y)
    ensures TotalPreorder(d, r)
  {
    assert forall x, y :: x in r && y in r ==> Leq(c, x, y) == Leq(d, x, y);
  }

  lemma OneNode(x: int)
    ensures Ids(Node(Leaf, x, Leaf)) == {x} && Size(Node(Leaf, x, Leaf)) == 1
  {
  }

  class RunQueue {
    const heap: SkewHeap.SkewHeap
    var pool: int
    var procNum: nat
    var stride: Table
    var priority: Table
    ghost var pass: Table
    ghost var tree: Tree

    /** The pool is a heap of the queued processes, no two of them more than BIG_STRIDE apart. */
    ghost predicate Valid()
      reads this, heap
    {
      && SkewHeap.IsHeap(heap.mem, pool, tree)
      && procNum == Size(tree)
      && pass.Keys == priority.Keys && 0 !in pass
      && (forall x :: x in priority ==> 0 <= priority[x] < MOD)
      && Wrapped(stride, pass)
      && Spread(pass, Ids(tree))
      && HeapOrdered(CompOf(stride), tree)
    }

    constructor (priority: Table)
      requires 0 !in priority && forall x :: x in priority ==> 0 <= priority[x] < MOD
      ensures Valid() && fresh(heap) && tree == Leaf && this.priority == priority
      ensures pass.Keys == priority.Keys && forall x :: x in pass ==> pass[x] == 0
    {
      heap := new SkewHeap.SkewHeap();
      pool, procNum := 0, 0;
      stride := map x | x in priority :: 0;
      this.priority := priority;
      pass, tree := map x | x in priority :: 0, Leaf;
    }

    /** stride_enqueue: the process joins the heap; the heap's order is kept if no process is more than BIG_STRIDE
        from another. */
    method Enqueue(proc: int)
      requires Valid() && proc in pass && proc !in Ids(tree)
      modifies heap, this`pool, this`procNum, this`tree
      ensures SkewHeap.IsHeap(heap.mem, pool, tree) && procNum == Size(tree) && Ids(tree) == old(Ids(tree)) + {proc}
      ensures Spread(pass, Ids(tree)) ==> Valid()
      ensures Spread(pass, Ids(tree)) ==> old(pool) == 0 || old(pool) in pass
      ensures Spread(pass, Ids(tree)) ==>
                pool == if old(pool) != 0 && pass[old(pool)] < pass[proc] then old(pool) else proc
    {
      hide Wrapped, Spread, SkewHeap.IsHeap, HeapOrdered, CompOf, Distinct, Merge, Ids, Size, Steps,
        SkewHeap.SameOutside;
      ghost var one := Node(Leaf, proc, Leaf);
      OneNode(proc);
      SkewHeap.IsHeapRoot(heap.mem, pool, tree);
      SkewHeap.RootIn(tree);
      if Spread(pass, Ids(tree) + {proc}) {
        if pool != 0 {
          SpreadKeys(pass, Ids(tree));
          CompBelow(stride, pass, Ids(tree) + {proc}, pool, proc);
        }
        CompTotal(stride, pass, Ids(tree) + {proc});
        SkewHeap.PutOrdered(CompOf(stride), tree, proc, Ids(tree) + {proc});
      }
      pool := heap.Insert(pool, proc, CompOf(stride), tree);
      tree := Merge(CompOf(stride), tree, one);
      procNum := procNum + 1;
    }

    /** The queue is valid except that `proc`, about to leave it, may be out of order. */
    ghost predicate Leaving(proc: int)
      reads this, heap
    {
      && SkewHeap.IsHeap(heap.mem, pool, tree)
      && procNum == Size(tree)
      && pass.Keys == priority.Keys && 0 !in pass
      && (forall x :: x in priority ==> 0 <= priority[x] < MOD)
      && Wrapped(stride, pass)
      && Spread(pass, Ids(tree))
      && proc in Ids(tree) && HeapOrdered(CompOf(stride), Remove(CompOf(stride), tree, proc))
    }

    /** stride_pick_next: the root, whose stride is raised while it is still in the heap. */
    method PickNext() returns (next: int)
      requires Valid()
      modifies this`priority, this`stride, this`pass
      ensures pass.Keys == old(pass.Keys)
      ensures next == pool && (next == 0 <==> Ids(tree) == {})
      ensures next == 0 ==> Valid() && pass == old(pass)
      ensures next != 0 ==>
                && Leaving(next)
                && next in old(pass) && Ids(tree) <= old(pass).Keys && next in old(priority) && old(priority)[next] >= 0
                && priority == old(priority)[next := Counted(old(priority)[next])]
                && (forall y :: y in Ids(tree) ==> old(pass)[next] <= old(pass)[y])
                && pass == old(pass)[next := old(pass)[next] + Weight(old(priority), next)]
      ensures next != 0 ==>
                && priority[next] == (if old(priority)[next] == 0 then 1 else old(priority)[next])
                && (pass[next] - old(pass)[next]) * priority[next] <= BIG_STRIDE
                   < (pass[next] - old(pass)[next] + 1) * priority[next]
      ensures next == 0 ==> priority == old(priority)
    {
      hide Wrapped, Spread, SkewHeap.IsHeap, HeapOrdered, CompOf, Distinct, Merge, Ids, Size, Remove;
      hide Increment;
      SkewHeap.RootIn(tree);
      SkewHeap.IsHeapRoot(heap.mem, pool, tree);
      if pool == 0 {
        return 0;
      }
      next := pool;
      SpreadKeys(pass, Ids(tree));
      MinimumPass(stride, pass, tree);
      if priority[next] == 0 {
        priority := priority[next := 1];
      }
      var step := Increment(priority[next]);
      WrappedAdd(stride, pass, next, step);
      PickedSpread(pass, Ids(tree), next, step);
      RemoveRaisedRoot(stride, pass, tree, (stride[next] + step) % MOD);
      stride := stride[next := (stride[next] + step) % MOD];
      pass := pass[next := pass[next] + step];
    }

    /** stride_dequeue. */
    method Dequeue(proc: int)
      requires Leaving(proc)
      modifies heap, this`pool, this`procNum, this`tree
      ensures Valid() && Ids(tree) == old(Ids(tree)) - {proc}
    {
      hide Wrapped, Spread, SkewHeap.IsHeap, HeapOrdered, CompOf, Distinct, Merge, Ids, Size, Steps, Remove,
        SkewHeap.SameOutside, SkewHeap.Sub;
      SkewHeap.HeapDistinct(heap.mem, pool, tree);
      RemoveIds(CompOf(stride), tree, proc);
      SpreadSubset(pass, Ids(tree), Ids(tree) - {proc});
      pool := heap.Remove(pool, proc, CompOf(stride), tree);
      tree := Remove(CompOf(stride), tree, proc);
      procNum := procNum - 1;
    }

    /** A valid queue is ready for any of its processes to leave. */
    lemma AnyMayLeave(proc: int)
      requires Valid() && proc in Ids(tree)
      ensures Leaving(proc)
    {
      hide Wrapped, Spread, SkewHeap.IsHeap, HeapOrdered, CompOf, Ids, Remove;
      CompTotal(stride, pass, Ids(tree));
      RemoveOrdered(CompOf(stride), tree, proc, Ids(tree));
    }

    /** stride_dequeue of any queued process. */
    method Leave(proc: int)
      requires Valid() && proc in Ids(tree)
      modifies heap, this`pool, this`procNum, this`tree
      ensures Valid() && Ids(tree) == old(Ids(tree)) - {proc}
    {
      AnyMayLeave(proc);
      Dequeue(proc);
    }

    /** schedule() for a runnable (or idle, 0) current process: the next process has a least pass. */
    method Schedule(current: int) returns (next: int)
      requires Valid()
      requires current != 0 ==> current in pass && current !in Ids(tree) && Spread(pass, Ids(tree) + {current})
      modifies heap, this
      ensures Valid() && pass.Keys == old(pass.Keys) && SameWeights(old(priority), priority)
      ensures var all := if current == 0 then old(Ids(tree)) else old(Ids(tree)) + {current};
              && all <= old(pass).Keys
              && (next == 0 <==> all == {})
              && (next == 0 ==> pass == old(pass) && Ids(tree) == all)
              && (next != 0 ==>
                    && next in all && Ids(tree) == all - {next} && Spread(pass, all)
                    && (forall y :: y in all ==> old(pass)[next] <= old(pass)[y])
                    && next in old(priority) && old(priority)[next] >= 0
                    && pass == old(pass)[next := old(pass)[next] + Weight(old(priority), next)])
    {
      hide Wrapped, Spread, SkewHeap.IsHeap, HeapOrdered, CompOf, Distinct, Merge, Ids;
      SpreadKeys(pass, Ids(tree));
      if current != 0 {
        SpreadKeys(pass, Ids(tree) + {current});
        Enqueue(current);
      }
      next := PickNext();
      if next != 0 {
        Dequeue(next);
      }
    }

    /** Schedule once for each element of `stays`, which says whether the current process is still runnable
        then; one that is not leaves for good. No two runnable processes are ever more than BIG_STRIDE apart, which
        is what the comparison needs, and every pick moves a process by its weight. */
    method Run(stays: seq<bool>) returns (current: int, ghost trace: seq<int>)
      requires Valid()
      modifies heap, this
      ensures Valid() && |trace| == |stays| && Runnable(current) <= old(Ids(tree)) && Spread(pass, Runnable(current))
      ensures Paid(old(pass), pass, old(priority), trace)
      ensures forall x :: x in trace && x != 0 ==> x in old(Ids(tree))
      ensures (forall i :: 0 <= i < |stays| ==> stays[i]) ==> Runnable(current) == old(Ids(tree))
                                                              && (0 in trace ==> old(Ids(tree)) == {})
      ensures forall x, y :: x in Runnable(current) && y in Runnable(current) && old(pass)[x] == old(pass)[y] ==>
                Count(trace, x) * Weight(old(priority), x) - Count(trace, y) * Weight(old(priority), y) <= BIG_STRIDE
      ensures forall x, y :: x in Runnable(current) && y in Runnable(current) && old(pass)[x] == old(pass)[y] ==>
                InProportion(Count(trace, x), if old(priority)[x] == 0 then 1 else old(priority)[x],
                             Count(trace, y), if old(priority)[y] == 0 then 1 else old(priority)[y])
    {
      hide Wrapped, Spread, SkewHeap.IsHeap, HeapOrdered, CompOf, Distinct, Merge, Ids, Paid, SameWeights, Weight,
           Count;
      Idle();
      current, trace := 0, [];
      ghost var start, first, all := pass, priority, Ids(tree);
      PaidStart(start, first);
      for i := 0 to |stays|
        invariant Resting(current) && |trace| == i && Runnable(current) <= all
        invariant Paid(start, pass, first, trace) && SameWeights(first, priority)
        invariant forall x :: x in trace && x != 0 ==> x in all
        invariant (forall j :: 0 <= j < i ==> stays[j]) ==> Runnable(current) == all && (0 in trace ==> all == {})
      {
        ghost var was, weights := pass, priority;
        current := Round(current, stays[i]);
        if current != 0 {
          PaidNext(start, was, first, weights, trace, current);
        } else {
          PaidIdle(start, was, first, trace);
        }
        SameWeightsTwice(first, weights, priority);
        trace := trace + [current];
      }
      PaidKeys(start, pass, first, trace);
      SpreadKeys(pass, Runnable(current));
      forall x, y | x in Runnable(current) && y in Runnable(current) && start[x] == start[y]
        ensures Count(trace, x) * Weight(first, x) - Count(trace, y) * Weight(first, y) <= BIG_STRIDE
        ensures InProportion(Count(trace, x), if first[x] == 0 then 1 else first[x],
                             Count(trace, y), if first[y] == 0 then 1 else first[y])
      {
        FairShares(start, pass, first, trace, Runnable(current), x, y);
      }
    }

    /** The state between rounds. */
    ghost predicate Resting(current: int)
      reads this, heap
    {
      Valid() && Spread(pass, Runnable(current)) && (current != 0 ==> current in pass && current !in Ids(tree))
    }

    lemma Idle()
      requires Valid()
      ensures Resting(0)
    {
    }

    /** One round: the current process is queued again if it stays, and the next one is chosen. */
    method Round(current: int, stay: bool) returns (next: int)
      requires Resting(current)
      modifies heap, this
      ensures Resting(next) && pass.Keys == old(pass.Keys) && SameWeights(old(priority), priority)
      ensures Runnable(next) == if stay then old(Runnable(current)) else old(Ids(tree))
      ensures next == 0 <==> Runnable(next) == {}
      ensures next == 0 ==> pass == old(pass)
      ensures next != 0 ==>
                && next in old(pass) && next in old(priority) && old(priority)[next] >= 0
                && pass == old(pass)[next := old(pass)[next] + Weight(old(priority), next)]
    {
      hide Wrapped, Spread, SkewHeap.IsHeap, HeapOrdered, CompOf, Distinct, Merge, Ids, SameWeights, Weight;
      ghost var all := Runnable(if stay then current else 0);
      SpreadKeys(pass, Runnable(current));
      next := Schedule(if stay then current else 0);
      if next != 0 {
        assert Runnable(next) == all;
      } else {
        Idle();
      }
    }

    /** The queued processes and the current one. */
    ghost function Runnable(current: int): set<int>
      reads this
    {
      if current == 0 then Ids(tree) else Ids(tree) + {current}
    }
  }

  lemma PaidStart(start: Table, priority: Table)
    requires start.Keys == priority.Keys && forall x :: x in priority ==> priority[x] >= 0
    ensures Paid(start, start, priority, []) && SameWeights(priority, priority)
  {
  }

  lemma PaidKeys(start: Table, pass: Table, priority: Table, trace: seq<int>)
    requires Paid(start, pass, priority, trace)
    ensures pass.Keys == start.Keys == priority.Keys && forall x :: x in priority ==> priority[x] >= 0
  {
  }

  lemma SameWeightsTwice(a: Table, b: Table, c: Table)
    requires SameWeights(a, b) && SameWeights(b, c)
    ensures SameWeights(a, c)
  {
  }
}
