/**
 The skew heap of lab6/libs/skew_heap.h as a value: merging, removal of an arbitrary node, heap order
 and the amortised cost of merging. The pointer version in SkewHeap.dfy is proved to compute these.
 */
module SkewTree {

  datatype Tree = Leaf | Node(left: Tree, id: int, right: Tree)

  type Comp = (int, int) -> int

  ghost function Ids(t: Tree): set<int> {
    match t
    case Leaf => {}
    case Node(l, x, r) => Ids(l) + {x} + Ids(r)
  }

  function Size(t: Tree): (n: nat) {
    match t
    case Leaf => 0
    case Node(l, x, r) => Size(l) + 1 + Size(r)
  }

  /** Every node occurs once. */
  ghost predicate Distinct(t: Tree) {
    match t
    case Leaf => true
    case Node(l, x, r) =>
      && Distinct(l) && Distinct(r)
      && x !in Ids(l) && x !in Ids(r) && Ids(l) !! Ids(r)
  }

  /** skew_heap_merge: the winner's old left child moves to the right, the merge of its right child
      with the loser becomes its left child. */
  function Merge(comp: Comp, a: Tree, b: Tree): (t: Tree)
    ensures Ids(t) == Ids(a) + Ids(b)
    ensures Size(t) == Size(a) + Size(b)
    decreases Size(a) + Size(b)
  {
    if a.Leaf? then b
    else if b.Leaf? then a
    else if comp(a.id, b.id) == -1 then Node(Merge(comp, a.right, b), a.id, a.left)
    else Node(Merge(comp, a, b.right), b.id, b.left)
  }

  lemma {:induction false} MergeDistinct(comp: Comp, a: Tree, b: Tree)
    requires Distinct(a) && Distinct(b) && Ids(a) !! Ids(b)
    ensures Distinct(Merge(comp, a, b))
    decreases Size(a) + Size(b)
  {
    if a.Node? && b.Node? {
      if comp(a.id, b.id) == -1 {
        MergeDistinct(comp, a.right, b);
      } else {
        MergeDistinct(comp, a, b.right);
      }
    }
  }

  // ---------- heap order ----------

  /** "x is not above y": the comparison does not put y strictly first. */
  predicate Leq(comp: Comp, x: int, y: int) {
    comp(y, x) != -1
  }

  /** The comparison is a total preorder on `s` that answers -1 exactly for "strictly less". */
  ghost predicate TotalPreorder(comp: Comp, s: set<int>) {
    && (forall x, y :: x in s && y in s ==> Leq(comp, x, y) || Leq(comp, y, x))
    && (forall x, y, z :: x in s && y in s && z in s && Leq(comp, x, y) && Leq(comp, y, z) ==> Leq(comp, x, z))
  }

  ghost predicate Above(comp: Comp, x: int, t: Tree) {
    t.Node? ==> Leq(comp, x, t.id)
  }

  ghost predicate HeapOrdered(comp: Comp, t: Tree) {
    match t
    case Leaf => true
    case Node(l, x, r) => Above(comp, x, l) && Above(comp, x, r) && HeapOrdered(comp, l) && HeapOrdered(comp, r)
  }

  lemma {:induction false} MergeOrdered(comp: Comp, a: Tree, b: Tree)
    requires HeapOrdered(comp, a) && HeapOrdered(comp, b)
    requires TotalPreorder(comp, Ids(a) + Ids(b))
    ensures HeapOrdered(comp, Merge(comp, a, b))
    ensures forall x :: Above(comp, x, a) && Above(comp, x, b) ==> Above(comp, x, Merge(comp, a, b))
    decreases Size(a) + Size(b)
  {
    if a.Node? && b.Node? {
      assert a.id in Ids(a) + Ids(b) && b.id in Ids(a) + Ids(b);
      if comp(a.id, b.id) == -1 {
        MergeOrdered(comp, a.right, b);
        assert Above(comp, a.id, b);
      } else {
        MergeOrdered(comp, a, b.right);
        assert Above(comp, b.id, a);
      }
    }
  }

  /** The root of a heap-ordered tree is a minimum of the whole tree. */
  lemma {:induction false} RootMinimal(comp: Comp, t: Tree, y: int)
    requires t.Node? && HeapOrdered(comp, t) && TotalPreorder(comp, Ids(t)) && y in Ids(t)
    ensures Leq(comp, t.id, y)
  {
    if y == t.id {
      assert Leq(comp, y, y) || Leq(comp, y, y);
    } else if y in Ids(t.left) {
      RootMinimal(comp, t.left, y);
      assert t.left.id in Ids(t.left);
      assert Leq(comp, t.id, t.left.id) && Leq(comp, t.left.id, y);
    } else {
      RootMinimal(comp, t.right, y);
      assert t.right.id in Ids(t.right);
      assert Leq(comp, t.id, t.right.id) && Leq(comp, t.right.id, y);
    }
  }

  // ---------- removal of any node ----------

  /** skew_heap_remove: the subtree at `b` is replaced by the merge of its children. */
  ghost function Remove(comp: Comp, t: Tree, b: int): (r: Tree) {
    match t
    case Leaf => Leaf
    case Node(l, x, q) =>
      if x == b then Merge(comp, l, q)
      else if b in Ids(l) then Node(Remove(comp, l, b), x, q)
      else Node(l, x, Remove(comp, q, b))
  }

  lemma {:induction false} RemoveIds(comp: Comp, t: Tree, b: int)
    requires Distinct(t)
    ensures Ids(Remove(comp, t, b)) == Ids(t) - {b} && Distinct(Remove(comp, t, b))
    ensures b in Ids(t) ==> Size(Remove(comp, t, b)) == Size(t) - 1
  {
    if t.Node? {
      if t.id == b {
        MergeDistinct(comp, t.left, t.right);
      } else if b in Ids(t.left) {
        RemoveIds(comp, t.left, b);
      } else {
        RemoveIds(comp, t.right, b);
      }
    }
  }

  /** Removal keeps heap order, and what replaces a removed child is still not above its parent. */
  lemma {:induction false} RemoveOrdered(comp: Comp, t: Tree, b: int, s: set<int>)
    requires HeapOrdered(comp, t) && Ids(t) <= s && TotalPreorder(comp, s)
    ensures HeapOrdered(comp, Remove(comp, t, b))
    ensures forall x :: x in s && Above(comp, x, t) ==> Above(comp, x, Remove(comp, t, b))
  {
    if t.Node? {
      assert t.id in Ids(t);
      if t.id == b {
        MergeOrdered(comp, t.left, t.right);
        forall x | x in s && Above(comp, x, t) ensures Above(comp, x, t.left) && Above(comp, x, t.right) {
          assert t.left.Node? ==> t.left.id in Ids(t.left);
          assert t.right.Node? ==> t.right.id in Ids(t.right);
        }
      } else {
        RemoveOrdered(comp, t.left, b, s);
        RemoveOrdered(comp, t.right, b, s);
      }
    }
  }

  // ---------- amortised cost ----------

  /** Recursive steps of a merge that compare two nodes. */
  ghost function Steps(comp: Comp, a: Tree, b: Tree): (n: nat)
    decreases Size(a) + Size(b)
  {
    if a.Leaf? || b.Leaf? then 0
    else if comp(a.id, b.id) == -1 then 1 + Steps(comp, a.right, b)
    else 1 + Steps(comp, a, b.right)
  }

  /** The potential: nodes whose right subtree is larger than their left one. */
  ghost function Phi(t: Tree): (n: nat) {
    match t
    case Leaf => 0
    case Node(l, x, r) => Phi(l) + Phi(r) + Heavy(t)
  }

  ghost function Heavy(t: Tree): (n: nat)
    requires t.Node?
  {
    if Size(t.right) > Size(t.left) then 1 else 0
  }

  /** Floor of the base-2 logarithm. */
  ghost function Log(n: nat): (k: nat)
    requires n >= 1
  {
    if n == 1 then 0 else 1 + Log(n / 2)
  }

  lemma {:induction false} LogMonotone(m: nat, n: nat)
    requires 1 <= m <= n
    ensures Log(m) <= Log(n)
    decreases n
  {
    if m > 1 {
      LogMonotone(m / 2, n / 2);
    }
  }

  lemma LogTwo()
    ensures Log(2) == 1
  {
  }

  lemma {:induction false} LogDouble(m: nat)
    requires m >= 1
    ensures Log(2 * m) == 1 + Log(m)
  {
    assert 2 * m / 2 == m;
  }

  /** Walking right never raises the logarithm, and a light step, which halves the tree, lowers it. */
  lemma {:induction false} LogRight(l: nat, r: nat, n: nat)
    requires n == l + 1 + r
    ensures Log(r + 1) <= Log(n + 1)
    ensures r <= l ==> 1 + Log(r + 1) <= Log(n + 1)
  {
    hide Log;
    LogMonotone(r + 1, n + 1);
    if r <= l {
      LogDouble(r + 1);
      LogMonotone(2 * (r + 1), n + 1);
    }
  }

  /** One step: the winner `t` gets `m`, which holds its old right subtree, as left child. */
  lemma {:induction false} StepCost(t: Tree, u: Tree, m: Tree)
    requires t.Node? && u == Node(m, t.id, t.left) && Size(m) >= Size(t.right)
    ensures 1 + Phi(u) + Phi(t.right) + 2 * Log(Size(t.right) + 1) <= Phi(m) + Phi(t) + 2 * Log(Size(t) + 1)
  {
    hide Log, Phi, Size;
    Unfold(t);
    Unfold(u);
    LogRight(Size(t.left), Size(t.right), Size(t));
    assert Heavy(t) == 1 ==> Heavy(u) == 0;
  }

  lemma {:induction false} Unfold(t: Tree)
    requires t.Node?
    ensures Size(t) == Size(t.left) + 1 + Size(t.right)
    ensures Phi(t) == Phi(t.left) + Phi(t.right) + Heavy(t)
  {
  }

  /** Steps plus growth of the potential are at most twice the logarithms of the two sizes. */
  lemma {:induction false} MergeCost(comp: Comp, a: Tree, b: Tree)
    ensures Steps(comp, a, b) + Phi(Merge(comp, a, b))
         <= Phi(a) + Phi(b) + 2 * Log(Size(a) + 1) + 2 * Log(Size(b) + 1)
    decreases Size(a) + Size(b)
  {
    hide Log, Ids, Phi;
    if a.Leaf? || b.Leaf? {
      LeafCost();
    } else if comp(a.id, b.id) == -1 {
      MergeCost(comp, a.right, b);
      StepCost(a, Merge(comp, a, b), Merge(comp, a.right, b));
    } else {
      MergeCost(comp, a, b.right);
      StepCost(b, Merge(comp, a, b), Merge(comp, a, b.right));
    }
  }

  lemma LeafCost()
    ensures Size(Leaf) == 0 && Phi(Leaf) == 0 && Log(Size(Leaf) + 1) == 0
  {
  }

  /** Recursive steps of the merge that removes node `b`. */
  ghost function RemoveSteps(comp: Comp, t: Tree, b: int): (n: nat) {
    match t
    case Leaf => 0
    case Node(l, x, r) =>
      if x == b then Steps(comp, l, r)
      else if b in Ids(l) then RemoveSteps(comp, l, b)
      else RemoveSteps(comp, r, b)
  }

  lemma {:induction false} RemoveSize(comp: Comp, t: Tree, b: int)
    ensures Size(Remove(comp, t, b)) == Size(t) - if b in Ids(t) then 1 else 0
  {
    if t.Node? && t.id != b {
      RemoveSize(comp, t.left, b);
      RemoveSize(comp, t.right, b);
    }
  }

  /** Removing the root. */
  lemma {:induction false} RootCost(comp: Comp, t: Tree)
    requires t.Node?
    ensures Steps(comp, t.left, t.right) + Phi(Merge(comp, t.left, t.right)) <= Phi(t) + 4 * Log(Size(t) + 1)
  {
    hide *;
    Unfold(t);
    MergeCost(comp, t.left, t.right);
    LogMonotone(Size(t.left) + 1, Size(t) + 1);
    LogMonotone(Size(t.right) + 1, Size(t) + 1);
  }

  /** Removing any node: only an ancestor with two subtrees of equal size can gain potential, when its left one
      loses a node, and each such ancestor halves the tree. */
  lemma {:induction false} RemoveCost(comp: Comp, t: Tree, b: int)
    ensures RemoveSteps(comp, t, b) + Phi(Remove(comp, t, b)) <= Phi(t) + 5 * Log(Size(t) + 1)
  {
    hide Log, Steps, Merge, Phi, Size, Ids;
    if t.Leaf? {
      LeafCost();
    } else if t.id == b {
      RootCost(comp, t);
    } else {
      var left := b in Ids(t.left);
      var child := if left then t.left else t.right;
      var u := Remove(comp, t, b);
      RemoveCost(comp, child, b);
      RemoveSize(comp, child, b);
      Unfold(t);
      Unfold(u);
      LogMonotone(Size(child) + 1, Size(t) + 1);
      LogRight(Size(t.left), Size(t.right), Size(t));
    }
  }

  // ---------- whole runs ----------

  /** Operations of a priority queue: insert a node, or take one out. */
  datatype Op = Put(id: int) | Take(id: int)

  ghost function Apply(comp: Comp, op: Op, t: Tree): (r: Tree) {
    match op
    case Put(x) => Merge(comp, t, Node(Leaf, x, Leaf))
    case Take(x) => Remove(comp, t, x)
  }

  ghost function OpSteps(comp: Comp, op: Op, t: Tree): (n: nat) {
    match op
    case Put(x) => Steps(comp, t, Node(Leaf, x, Leaf))
    case Take(x) => RemoveSteps(comp, t, x)
  }

  ghost function Run(comp: Comp, ops: seq<Op>): (t: Tree) {
    if ops == [] then Leaf else Apply(comp, ops[|ops| - 1], Run(comp, ops[..|ops| - 1]))
  }

  ghost function RunSteps(comp: Comp, ops: seq<Op>): (n: nat) {
    if ops == [] then 0
    else RunSteps(comp, ops[..|ops| - 1]) + OpSteps(comp, ops[|ops| - 1], Run(comp, ops[..|ops| - 1]))
  }

  /** The operation takes out nothing but the root. */
  ghost predicate AtRoot(op: Op, t: Tree) {
    op.Take? ==> t.Node? && op.id == t.id
  }

  /** What covers one operation on a heap of at most n nodes. */
  ghost function PerOp(n: nat, roots: bool): nat {
    if roots then 4 * Log(n + 1) + 2 else 5 * Log(n + 1) + 2
  }

  lemma {:induction false} OpCost(comp: Comp, op: Op, t: Tree, n: nat, roots: bool)
    requires Size(t) <= n && (roots ==> AtRoot(op, t))
    ensures OpSteps(comp, op, t) + Phi(Apply(comp, op, t)) <= Phi(t) + PerOp(n, roots)
  {
    hide Log, Steps, Merge, Ids, Phi, Size;
    LogMonotone(Size(t) + 1, n + 1);
    match op {
      case Put(x) =>
        Unfold(Node(Leaf, x, Leaf));
        LeafCost();
        MergeCost(comp, t, Node(Leaf, x, Leaf));
        LogTwo();
      case Take(x) =>
        if roots {
          RootCost(comp, t);
        } else {
          RemoveCost(comp, t, x);
        }
    }
  }

  ghost predicate SizeAtMost(comp: Comp, ops: seq<Op>, k: int, n: nat)
    requires 0 <= k <= |ops|
  {
    Size(Run(comp, ops[..k])) <= n
  }

  ghost predicate RootAt(comp: Comp, ops: seq<Op>, k: int)
    requires 0 <= k < |ops|
  {
    AtRoot(ops[k], Run(comp, ops[..k]))
  }

  /** Any run on a heap of at most n nodes takes at most 5 log(n+1) + 2 steps for each operation, and 4 log(n+1) + 2
      if it takes out nothing but roots. */
  lemma {:induction false} RunCost(comp: Comp, ops: seq<Op>, n: nat)
    requires forall k :: 0 <= k < |ops| ==> SizeAtMost(comp, ops, k, n)
    ensures RunSteps(comp, ops) <= |ops| * (5 * Log(n + 1) + 2)
    ensures (forall k :: 0 <= k < |ops| ==> RootAt(comp, ops, k)) ==>
              RunSteps(comp, ops) <= |ops| * (4 * Log(n + 1) + 2)
  {
    hide Log, Phi, RunSteps, SizeAtMost, RootAt;
    RunPotential(comp, ops, n, false);
    if forall k :: 0 <= k < |ops| ==> RootAt(comp, ops, k) {
      RunPotential(comp, ops, n, true);
    }
  }

  lemma {:induction false} RunPotential(comp: Comp, ops: seq<Op>, n: nat, roots: bool)
    requires forall k :: 0 <= k < |ops| ==> SizeAtMost(comp, ops, k, n)
    requires roots ==> forall k :: 0 <= k < |ops| ==> RootAt(comp, ops, k)
    ensures RunSteps(comp, ops) + Phi(Run(comp, ops)) <= |ops| * PerOp(n, roots)
  {
    hide Phi, Apply, OpSteps, Size, PerOp, AtRoot;
    if ops == [] {
      LeafCost();
    } else {
      var m := |ops| - 1;
      var front := ops[..m];
      forall k | 0 <= k < m
        ensures SizeAtMost(comp, front, k, n) && (roots ==> RootAt(comp, front, k))
      {
        assert front[..k] == ops[..k];
        assert SizeAtMost(comp, ops, k, n) && (roots ==> RootAt(comp, ops, k));
      }
      RunPotential(comp, front, n, roots);
      assert SizeAtMost(comp, ops, m, n) && (roots ==> RootAt(comp, ops, m));
      OpCost(comp, ops[m], Run(comp, front), n, roots);
      OneMore(m, PerOp(n, roots));
    }
  }

  lemma OneMore(m: nat, c: nat)
    ensures (m + 1) * c == m * c + c
  {
  }

  /** The heap never holds more nodes than operations were made, so m operations take at most m(5 log(m+1) + 2)
      steps. */
  lemma {:induction false} RunCostByLength(comp: Comp, ops: seq<Op>)
    ensures RunSteps(comp, ops) <= |ops| * (5 * Log(|ops| + 1) + 2)
  {
    hide Log, Size, RunSteps, RootAt;
    forall k | 0 <= k < |ops| ensures SizeAtMost(comp, ops, k, |ops|) {
      RunSize(comp, ops[..k]);
    }
    RunCost(comp, ops, |ops|);
  }

  lemma {:induction false} RunSize(comp: Comp, ops: seq<Op>)
    ensures Size(Run(comp, ops)) <= |ops|
  {
    if ops != [] {
      var m := |ops| - 1;
      RunSize(comp, ops[..m]);
      ApplySize(comp, ops[m], Run(comp, ops[..m]));
    }
  }

  lemma {:induction false} ApplySize(comp: Comp, op: Op, t: Tree)
    ensures Size(Apply(comp, op, t)) <= Size(t) + 1
  {
    if op.Put? {
      Unfold(Node(Leaf, op.id, Leaf));
    } else {
      RemoveSize(comp, t, op.id);
    }
  }
}
