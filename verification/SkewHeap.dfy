/**
 The skew heap of lab6/libs/skew_heap.h with its pointers. Entries live at addresses; address 0 is
 NULL. Every method is proved against the tree functions of SkewTree.dfy.
 */
module SkewHeap {
  import opened SkewTree

  datatype Entry = Entry(parent: int, left: int, right: int)

  type Memory = map<int, Entry>

  function Root(t: Tree): (r: int) {
    if t.Leaf? then 0 else t.id
  }

  ghost predicate ChildOk(m: Memory, x: int, t: Tree) {
    t.Node? ==> t.id in m && m[t.id].parent == x
  }

  /** Memory holds `t`: child pointers, and the parent pointer of every node but the root. */
  ghost predicate Shape(m: Memory, t: Tree) {
    match t
    case Leaf => true
    case Node(l, x, r) =>
      && x != 0 && x in m && m[x].left == Root(l) && m[x].right == Root(r)
      && ChildOk(m, x, l) && ChildOk(m, x, r)
      && Shape(m, l) && Shape(m, r)
  }

  /** A whole heap: additionally every node is there once and the root's parent is NULL. */
  ghost predicate IsHeap(m: Memory, root: int, t: Tree) {
    && root == Root(t) && Shape(m, t) && Distinct(t)
    && (t.Node? ==> m[root].parent == 0)
  }

  ghost predicate SameAt(m: Memory, m': Memory, x: int) {
    (x in m <==> x in m') && (x in m ==> m[x] == m'[x])
  }

  ghost predicate SameOutside(m: Memory, m': Memory, s: set<int>) {
    forall x :: x !in s ==> SameAt(m, m', x)
  }

  lemma {:induction false} ShapeHas(m: Memory, t: Tree, x: int)
    requires Shape(m, t) && x in Ids(t)
    ensures x != 0 && x in m
  {
    if x != t.id {
      if x in Ids(t.left) { ShapeHas(m, t.left, x); } else { ShapeHas(m, t.right, x); }
    }
  }

  /** A tree survives any change elsewhere, and any change to its root's parent pointer. */
  lemma {:induction false} ShapeFrame(m: Memory, m': Memory, t: Tree)
    requires Shape(m, t) && Distinct(t)
    requires forall x :: x in Ids(t) && x != Root(t) ==> SameAt(m, m', x)
    requires t.Node? ==> t.id in m' && m'[t.id].left == m[t.id].left && m'[t.id].right == m[t.id].right
    ensures Shape(m', t)
  {
    if t.Node? {
      RootIn(t.left);
      RootIn(t.right);
      assert t.left.Node? ==> SameAt(m, m', t.left.id);
      assert t.right.Node? ==> SameAt(m, m', t.right.id);
      ShapeFrame(m, m', t.left);
      ShapeFrame(m, m', t.right);
    }
  }

  lemma {:induction false} Inhabited(t: Tree, b: int)
    requires b in Ids(t)
    ensures t.Node?
  {
  }

  lemma {:induction false} RootIn(t: Tree)
    ensures t.Node? ==> t.id in Ids(t)
  {
  }

  /** The stores of one merge step: the winner keeps its parent, swaps its children, and `lt`, the
      merge of its right subtree with the loser, becomes its left child. */
  ghost function Linked(m: Memory, x: int, left: int, right: int): (r: Memory)
    requires x in m && (left != 0 ==> left in m && left != x)
  {
    var m1 := m[x := m[x].(left := left, right := right)];
    if left != 0 then m1[left := m1[left].(parent := x)] else m1
  }

  lemma {:induction false} SwapShape(m: Memory, m': Memory, t: Tree, lt: Tree)
    requires t.Node? && Shape(m, t) && Distinct(t)
    requires Shape(m', lt) && Distinct(lt) && t.id !in Ids(lt) && Ids(t.left) !! Ids(lt)
    requires SameOutside(m, m', Ids(lt))
    ensures t.id in m' && (Root(lt) != 0 ==> Root(lt) in m' && Root(lt) != t.id)
    ensures var m2 := Linked(m', t.id, Root(lt), m[t.id].left);
            && Shape(m2, Node(lt, t.id, t.left))
            && SameOutside(m, m2, Ids(lt) + {t.id})
            && t.id in m2 && m2[t.id].parent == m[t.id].parent
  {
    hide Shape, Ids, Distinct;
    RootIn(lt);
    RootIn(t.left);
    Parts(t);
    OpenShape(m, t);
    assert SameAt(m, m', t.id);
    if lt.Node? { ShapeHas(m', lt, lt.id); }
    var m2 := Linked(m', t.id, Root(lt), m[t.id].left);
    forall x | x !in Ids(lt) + {t.id} ensures SameAt(m, m2, x) {
      assert SameAt(m, m', x);
    }
    assert t.left.Node? ==> SameAt(m, m2, t.left.id);
    ShapeFrame(m, m2, t.left);
    ShapeFrame(m', m2, lt);
    CloseShape(m2, lt, t.id, t.left);
  }

  lemma {:induction false} OpenShape(m: Memory, t: Tree)
    requires t.Node? && Shape(m, t)
    ensures t.id != 0 && t.id in m && m[t.id].left == Root(t.left) && m[t.id].right == Root(t.right)
    ensures ChildOk(m, t.id, t.left) && ChildOk(m, t.id, t.right) && Shape(m, t.left) && Shape(m, t.right)
  {
  }

  lemma {:induction false} CloseShape(m: Memory, l: Tree, x: int, r: Tree)
    requires x != 0 && x in m && m[x].left == Root(l) && m[x].right == Root(r)
    requires ChildOk(m, x, l) && ChildOk(m, x, r) && Shape(m, l) && Shape(m, r)
    ensures Shape(m, Node(l, x, r))
  {
  }

  lemma {:induction false} Parts(t: Tree)
    requires t.Node? && Distinct(t)
    ensures Distinct(t.left) && Distinct(t.right)
    ensures t.id !in Ids(t.left) && t.id !in Ids(t.right) && Ids(t.left) !! Ids(t.right)
    ensures Ids(t) == Ids(t.left) + {t.id} + Ids(t.right)
  {
  }

  // ---------- removal ----------

  ghost function Sub(t: Tree, b: int): (u: Tree)
    requires b in Ids(t)
    ensures u.Node? && u.id == b && Ids(u) <= Ids(t)
    ensures b == t.id ==> u == t
  {
    if t.id == b then t else if b in Ids(t.left) then Sub(t.left, b) else Sub(t.right, b)
  }

  lemma {:induction false} SubShape(m: Memory, t: Tree, b: int)
    requires Shape(m, t) && Distinct(t) && b in Ids(t)
    ensures Shape(m, Sub(t, b)) && Distinct(Sub(t, b)) && b in m
    ensures b != t.id ==> var p := m[b].parent;
                          p in Ids(t) && p !in Ids(Sub(t, b)) && p != 0 && p in m && (m[p].left == b || m[p].right == b)
  {
    if b != t.id {
      var c := if b in Ids(t.left) then t.left else t.right;
      RootIn(c);
      SubShape(m, c, b);
    }
  }

  /** Removal takes the steps of merging the children of the node. */
  lemma {:induction false} SubSteps(comp: Comp, t: Tree, b: int)
    requires b in Ids(t)
    ensures RemoveSteps(comp, t, b) == Steps(comp, Sub(t, b).left, Sub(t, b).right)
  {
    if t.id != b {
      SubSteps(comp, if b in Ids(t.left) then t.left else t.right, b);
    }
  }

  /** Memory after the stores of skew_heap_remove below the node `p`, with `rep` in place of `b`. */
  ghost function Replaced(m: Memory, p: int, b: int, rep: int): (r: Memory)
    requires p in m
  {
    m[p := if m[p].left == b then m[p].(left := rep) else m[p].(right := rep)]
  }

  /** What skew_heap_remove leaves of `m` before the parent of `b` is told: outside the subtree at `b`
      nothing has changed, and the merge of its children is in place with that parent. */
  ghost predicate Detached(comp: Comp, m: Memory, m1: Memory, t: Tree, b: int)
    requires b in Ids(t)
  {
    var u := Sub(t, b);
    var rep := SkewTree.Merge(comp, u.left, u.right);
    && b in m
    && Shape(m1, rep) && Distinct(rep) && ChildOk(m1, m[b].parent, rep)
    && forall x :: x in Ids(t) && x !in Ids(u) ==> SameAt(m, m1, x)
  }

  ghost function Rest(comp: Comp, t: Tree, b: int): (rep: Tree)
    requires b in Ids(t)
    ensures Ids(rep) <= Ids(Sub(t, b))
  {
    SkewTree.Merge(comp, Sub(t, b).left, Sub(t, b).right)
  }

  lemma {:induction false} DetachedChild(comp: Comp, m: Memory, m1: Memory, t: Tree, c: Tree, b: int)
    requires b in Ids(t) && Detached(comp, m, m1, t, b) && b != t.id && Distinct(t)
    requires b in Ids(c) && (c == t.left || c == t.right)
    ensures Detached(comp, m, m1, c, b) && Sub(t, b) == Sub(c, b)
  {
  }

  /** The sibling of the child that holds `b` is untouched. */
  lemma {:induction false} SiblingShape(m: Memory, m1: Memory, m2: Memory, x: int, o: Tree, p: int, entry: Entry)
    requires Shape(m, o) && Distinct(o) && ChildOk(m, x, o) && p !in Ids(o)
    requires forall y :: y in Ids(o) ==> SameAt(m, m1, y)
    requires m2 == m1[p := entry]
    ensures Shape(m2, o) && ChildOk(m2, x, o)
  {
    RootIn(o);
    forall y | y in Ids(o) ensures SameAt(m, m2, y) {
      assert SameAt(m, m1, y);
    }
    assert o.Node? ==> SameAt(m, m2, o.id);
    ShapeFrame(m, m2, o);
  }

  /** The child that holds `b`, after the parent of `b` is told. */
  lemma {:induction false} HoldingChild(comp: Comp, m: Memory, m1: Memory, t: Tree, c: Tree, b: int)
    requires Shape(m, t) && Distinct(t) && b in Ids(t) && b != t.id && Detached(comp, m, m1, t, b)
    requires b in Ids(c) && (c == t.left || c == t.right) && b == c.id && m[b].parent in m1
    ensures m[b].parent == t.id && Rest(comp, t, b) == SkewTree.Remove(comp, c, b)
    ensures var m2 := Replaced(m1, t.id, b, Root(Rest(comp, t, b)));
            Shape(m2, SkewTree.Remove(comp, c, b)) && ChildOk(m2, t.id, SkewTree.Remove(comp, c, b))
  {
    hide Shape, Ids, Distinct;
    Inhabited(t, b);
    Parts(t);
    OpenShape(m, t);
    DetachedChild(comp, m, m1, t, c, b);
    var rep := Rest(comp, t, b);
    RootIn(rep);
    RootIn(c);
    assert Ids(rep) <= Ids(c);
    if rep.Node? { ShapeHas(m1, rep, rep.id); }
    ShapeFrame(m1, Replaced(m1, t.id, b, Root(rep)), rep);
  }

  /** Putting the merge of the children of `b` in its place turns the tree into `Remove(t, b)`. */
  lemma {:induction false} RemoveShape(comp: Comp, m: Memory, m1: Memory, t: Tree, b: int)
    requires Shape(m, t) && Distinct(t) && b in Ids(t) && b != t.id && Detached(comp, m, m1, t, b)
    requires m[b].parent in m1
    ensures var m2 := Replaced(m1, m[b].parent, b, Root(Rest(comp, t, b)));
            && Shape(m2, SkewTree.Remove(comp, t, b))
            && t.id in m2 && m2[t.id].parent == m[t.id].parent
  {
    hide Shape, Ids, Distinct, Detached;
    Inhabited(t, b);
    Parts(t);
    OpenShape(m, t);
    SubShape(m, t, b);
    var p := m[b].parent;
    var m2 := Replaced(m1, p, b, Root(Rest(comp, t, b)));
    var c, o := if b in Ids(t.left) then t.left else t.right, if b in Ids(t.left) then t.right else t.left;
    Inhabited(c, b);
    RootIn(c);
    RootIn(o);
    DetachedChild(comp, m, m1, t, c, b);
    OutsideSub(comp, m, m1, t, o, b);
    if b == c.id {
      HoldingChild(comp, m, m1, t, c, b);
    } else {
      RemoveShape(comp, m, m1, c, b);
      SubShape(m, c, b);
    }
    SiblingShape(m, m1, m2, t.id, o, p, m2[p]);
    if b in Ids(t.left) {
      CloseShape(m2, SkewTree.Remove(comp, t.left, b), t.id, t.right);
    } else {
      CloseShape(m2, t.left, t.id, SkewTree.Remove(comp, t.right, b));
    }
  }

  lemma {:induction false} OutsideSub(comp: Comp, m: Memory, m1: Memory, t: Tree, o: Tree, b: int)
    requires t.Node? && Distinct(t) && b in Ids(t) && b != t.id && Detached(comp, m, m1, t, b)
    requires o == if b in Ids(t.left) then t.right else t.left
    ensures SameAt(m, m1, t.id) && forall y :: y in Ids(o) ==> SameAt(m, m1, y)
  {
  }

  class SkewHeap {
    var mem: Memory
    ghost var steps: nat

    constructor ()
      ensures mem == map[] && steps == 0
    {
      mem, steps := map[], 0;
    }

    method Merge(a: int, b: int, comp: Comp, ghost ta: Tree, ghost tb: Tree) returns (r: int)
      requires a == Root(ta) && b == Root(tb) && Shape(mem, ta) && Shape(mem, tb)
      requires Distinct(ta) && Distinct(tb) && Ids(ta) !! Ids(tb)
      modifies this
      ensures r == Root(SkewTree.Merge(comp, ta, tb)) && Shape(mem, SkewTree.Merge(comp, ta, tb))
      ensures SameOutside(old(mem), mem, Ids(ta) + Ids(tb))
      ensures r in old(mem) ==> r in mem && mem[r].parent == old(mem)[r].parent
      ensures steps == old(steps) + Steps(comp, ta, tb)
      ensures r == if a == 0 then b else if b == 0 || comp(a, b) == -1 then a else b
      ensures a != 0 && b != 0 ==> r in old(mem) && r in mem && mem[r].right == old(mem)[r].left
      decreases Size(ta) + Size(tb)
    {
      hide Distinct;
      if a == 0 {
        return b;
      }
      if b == 0 {
        return a;
      }
      steps := steps + 1;
      if comp(a, b) == -1 {
        Parts(ta);
        var right := mem[a].left;
        var left := Merge(mem[a].right, b, comp, ta.right, tb);
        MergeDistinct(comp, ta.right, tb);
        SwapShape(old(mem), mem, ta, SkewTree.Merge(comp, ta.right, tb));
        mem := mem[a := mem[a].(left := left, right := right)];
        if left != 0 {
          mem := mem[left := mem[left].(parent := a)];
        }
        return a;
      } else {
        Parts(tb);
        var right := mem[b].left;
        var left := Merge(a, mem[b].right, comp, ta, tb.right);
        MergeDistinct(comp, ta, tb.right);
        SwapShape(old(mem), mem, tb, SkewTree.Merge(comp, ta, tb.right));
        mem := mem[b := mem[b].(left := left, right := right)];
        if left != 0 {
          mem := mem[left := mem[left].(parent := b)];
        }
        return b;
      }
    }

    method Init(a: int)
      modifies this`mem
      ensures mem == old(mem)[a := Entry(0, 0, 0)]
    {
      mem := mem[a := Entry(0, 0, 0)];
    }

    method Insert(a: int, b: int, comp: Comp, ghost t: Tree) returns (r: int)
      requires IsHeap(mem, a, t) && b != 0 && b !in Ids(t)
      modifies this
      ensures IsHeap(mem, r, SkewTree.Merge(comp, t, Node(Leaf, b, Leaf)))
      ensures SameOutside(old(mem), mem, Ids(t) + {b})
      ensures steps == old(steps) + Steps(comp, t, Node(Leaf, b, Leaf))
      ensures r == if a != 0 && comp(a, b) == -1 then a else b
    {
      ghost var one := Node(Leaf, b, Leaf);
      Init(b);
      assert Ids(one) == {b};
      ShapeFrame(old(mem), mem, t);
      MergeDistinct(comp, t, one);
      r := Merge(a, b, comp, t, one);
    }

    method Remove(a: int, b: int, comp: Comp, ghost t: Tree) returns (r: int)
      requires IsHeap(mem, a, t) && b in Ids(t)
      modifies this
      ensures IsHeap(mem, r, SkewTree.Remove(comp, t, b))
      ensures SameOutside(old(mem), mem, Ids(t))
      ensures steps == old(steps) + RemoveSteps(comp, t, b)
    {
      hide Shape, Distinct, Ids, RemoveSteps;
      ghost var u := Sub(t, b);
      SubSteps(comp, t, b);
      SubShape(mem, t, b);
      Parts(u);
      OpenShape(mem, u);
      RemoveIds(comp, t, b);
      MergeDistinct(comp, u.left, u.right);
      var p := mem[b].parent;
      var rep := Merge(mem[b].left, mem[b].right, comp, u.left, u.right);
      ghost var rest := SkewTree.Merge(comp, u.left, u.right);
      RootIn(rest);
      ghost var m1 := mem;
      if rep != 0 {
        ShapeHas(mem, rest, rep);
        mem := mem[rep := mem[rep].(parent := p)];
        ShapeFrame(m1, mem, rest);
      }
      RootIn(t);
      if p != 0 {
        assert Detached(comp, old(mem), mem, t, b);
        RemoveShape(comp, old(mem), mem, t, b);
        if mem[p].left == b {
          mem := mem[p := mem[p].(left := rep)];
        } else {
          mem := mem[p := mem[p].(right := rep)];
        }
        return a;
      }
      return rep;
    }

    /** Any sequence of insertions of new nodes and removals of arbitrary present ones keeps exactly
        the right set of nodes, heap order, and a least node at the root; and if the heap never holds more than
        `most` nodes it takes at most 5 log(most+1) + 2 recursive calls for each operation. */
    method Run(comp: Comp, ops: seq<Op>, ghost universe: set<int>, ghost most: nat) returns (root: int, ghost t: Tree)
      requires TotalPreorder(comp, universe) && Legal(ops, universe)
      modifies this
      ensures IsHeap(mem, root, t) && Ids(t) == Contents(ops) && HeapOrdered(comp, t)
      ensures root == 0 <==> Contents(ops) == {}
      ensures forall y :: y in Contents(ops) ==> Leq(comp, root, y)
      ensures t == SkewTree.Run(comp, ops) && steps == old(steps) + RunSteps(comp, ops)
      ensures (forall k :: 0 <= k < |ops| ==> |Contents(ops[..k])| <= most) ==>
                steps <= old(steps) + |ops| * (5 * Log(most + 1) + 2)
    {
      hide IsHeap, HeapOrdered, TotalPreorder, SkewTree.Run, RunSteps, Log, Contents, Legal, Ids;
      root, t := 0, Leaf;
      var n := 0;
      EmptyRun(comp, mem);
      assert ops[..0] == [];
      while n < |ops|
        invariant n <= |ops| && IsHeap(mem, root, t) && HeapOrdered(comp, t)
        invariant Ids(t) == Contents(ops[..n]) && Ids(t) <= universe
        invariant t == SkewTree.Run(comp, ops[..n]) && steps == old(steps) + RunSteps(comp, ops[..n])
        invariant forall k :: 0 <= k < n ==> SizeAtMost(comp, ops, k, |Contents(ops[..k])|)
      {
        LegalStep(ops, n, universe);
        HeapSize(mem, root, t);
        RunStep(comp, ops, n);
        root, t := Step(comp, ops[n], root, t, universe);
        n := n + 1;
      }
      assert ops[..n] == ops;
      Minimum(comp, t, universe);
      IsHeapRoot(mem, root, t);
      if forall k :: 0 <= k < |ops| ==> |Contents(ops[..k])| <= most {
        forall k | 0 <= k < |ops| ensures SizeAtMost(comp, ops, k, most) {
          assert SizeAtMost(comp, ops, k, |Contents(ops[..k])|);
        }
        RunCost(comp, ops, most);
      }
    }

    method Step(comp: Comp, op: Op, a: int, ghost t: Tree, ghost universe: set<int>) returns (r: int, ghost t': Tree)
      requires TotalPreorder(comp, universe) && Ids(t) <= universe && op.id in universe
      requires IsHeap(mem, a, t) && HeapOrdered(comp, t)
      requires if op.Put? then op.id != 0 && op.id !in Ids(t) else op.id in Ids(t)
      modifies this
      ensures IsHeap(mem, r, t') && HeapOrdered(comp, t')
      ensures Ids(t') == if op.Put? then Ids(t) + {op.id} else Ids(t) - {op.id}
      ensures t' == Apply(comp, op, t) && steps == old(steps) + OpSteps(comp, op, t)
    {
      hide IsHeap, HeapOrdered;
      match op {
        case Put(x) =>
          PutOrdered(comp, t, x, universe);
          t' := SkewTree.Merge(comp, t, Node(Leaf, x, Leaf));
          r := Insert(a, x, comp, t);
        case Take(x) =>
          HeapDistinct(mem, a, t);
          RemoveOrdered(comp, t, x, universe);
          RemoveIds(comp, t, x);
          t' := SkewTree.Remove(comp, t, x);
          r := Remove(a, x, comp, t);
      }
    }
  }

  lemma {:induction false} EmptyRun(comp: Comp, m: Memory)
    ensures IsHeap(m, 0, Leaf) && HeapOrdered(comp, Leaf) && Ids(Leaf) == Contents([]) == {}
    ensures SkewTree.Run(comp, []) == Leaf && RunSteps(comp, []) == 0
  {
  }

  lemma {:induction false} RunStep(comp: Comp, ops: seq<Op>, n: nat)
    requires n < |ops|
    ensures SkewTree.Run(comp, ops[..n + 1]) == Apply(comp, ops[n], SkewTree.Run(comp, ops[..n]))
    ensures RunSteps(comp, ops[..n + 1]) == RunSteps(comp, ops[..n]) + OpSteps(comp, ops[n],
                                                                               SkewTree.Run(comp, ops[..n]))
  {
    assert ops[..n + 1][..n] == ops[..n];
  }

  lemma {:induction false} SizeIds(t: Tree)
    requires Distinct(t)
    ensures Size(t) == |Ids(t)|
  {
    if t.Node? {
      SizeIds(t.left);
      SizeIds(t.right);
      assert Ids(t) == (Ids(t.left) + {t.id}) + Ids(t.right);
    }
  }

  lemma {:induction false} HeapSize(m: Memory, root: int, t: Tree)
    requires IsHeap(m, root, t)
    ensures Size(t) == |Ids(t)|
  {
    SizeIds(t);
  }

  ghost function Contents(ops: seq<Op>): (s: set<int>) {
    if ops == [] then {} else
      var before := Contents(ops[..|ops| - 1]);
      var op := ops[|ops| - 1];
      if op.Put? then before + {op.id} else before - {op.id}
  }

  ghost predicate LegalAt(ops: seq<Op>, n: nat, universe: set<int>)
    requires n < |ops|
  {
    && ops[n].id in universe
    && if ops[n].Put? then ops[n].id != 0 && ops[n].id !in Contents(ops[..n]) else ops[n].id in Contents(ops[..n])
  }

  ghost predicate Legal(ops: seq<Op>, universe: set<int>) {
    forall n :: 0 <= n < |ops| ==> LegalAt(ops, n, universe)
  }

  lemma {:induction false} LegalStep(ops: seq<Op>, n: nat, universe: set<int>)
    requires Legal(ops, universe) && n < |ops|
    ensures LegalAt(ops, n, universe)
    ensures var before := Contents(ops[..n]);
            Contents(ops[..n + 1]) == if ops[n].Put? then before + {ops[n].id} else before - {ops[n].id}
  {
    assert ops[..n + 1][..n] == ops[..n];
  }

  lemma {:induction false} IsHeapRoot(m: Memory, root: int, t: Tree)
    requires IsHeap(m, root, t)
    ensures root == Root(t) && Distinct(t) && (root == 0 <==> t.Leaf?) && (t.Leaf? <==> Ids(t) == {})
  {
    RootIn(t);
  }

  lemma {:induction false} HeapDistinct(m: Memory, a: int, t: Tree)
    requires IsHeap(m, a, t)
    ensures Distinct(t)
  {
  }

  lemma {:induction false} PutOrdered(comp: Comp, t: Tree, x: int, universe: set<int>)
    requires TotalPreorder(comp, universe) && Ids(t) <= universe && x in universe && HeapOrdered(comp, t)
    ensures HeapOrdered(comp, SkewTree.Merge(comp, t, Node(Leaf, x, Leaf)))
    ensures Ids(SkewTree.Merge(comp, t, Node(Leaf, x, Leaf))) == Ids(t) + {x}
  {
    MergeOrdered(comp, t, Node(Leaf, x, Leaf));
  }

  lemma {:induction false} Minimum(comp: Comp, t: Tree, universe: set<int>)
    requires HeapOrdered(comp, t) && TotalPreorder(comp, universe) && Ids(t) <= universe
    ensures Root(t) == 0 || t.Node?
    ensures t.Leaf? <==> Ids(t) == {}
    ensures forall y :: y in Ids(t) ==> Leq(comp, Root(t), y)
  {
    RootIn(t);
    forall y | y in Ids(t) ensures Leq(comp, Root(t), y) {
      RootMinimal(comp, t, y);
    }
  }
}
