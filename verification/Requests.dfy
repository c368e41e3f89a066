/** Runs of an allocator as its clients see them, shared by the models of allocators. */
module Requests {
  import opened Sequences

  datatype Op = Malloc(size: nat) | Free(p: int)

  /** What clients hold, with the size asked for, after one request and its answer. */
  function After(held: map<int, nat>, op: Op, p: Option<int>): map<int, nat> {
    match op
    case Malloc(size) => if p.Some? then held[p.value := size] else held
    case Free(q) => held - {q}
  }

  /** What clients hold after the requests `ops`, with the answers of `trace`. */
  function Replay(held: map<int, nat>, ops: seq<Op>, trace: seq<Option<int>>): map<int, nat>
    requires |ops| == |trace|
  {
    if ops == [] then held
    else
      var n := |ops| - 1;
      After(Replay(held, ops[..n], trace[..n]), ops[n], trace[n])
  }

  lemma ReplayNext(held: map<int, nat>, ops: seq<Op>, trace: seq<Option<int>>, n: nat, p: Option<int>)
    requires n < |ops| && |trace| == n
    ensures Replay(held, ops[..n + 1], trace + [p]) == After(Replay(held, ops[..n], trace), ops[n], p)
  {
    assert ops[..n + 1][..n] == ops[..n] && (trace + [p])[..n] == trace;
  }

  ghost predicate Touches(op: Op, answer: Option<int>, p: int) {
    op == Free(p) || (op.Malloc? && answer == Some(p))
  }

  /** The last request about `p` decides: it is held, with the size asked for, if it was given out then, and not held if
      it was freed then; without such a request nothing changes. */
  lemma {:induction false} LastDecides(held: map<int, nat>, ops: seq<Op>, trace: seq<Option<int>>, p: int, i: int)
    requires |ops| == |trace| && -1 <= i < |ops| && (i >= 0 ==> Touches(ops[i], trace[i], p))
    requires forall j :: i < j < |ops| ==> !Touches(ops[j], trace[j], p)
    ensures var mine := Replay(held, ops, trace);
            if i < 0 then (p in mine <==> p in held) && (p in held ==> mine[p] == held[p])
            else if ops[i].Malloc? then p in mine && mine[p] == ops[i].size
            else p !in mine
    decreases |ops|
  {
    var n := |ops| - 1;
    if i < n {
      assert !Touches(ops[n], trace[n], p);
      LastDecides(held, ops[..n], trace[..n], p, i);
    }
  }
}
