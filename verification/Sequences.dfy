/** Small helpers shared by the models: optional values and positions in cyclic sequences. */
module Sequences {

  datatype Option<T> = None | Some(value: T)

  /** The position after `i` in a cycle of `n`. */
  function Successor(i: nat, n: nat): (j: nat)
    requires i < n
    ensures j < n
  {
    if i + 1 == n then 0 else i + 1
  }

  function Without<T>(s: seq<T>, i: nat): seq<T>
    requires i < |s|
  {
    s[..i] + s[i + 1..]
  }
}
