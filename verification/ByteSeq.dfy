/** Bytes in memory, as a little-endian machine loads words from them. */
module ByteSeq {
  newtype byte = x: int | 0 <= x < 256

  type Bytes = seq<byte>

  function LoadLe32(b: Bytes, p: nat): (x: int)
    requires p + 4 <= |b|
    ensures 0 <= x < 0x1_0000_0000
  {
    b[p] as int + 256 * (b[p + 1] as int + 256 * (b[p + 2] as int + 256 * b[p + 3] as int))
  }

  /** A text as bytes, for characters below 128. */
  function Ascii(s: string): (b: Bytes)
    requires forall i :: 0 <= i < |s| ==> s[i] < 128 as char
    ensures |b| == |s|
  {
    seq(|s|, i requires 0 <= i < |s| => s[i] as byte)
  }

  /** The bytes before the first NUL. */
  function CString(b: Bytes): Bytes {
    if b == [] || b[0] == 0 then [] else [b[0]] + CString(b[1..])
  }

  lemma {:induction false} CStringPrefix(b: Bytes, n: nat)
    requires n < |b| && b[n] == 0 && forall i :: 0 <= i < n ==> b[i] != 0
    ensures CString(b) == b[..n]
  {
    if n > 0 {
      CStringPrefix(b[1..], n - 1);
      assert b[..n] == [b[0]] + b[1..][..n - 1];
    }
  }
}
