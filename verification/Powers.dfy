/** Powers of two, the shifts that divide by them, and numbers of 64 bits. */
module Powers {

  function Pow2(n: nat): (r: nat)
    ensures r >= 1
  {
    if n == 0 then 1 else 2 * Pow2(n - 1)
  }

  lemma {:induction false} Pow2Monotone(a: nat, b: nat)
    requires a <= b
    ensures Pow2(a) <= Pow2(b)
    decreases b
  {
    if a < b {
      Pow2Monotone(a, b - 1);
    }
  }

  lemma {:induction false} Pow2Sum(a: nat, b: nat)
    ensures Pow2(a + b) == Pow2(a) * Pow2(b)
  {
    if a > 0 {
      Pow2Sum(a - 1, b);
      Double(Pow2(a - 1), Pow2(b));
    }
  }

  lemma Double(p: nat, q: nat)
    ensures 2 * p * q == 2 * (p * q)
  {
  }

  lemma Scale(p: nat, a: int, b: int)
    requires a <= b
    ensures p * a <= p * b
  {
  }

  /** Bounds on a quotient are bounds on the dividend. */
  lemma Unshift(x: int, p: nat, a: int, b: int)
    requires p >= 1 && a <= x / p < b
    ensures p * a <= x < p * b
  {
    var y := x / p;
    Scale(p, a, y);
    Scale(p, y + 1, b);
    assert p * y <= x < p * y + p;
    assert p * (y + 1) == p * y + p;
  }

  lemma ShiftBelow(x: int, p: nat, w: nat)
    requires p >= 1 && 0 <= x < p * w
    ensures 0 <= x / p < w
    ensures x / p == 0 <==> x < p
  {
    var q := x / p;
    if q >= w { Scale(p, w, q); }
  }

  /** A 64-bit two's complement number. */
  function Signed64(x: int): (r: int)
    ensures -0x8000_0000_0000_0000 <= r < 0x8000_0000_0000_0000
  {
    (x + 0x8000_0000_0000_0000) % 0x1_0000_0000_0000_0000 - 0x8000_0000_0000_0000
  }
}
