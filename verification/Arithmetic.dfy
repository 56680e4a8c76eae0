/** Division, products of variables and powers of two, where the solver needs a hand. */
module Arithmetic {
  import opened Common

  lemma MulMono(x: int, y: int, b: nat)
    requires x <= y
    ensures x * b <= y * b
  {
    assert y * b - x * b == (y - x) * b;
    assert (y - x) * b >= 0;
  }

  /** Quotient and remainder are unique. */
  lemma Quotient(a: int, b: nat, q: int, r: int)
    requires b > 0 && 0 <= r < b && a == q * b + r
    ensures a / b == q && a % b == r
  {
    var q' := a / b;
    assert a == q' * b + a % b;
    assert (q - 1) * b == q * b - b && (q + 1) * b == q * b + b;
    if q' < q {
      MulMono(q', q - 1, b);
    } else if q' > q {
      MulMono(q + 1, q', b);
    }
  }

  /** Counting down by one either stays in the same block of `b` or leaves it. */
  lemma Predecessor(a: nat, b: nat)
    requires b > 0 && a > 0
    ensures a % b != 0 ==> (a - 1) / b == a / b && (a - 1) % b == a % b - 1
    ensures a % b == 0 ==> (a - 1) / b == a / b - 1 && (a - 1) % b == b - 1
  {
    var q, r := a / b, a % b;
    assert a == q * b + r;
    if r != 0 {
      Quotient(a - 1, b, q, r - 1);
    } else {
      assert (q - 1) * b == q * b - b;
      Quotient(a - 1, b, q - 1, b - 1);
    }
  }

  lemma Associate(a: int, b: int, c: int)
    ensures a * b * c == a * (b * c)
  {
  }

  lemma Distribute(a: int, b: int, c: int, g: int)
    requires a == b + c
    ensures a * g == b * g + c * g
  {
  }

  // ---- powers of two ----

  function Pow2(k: nat): (r: nat)
    ensures r > 0
  {
    if k == 0 then 1 else 2 * Pow2(k - 1)
  }

  lemma Pow32()
    ensures Pow2(32) == U32_LIMIT && Pow2(31) == U32_LIMIT / 2
  {
    assert Pow2(8) == 0x100;
    assert Pow2(16) == 0x1_0000;
    assert Pow2(24) == 0x100_0000;
    assert Pow2(31) == 0x8000_0000;
  }

  lemma {:induction false} PowMono(j: nat, k: nat)
    requires j <= k
    ensures Pow2(j) <= Pow2(k)
  {
    if j < k {
      PowMono(j, k - 1);
    }
  }

  lemma {:induction false} PowSplit(i: nat, j: nat)
    ensures Pow2(i + j) == Pow2(i) * Pow2(j)
  {
    if i > 0 {
      PowSplit(i - 1, j);
      Associate(2, Pow2(i - 1), Pow2(j));
    }
  }
}
