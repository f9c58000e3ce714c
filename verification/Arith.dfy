/** Alignment arithmetic, powers of two and bits. */
module Arith {

  lemma {:induction false} DivUnique(v: int, d: int, a: int, r: int)
    requires d > 0 && 0 <= r < d && v == d * a + r
    ensures v / d == a && v % d == r
  {
    var q, m := v / d, v % d;
    assert d * (q - a) == r - m by { assert v == d * q + m; }
    MulSmall(d, q - a);
  }

  lemma {:induction false} MulSmall(d: int, k: int)
    requires d > 0 && -d < d * k < d
    ensures k == 0
  {
  }

  lemma {:induction false} ModAdd(x: int, d: int)
    requires d > 0
    ensures (x + d) % d == x % d
    ensures (x + d) / d == x / d + 1
  {
    assert x + d == d * (x / d + 1) + x % d;
    DivUnique(x + d, d, x / d + 1, x % d);
  }

  /** A sum of multiples is a multiple. */
  lemma {:induction false} MultipleSum(x: int, y: int, d: int)
    requires d > 0 && x % d == 0 && y % d == 0
    ensures (x + y) % d == 0 && (x - y) % d == 0
  {
    var a, b := x / d, y / d;
    assert x + y == d * (a + b) + 0 && x - y == d * (a - b) + 0;
    DivUnique(x + y, d, a + b, 0);
    DivUnique(x - y, d, a - b, 0);
  }

  lemma {:induction false} MultipleOfMultiple(x: int, d: int, e: int)
    requires d > 0 && e > 0 && x % e == 0 && e % d == 0
    ensures x % d == 0
  {
    var a, b := x / e, e / d;
    assert x == d * (b * a) + 0 by {
      assert x == e * a && e == d * b;
      MulAssoc(d, b, a);
    }
    DivUnique(x, d, b * a, 0);
  }

  lemma {:induction false} MulAssoc(x: int, y: int, z: int)
    ensures (x * y) * z == x * (y * z)
  {
  }

  /** Between two neighbouring multiples the remainder is the distance from the lower one. */
  lemma {:induction false} ModInBlock(f: int, lo: int, d: int)
    requires d > 0 && lo % d == 0 && lo <= f < lo + d
    ensures f % d == f - lo
  {
    DivUnique(f, d, lo / d, f - lo);
  }

  // ----- powers of two and bits -----

  function Pow2(n: nat): (p: nat)
    ensures p > 0
  {
    if n == 0 then 1 else 2 * Pow2(n - 1)
  }

  predicate Bit(v: nat, k: nat) {
    if k == 0 then v % 2 == 1 else Bit(v / 2, k - 1)
  }

  lemma {:induction false} NoBits(k: nat)
    ensures !Bit(0, k)
  {
    if k > 0 {
      NoBits(k - 1);
    }
  }
}
