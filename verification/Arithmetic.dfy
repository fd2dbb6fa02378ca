/** Small facts about products and remainders that the solver does not find by itself. */
module Arithmetic {

  lemma MulMonotone(x: int, y: int, z: int)
    requires x <= y && z >= 0
    ensures x * z <= y * z
  {
  }

  lemma MulSub(x: int, y: int, z: int)
    ensures (x - y) * z == x * z - y * z
  {
  }

  lemma MulAdd(x: int, y: int, z: int)
    ensures (x + y) * z == x * z + y * z
  {
  }

  lemma MulAssociates(x: int, y: int, z: int)
    ensures x * (y * z) == (x * y) * z
  {
  }

  lemma MulCommutes(x: int, y: int)
    ensures x * y == y * x
  {
  }

  lemma Multiple(x: int, b: int)
    requires b != 0 && x % b == 0
    ensures x == (x / b) * b
  {
  }

  /** Quotient and remainder are determined by the decomposition. */
  lemma DivModUnique(x: int, d: int, q: int, r: int)
    requires d > 0 && 0 <= r < d && x == q * d + r
    ensures x % d == r && x / d == q
  {
    var q', r' := x / d, x % d;
    assert x == q' * d + r';
    MulSub(q, q', d);
    if q > q' {
      MulMonotone(1, q - q', d);
    } else if q < q' {
      MulMonotone(q - q', -1, d);
    }
  }

  /** Comparing multiples of a positive number compares the factors. */
  lemma Unscale(x: int, y: int, b: int)
    requires b > 0
    ensures x * b < y * b <==> x < y
    ensures x * b <= y * b <==> x <= y
  {
    if x < y {
      MulSub(y, x, b);
      MulMonotone(1, y - x, b);
    } else {
      MulMonotone(y, x, b);
      if x > y {
        MulSub(x, y, b);
        MulMonotone(1, x - y, b);
      }
    }
  }
}
