/** Small facts about multiplication and division, kept apart so that each is proved in a small context. */
module Arith {

  /** One more row adds one more line width. */
  lemma MulSucc(a: nat, c: nat)
    ensures (a + 1) * c == a * c + c
  {
  }

  /** Multiplication distributes over addition. */
  lemma MulAdd(a: nat, b: nat, c: nat)
    ensures (a + b) * c == a * c + b * c
  {
  }

  /** Multiplying by a natural number keeps the order. */
  lemma MulMonotone(a: int, b: int, c: nat)
    ensures a <= b ==> a * c <= b * c
  {
  }

  /** Euclidean division has one quotient and one remainder. */
  lemma DivModUnique(a: int, d: int, q: int, r: int)
    requires d > 0 && 0 <= r < d && a == q * d + r
    ensures a / d == q && a % d == r
  {
    var q', r' := a / d, a % d;
    assert a == q' * d + r' && 0 <= r' < d;
    MulMonotone(q' + 1, q, d);
    MulMonotone(q + 1, q', d);
  }

  /** Halving, then doubling back with the dropped bit, keeps the remainder modulo `2 * m`. */
  lemma ModDouble(a: nat, m: nat)
    requires m >= 1
    ensures a % (2 * m) == 2 * ((a / 2) % m) + a % 2
  {
    var r, q := (a / 2) % m, (a / 2) / m;
    assert a / 2 == q * m + r;
    assert a == q * (2 * m) + (2 * r + a % 2);
    DivModUnique(a, 2 * m, q, 2 * r + a % 2);
  }
}
