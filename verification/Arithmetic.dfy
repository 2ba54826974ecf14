/** Products and quotients of natural numbers. */
module Arithmetic {
  lemma MulMonotone(a: nat, b: nat, c: nat, d: nat)
    requires a <= b && c <= d
    ensures a * c <= b * d
  {
    assert a * c <= b * c;
    assert b * c <= b * d;
  }

  /** Fewer copies of something, or the same number of something smaller. */
  lemma ChargedLess(count: nat, copies: nat, once: nat, every: nat)
    requires count > 0 && (copies == count || copies == 1) && once <= every
    ensures copies * once < count * every <==> (copies < count && every > 0) || once < every
  {
    if once < every {
      MulMonotone(copies, count, once, every - 1);
      assert count * every == count * (every - 1) + count;
    } else if copies < count {
      MulMonotone(2, count, every, every);
      assert copies * once == every;
    }
  }

  lemma DivTwice(v: nat, a: nat, b: nat)
    requires a > 0 && b > 0
    ensures v / a / b == v / (a * b)
  {
    var q, r := v / a / b, v / a % b;
    assert v == a * (b * q + r) + v % a;
    assert v == a * b * q + (a * r + v % a);
    assert a * r + v % a < a * b by {
      MulMonotone(a, a, r, b - 1);
    }
    DivUnique(v, a * b, q, a * r + v % a);
  }

  lemma DivUnique(v: nat, d: nat, q: nat, r: nat)
    requires d > 0 && v == d * q + r && r < d
    ensures v / d == q
  {
    var p := v / d;
    assert v == d * p + v % d;
    if p < q {
      MulMonotone(d, d, p + 1, q);
    } else if q < p {
      MulMonotone(d, d, q + 1, p);
    }
  }
}
