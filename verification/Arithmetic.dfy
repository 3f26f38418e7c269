/** Products and quotients of integers, as far as the other modules need them. */
module Arithmetic {

  lemma MulMonotone(x: int, y: int, k: nat)
    requires x <= y
    ensures x * k <= y * k
  {
  }

  lemma MulStrict(x: int, y: int, k: nat)
    requires x < y
    ensures x * k + k <= y * k
  {
    MulMonotone(x + 1, y, k);
    assert (x + 1) * k == x * k + k;
  }

  lemma DivModUnique(x: int, q: int, r: nat, d: nat)
    requires r < d && x == q * d + r
    ensures x / d == q && x % d == r
  {
    var q' := x / d;
    assert q' * d + x % d == x;
    if q' < q {
      MulStrict(q', q, d);
    } else if q < q' {
      MulStrict(q, q', d);
    }
  }

  lemma DivMonotone(x: nat, y: nat, d: nat)
    requires d > 0 && x <= y
    ensures x / d <= y / d
  {
    assert x == x / d * d + x % d && y == y / d * d + y % d;
    if y / d < x / d {
      MulStrict(y / d, x / d, d);
    }
  }

  /** Positions below n blocks of d: the block and the place in it. */
  lemma BlockOf(i: nat, n: nat, d: nat)
    requires i < n * d
    ensures d > 0 && 0 <= i / d < n && 0 <= i % d < d && i == i / d * d + i % d
  {
    assert d > 0;
    assert i == i / d * d + i % d;
    if i / d >= n {
      MulMonotone(n, i / d, d);
    }
  }

  lemma DivMod(n: nat, d: nat)
    requires d > 0
    ensures n == n / d * d + n % d
  {
  }

  /** The signed number that the lowest bits of x stand for; `half` is the first one that is too large. */
  function Signed(x: int, half: int): int
    requires half > 0
  {
    (x + half) % (2 * half) - half
  }

  lemma AddMultiple(x: int, k: int, w: int)
    requires w > 0
    ensures (x + w * k) % w == x % w
  {
    var q := x / w;
    assert x == w * q + x % w;
    assert x + w * k == (q + k) * w + x % w;
    DivModUnique(x + w * k, q + k, x % w, w);
  }

  /** Wrapping around in between makes no difference to a digit put behind a number. */
  lemma WrapStep(m: int, d: int, w: int)
    requires w > 0
    ensures (m % w * 10 + d) % w == (m * 10 + d) % w
  {
    var k, r := m / w, m % w;
    assert m * 10 + d == (r * 10 + d) + w * (10 * k);
    AddMultiple(r * 10 + d, 10 * k, w);
  }
}
