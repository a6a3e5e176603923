/** Products, quotients and remainders of natural numbers. */
module Arithmetic {

  function Min(a: nat, b: nat): nat { if a < b then a else b }

  /** The two coordinates of position i * w + b. */
  lemma Coordinates(i: nat, b: nat, w: nat)
    requires b < w
    ensures (i * w + b) / w == i && (i * w + b) % w == b
  {
    var k := i * w + b;
    assert k == k / w * w + k % w;
    if k / w < i {
      Gap(k / w, i, w);
    } else if k / w > i {
      Gap(i, k / w, w);
    }
  }

  lemma Gap(q: nat, r: nat, w: nat)
    requires q < r
    ensures q * w + w <= r * w
  {
    assert (q + 1) * w <= r * w;
  }

  lemma Inside(i: nat, n: nat, b: nat, w: nat)
    requires i < n && b < w
    ensures i * w + b < n * w
  {
    Gap(i, n, w);
  }

  lemma Parts(k: nat, n: nat, w: nat)
    requires k < n * w && w > 0
    ensures k / w < n && k % w < w && k == k / w * w + k % w
    ensures n > 0
  {
    if k / w >= n {
      MulMonotone(n, k / w, w);
    }
  }

  lemma MulMonotone(a: nat, b: nat, c: nat)
    requires a <= b
    ensures a * c <= b * c
  {
  }

  lemma MulStrict(a: nat, b: nat, c: nat)
    requires a < b && c > 0
    ensures a * c < b * c
  {
  }

  lemma Positive(k: nat, n: nat, w: nat)
    requires k < n * w
    ensures n > 0 && w > 0
  {
  }

  lemma Commute(n: nat, w: nat)
    ensures n * w == w * n
  {
  }

  lemma Successor(b: nat, n: nat)
    ensures (b + 1) * n == b * n + n
  {
  }
}
