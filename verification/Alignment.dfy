/** Rounding offsets up to a power of two: the mask form and the arithmetic it stands for. */
module Alignment {
  import opened Arithmetic
  import opened Bits

  const SIZE_MAX: nat := 0xFFFF_FFFF_FFFF_FFFF

  /** Bitwise x & ~m, digit by binary digit. */
  function AndNot(x: nat, m: nat): nat {
    if x == 0 then 0 else (if x % 2 == 1 && m % 2 == 0 then 1 else 0) + 2 * AndNot(x / 2, m / 2)
  }

  /** The mask form; an offset that rounding would push past the last address becomes the last address. */
  function AlignUp(offset: nat, alignment: nat): nat
    requires alignment > 0
  {
    var mask := alignment - 1;
    if offset + mask > SIZE_MAX then SIZE_MAX else AndNot(offset + mask, mask)
  }

  /** The least multiple of a not below n. */
  function RoundUp(n: nat, a: nat): nat
    requires a > 0
  {
    (n + a - 1) / a * a
  }

  lemma RoundUpBounds(n: nat, a: nat)
    requires a > 0
    ensures RoundUp(n, a) % a == 0 && n <= RoundUp(n, a) < n + a
  {
    var q := (n + a - 1) / a;
    Coordinates(q, 0, a);
    assert n + a - 1 == q * a + (n + a - 1) % a;
  }

  lemma RoundUpLeast(n: nat, a: nat, m: nat)
    requires a > 0 && m >= n && m % a == 0
    ensures RoundUp(n, a) <= m
  {
    RoundUpBounds(n, a);
    var q := (n + a - 1) / a;
    assert m == m / a * a;
    if m / a < q {
      Gap(m / a, q, a);
    } else {
      MulMonotone(q, m / a, a);
    }
  }

  lemma {:induction false} AndNotNothing(x: nat)
    ensures AndNot(x, 0) == x
  {
    if x > 0 {
      AndNotNothing(x / 2);
    }
  }

  lemma HalfQuotient(x: nat, a: nat)
    requires a > 0
    ensures x / 2 / a == x / (2 * a)
  {
    var q := x / (2 * a);
    var r := x % (2 * a);
    assert x == q * (2 * a) + r;
    assert q * (2 * a) == 2 * (q * a);
    assert x / 2 == q * a + r / 2;
    Coordinates(q, r / 2, a);
  }

  lemma AndNotOdd(x: nat, a: nat)
    requires a > 0
    ensures AndNot(x, 2 * a - 1) == 2 * AndNot(x / 2, a - 1)
  {
    assert (2 * a - 1) / 2 == a - 1;
  }

  lemma Regroup(q: nat, a: nat)
    ensures 2 * (q * a) == q * (2 * a)
  {
  }

  /** Clearing the k lowest digits rounds down to a multiple of two to the k. */
  lemma {:induction false} AndNotMask(x: nat, k: nat)
    ensures AndNot(x, Pow2(k) - 1) == x / Pow2(k) * Pow2(k)
    decreases k
  {
    hide AndNot;
    if k == 0 {
      AndNotNothing(x);
    } else {
      var a := Pow2(k - 1);
      AndNotOdd(x, a);
      AndNotMask(x / 2, k - 1);
      HalfQuotient(x, a);
      Regroup(x / (2 * a), a);
    }
  }

  /** The mask trick gives the least aligned offset not below its input, for every power of two. */
  lemma AlignUpIsLeast(offset: nat, k: nat, m: nat)
    ensures offset + Pow2(k) - 1 <= SIZE_MAX ==>
              var r := AlignUp(offset, Pow2(k));
              r == RoundUp(offset, Pow2(k)) && r % Pow2(k) == 0 && offset <= r &&
              (offset <= m && m % Pow2(k) == 0 ==> r <= m)
    ensures offset + Pow2(k) - 1 > SIZE_MAX ==> AlignUp(offset, Pow2(k)) == SIZE_MAX
  {
    hide AndNot, Pow2, RoundUp;
    if offset + Pow2(k) - 1 <= SIZE_MAX {
      AndNotMask(offset + Pow2(k) - 1, k);
      RoundUpIs(offset, Pow2(k));
      RoundUpBounds(offset, Pow2(k));
      if offset <= m && m % Pow2(k) == 0 {
        RoundUpLeast(offset, Pow2(k), m);
      }
    }
  }

  lemma RoundUpIs(n: nat, a: nat)
    requires a > 0
    ensures RoundUp(n, a) == (n + a - 1) / a * a
  {
  }
}
