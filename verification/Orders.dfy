/** The orders the engine compares with: lexicographic order, and the numeric and total orders
    of IEEE 754 values given by their bit patterns. */
module Orders {
  import opened Arithmetic
  import opened Bits
  import opened Words

  // ----- lexicographic order of byte strings and of bit strings -----

  predicate LexLess(a: seq<bv8>, b: seq<bv8>) {
    b != [] && (a == [] || a[0] < b[0] || (a[0] == b[0] && LexLess(a[1..], b[1..])))
  }

  predicate LexLeq(a: seq<bv8>, b: seq<bv8>) { !LexLess(b, a) }

  lemma ByteTrichotomy(x: bv8, y: bv8)
    ensures !(x < y && y < x) && (x < y || x == y || y < x) && !(x < x)
  {
  }

  /** Exactly one of less, equal and greater. */
  lemma {:induction false} LexTrichotomy(a: seq<bv8>, b: seq<bv8>)
    ensures !(LexLess(a, b) && LexLess(b, a))
    ensures LexLess(a, b) || a == b || LexLess(b, a)
    ensures a == b ==> !LexLess(a, b)
  {
    if a != [] && b != [] {
      ByteTrichotomy(a[0], b[0]);
      LexTrichotomy(a[1..], b[1..]);
      assert a == [a[0]] + a[1..] && b == [b[0]] + b[1..];
    }
  }

  lemma {:induction false} LexTransitive(a: seq<bv8>, b: seq<bv8>, c: seq<bv8>)
    requires LexLess(a, b) && LexLess(b, c)
    ensures LexLess(a, c)
  {
    if a != [] {
      U8Order(a[0], b[0]);
      U8Order(b[0], c[0]);
      U8Order(a[0], c[0]);
      hide U8;
      if a[0] == b[0] == c[0] {
        LexTransitive(a[1..], b[1..], c[1..]);
      }
    }
  }

  /** Less-or-equal composes with less. */
  lemma LexLeqTransitive(a: seq<bv8>, b: seq<bv8>, c: seq<bv8>)
    requires LexLeq(a, b) && LexLeq(b, c)
    ensures LexLeq(a, c)
  {
    hide LexLess;
    LexTrichotomy(a, b);
    LexTrichotomy(b, c);
    LexTrichotomy(a, c);
    if LexLess(c, a) {
      if LexLess(a, b) {
        LexTransitive(c, a, b);
      }
    }
  }

  // ----- IEEE 754 values -----

  /** A binary interchange format: the sign bit's weight, the implicit leading bit's weight and
      the bit pattern of infinity. */
  datatype Format = Format(top: nat, unit: nat, inf: nat)

  const BINARY32 := Format(0x8000_0000, 0x80_0000, 0x7F80_0000)
  const BINARY64 := Format(0x8000_0000_0000_0000, 0x10_0000_0000_0000, 0x7FF0_0000_0000_0000)

  /** The magnitude of a pattern without its sign, in units of the least positive subnormal:
      subnormals count units, normals scale the significand by two to the exponent. */
  function Magnitude(m: nat, unit: nat): nat
    requires unit > 0
  {
    var e, f := m / unit, m % unit;
    if e == 0 then f else (unit + f) * Pow2(e - 1)
  }

  predicate NaN(u: nat, fmt: Format)
    requires fmt.top > 0
  {
    u % fmt.top > fmt.inf
  }

  /** The exact value of a bit pattern, in units of the least positive subnormal. */
  function FloatValue(u: nat, fmt: Format): int
    requires fmt.unit > 0
  {
    if u < fmt.top then Magnitude(u, fmt.unit) else 0 - Magnitude(u - fmt.top, fmt.unit)
  }

  lemma MagnitudeBounds(m: nat, unit: nat)
    requires unit > 0
    ensures var e := m / unit;
            unit * (if e == 0 then 0 else Pow2(e - 1)) <= Magnitude(m, unit) < unit * Pow2(e)
  {
    var e, f := m / unit, m % unit;
    if e > 0 {
      MulMonotone(unit, unit + f, Pow2(e - 1));
      MulStrict(unit + f, 2 * unit, Pow2(e - 1));
      assert 2 * unit * Pow2(e - 1) == unit * Pow2(e);
    }
  }

  /** Larger patterns have strictly larger magnitudes. */
  lemma MagnitudeMonotone(a: nat, b: nat, unit: nat)
    requires unit > 0 && a < b
    ensures Magnitude(a, unit) < Magnitude(b, unit)
  {
    QuotientMonotone(a, b, unit);
    if a / unit == b / unit {
      SameExponent(a / unit, a % unit, b % unit, unit);
    } else {
      MagnitudeBounds(a, unit);
      MagnitudeBounds(b, unit);
      Pow2Monotone(a / unit, b / unit - 1);
      MulMonotone(Pow2(a / unit), Pow2(b / unit - 1), unit);
    }
  }

  lemma SameExponent(e: nat, fa: nat, fb: nat, unit: nat)
    requires fa < fb
    ensures e > 0 ==> (unit + fa) * Pow2(e - 1) < (unit + fb) * Pow2(e - 1)
  {
    if e > 0 {
      MulStrict(unit + fa, unit + fb, Pow2(e - 1));
    }
  }

  lemma QuotientMonotone(a: nat, b: nat, unit: nat)
    requires unit > 0 && a < b
    ensures a / unit <= b / unit
    ensures a / unit == b / unit ==> a % unit < b % unit
  {
    var ea, eb := a / unit, b / unit;
    assert a == ea * unit + a % unit && b == eb * unit + b % unit;
    if eb < ea {
      MulMonotone(eb + 1, ea, unit);
    }
  }

  predicate FloatLess(a: nat, b: nat, fmt: Format)
    requires fmt.top > 0 && fmt.unit > 0
  {
    !NaN(a, fmt) && !NaN(b, fmt) && FloatValue(a, fmt) < FloatValue(b, fmt)
  }

  /** totalOrder of section 5.10 of IEEE 754-2019 on patterns that are not NaN: numeric order,
      and negative zero before positive zero. */
  predicate TotalOrder(a: nat, b: nat, fmt: Format)
    requires fmt.unit > 0
  {
    FloatValue(a, fmt) < FloatValue(b, fmt) ||
    (FloatValue(a, fmt) == FloatValue(b, fmt) && !(a == 0 && b == fmt.top))
  }

  /** Flipping the sign bit of non-negative patterns and every bit of negative ones. */
  function Flipped(u: nat, fmt: Format): int {
    if u < fmt.top then u + fmt.top else 2 * fmt.top - 1 - u
  }

  /** The flipped patterns, compared as unsigned numbers, follow the total order. */
  lemma FlippedTotalOrder(a: nat, b: nat, fmt: Format)
    requires fmt.unit > 0 && a < 2 * fmt.top && b < 2 * fmt.top
    ensures TotalOrder(a, b, fmt) <==> Flipped(a, fmt) <= Flipped(b, fmt)
  {
    var x, y := if a < fmt.top then a else a - fmt.top, if b < fmt.top then b else b - fmt.top;
    assert Magnitude(0, fmt.unit) == 0;
    if x < y { MagnitudeMonotone(x, y, fmt.unit); }
    if y < x { MagnitudeMonotone(y, x, fmt.unit); }
    if 0 < x { MagnitudeMonotone(0, x, fmt.unit); }
    if 0 < y { MagnitudeMonotone(0, y, fmt.unit); }
  }

  /** The flipped patterns sort as the numbers do, except that they separate the two zeros. */
  lemma FlippedNumericOrder(a: nat, b: nat, fmt: Format)
    requires fmt.unit > 0 && a < 2 * fmt.top && b < 2 * fmt.top
    ensures (Flipped(a, fmt) < Flipped(b, fmt) <==> FloatValue(a, fmt) < FloatValue(b, fmt)) <==>
            !(a == fmt.top && b == 0)
  {
    FlippedTotalOrder(b, a, fmt);
    FlippedTotalOrder(a, b, fmt);
    assert Magnitude(0, fmt.unit) == 0;
  }
}
