/**
 * Decimal trait values and the 18-decimal fixed-point scaling that ethers'
 * `parseUnits(_, 18)` and `formatUnits(_, 18)` perform.
 *
 * A trait is written in the store as a decimal number such as "2.5". It is
 * modelled by its value, `digits * 10^-places`. "2.5" and "2.50" are two
 * representations of the same value; `SameValue` relates them.
 */
module FixedPoint {
  import opened Wrappers

  /** The number of decimals used by every scaling in the service. */
  const Decimals: nat := 18

  function Pow10(n: nat): (r: nat)
    ensures r >= 1
  {
    if n == 0 then 1 else 10 * Pow10(n - 1)
  }

  /** A non-negative decimal number: `digits * 10^-places`. */
  datatype Decimal = Decimal(digits: nat, places: nat)

  /** Two decimals denote the same number. */
  predicate SameValue(a: Decimal, b: Decimal) {
    a.digits * Pow10(b.places) == b.digits * Pow10(a.places)
  }

  /** The decimal has at most 18 significant fractional digits, so it scales exactly. */
  predicate Representable(d: Decimal) {
    (d.digits * Pow10(Decimals)) % Pow10(d.places) == 0
  }

  lemma {:induction false} Pow10Add(a: nat, b: nat)
    ensures Pow10(a + b) == Pow10(a) * Pow10(b)
    decreases a
  {
    if a > 0 {
      Pow10Add(a - 1, b);
      assert Pow10(a + b) == 10 * Pow10(a - 1 + b);
    }
  }

  lemma MultipleMod(k: nat, m: nat)
    requires m > 0
    ensures (k * m) % m == 0
  {
    ModUnique(k * m, m, k, 0);
  }

  /** Division with remainder has exactly one answer. */
  lemma ModUnique(a: nat, m: nat, q: nat, rem: nat)
    requires m > 0 && rem < m && a == q * m + rem
    ensures a % m == rem && a / m == q
  {
    var q', r' := a / m, a % m;
    assert a == q' * m + r';
    if q' > q {
      var k := q' - q;
      assert q' * m == q * m + k * m;
      AtLeastFactor(k, m);
    } else if q' < q {
      var k := q - q';
      assert q * m == q' * m + k * m;
      AtLeastFactor(k, m);
    }
  }

  lemma AtLeastFactor(k: nat, m: nat)
    requires k >= 1
    ensures k * m >= m
  {
    assert k * m == (k - 1) * m + m;
  }

  /** Scaling numerator and divisor by the same factor scales the remainder. */
  lemma ScaledMod(x: nat, k: nat, c: nat)
    requires k > 0 && c > 0
    ensures (x * c) % (k * c) == (x % k) * c
  {
    var q, rem := x / k, x % k;
    assert x == q * k + rem;
    assert x * c == q * (k * c) + rem * c;
    assert rem * c < k * c;
    ModUnique(x * c, k * c, q, rem * c);
  }

  /**
   * `parseUnits(d, 18)`: the decimal scaled by 10^18 as an integer. ethers
   * drops trailing fractional zeros and then throws when more than 18
   * fractional digits remain; `None` is that failure.
   */
  function ParseUnits(d: Decimal): (r: Option<nat>)
    ensures r.Some? <==> Representable(d)
    ensures r.Some? ==> r.value * Pow10(d.places) == d.digits * Pow10(Decimals)
  {
    if d.places <= Decimals then Some(ScaleWithin(d)) else ScaleBeyond(d)
  }

  /** At most 18 fractional digits: fill the fraction up to 18 digits. */
  function ScaleWithin(d: Decimal): (r: nat)
    requires d.places <= Decimals
    ensures Representable(d)
    ensures r * Pow10(d.places) == d.digits * Pow10(Decimals)
  {
    var up := Pow10(Decimals - d.places);
    Pow10Split(Decimals, d.places);
    ScaleUp(d.digits, up, Pow10(d.places), Pow10(Decimals));
    d.digits * up
  }

  /** More than 18 fractional digits: exact only when the extra digits are zeros. */
  function ScaleBeyond(d: Decimal): (r: Option<nat>)
    requires d.places > Decimals
    ensures r.Some? <==> Representable(d)
    ensures r.Some? ==> r.value * Pow10(d.places) == d.digits * Pow10(Decimals)
  {
    var down := Pow10(d.places - Decimals);
    Pow10Split(d.places, Decimals);
    ScaleDown(d.digits, down, Pow10(Decimals), Pow10(d.places));
    if d.digits % down == 0 then Some(d.digits / down) else None
  }

  lemma Pow10Split(total: nat, part: nat)
    requires part <= total
    ensures Pow10(total) == Pow10(total - part) * Pow10(part)
  {
    Pow10Add(total - part, part);
  }

  /** Scaling up by `a` where the full scale is `s == a * p`. */
  lemma ScaleUp(x: nat, a: nat, p: nat, s: nat)
    requires p > 0 && s == a * p
    ensures (x * a) * p == x * s
    ensures (x * s) % p == 0
  {
    MultipleMod(x * a, p);
  }

  /** Scaling down by `e` where the divisor is `p == e * s`. */
  lemma ScaleDown(x: nat, e: nat, s: nat, p: nat)
    requires e > 0 && s > 0 && p == e * s
    ensures (x * s) % p == (x % e) * s
    ensures (x * s) % p == 0 <==> x % e == 0
    ensures x % e == 0 ==> (x / e) * p == x * s
  {
    ScaledMod(x, e, s);
    if x % e != 0 {
      AtLeastFactor(x % e, s);
    } else {
      assert x == (x / e) * e;
    }
  }

  /** Drops trailing fractional zeros, keeping at least one fractional digit. */
  function Trim(d: Decimal): (r: Decimal)
    requires d.places >= 1
    ensures r.places >= 1
    ensures r.places == 1 || r.digits % 10 != 0
    ensures SameValue(r, d)
    decreases d.places
  {
    if d.places > 1 && d.digits % 10 == 0 then
      var shorter := Decimal(d.digits / 10, d.places - 1);
      var r := Trim(shorter);
      assert SameValue(r, d) by {
        assert d.digits == shorter.digits * 10;
        assert Pow10(d.places) == 10 * Pow10(shorter.places);
        calc {
          r.digits * Pow10(d.places);
          r.digits * Pow10(shorter.places) * 10;
          shorter.digits * Pow10(r.places) * 10;
          d.digits * Pow10(r.places);
        }
      }
      r
    else
      d
  }

  /**
   * `formatUnits(v, 18)`: the number v / 10^18 in ethers' rendering, which
   * has no trailing fractional zeros but always at least one fractional
   * digit ("1.0", "2.5").
   */
  function FormatUnits(v: nat): (r: Decimal)
    ensures SameValue(r, Decimal(v, Decimals))
    ensures r.places >= 1 && (r.places == 1 || r.digits % 10 != 0)
  {
    Trim(Decimal(v, Decimals))
  }

  /** Parsing depends only on the value written, not on how it is written. */
  lemma ParseUnitsRespectsValue(a: Decimal, b: Decimal)
    requires SameValue(a, b)
    ensures ParseUnits(a) == ParseUnits(b)
  {
    var ra, rb := ParseUnits(a), ParseUnits(b);
    var pa, pb, s := Pow10(a.places), Pow10(b.places), Pow10(Decimals);
    if ra.Some? {
      ScaledExact(a.digits, b.digits, pa, pb, s, ra.value);
      assert Representable(b);
      assert rb.value * pb == ra.value * pb;
      CancelFactor(rb.value, ra.value, pb);
    } else if rb.Some? {
      ScaledExact(b.digits, a.digits, pb, pa, s, rb.value);
      assert false;
    }
  }

  /**
   * If x/pa == y/pb as rationals and x * s == v * pa, then y * s == v * pb:
   * an exact scaling of one representation is an exact scaling of the other.
   */
  lemma ScaledExact(x: nat, y: nat, pa: nat, pb: nat, s: nat, v: nat)
    requires pa > 0 && pb > 0
    requires x * pb == y * pa
    requires v * pa == x * s
    ensures v * pb == y * s
    ensures (y * s) % pb == 0
  {
    calc {
      (v * pb) * pa;
      == { SwapLast(v, pb, pa); }
      (v * pa) * pb;
      ==
      (x * s) * pb;
      == { SwapLast(x, s, pb); }
      (x * pb) * s;
      ==
      (y * pa) * s;
      == { SwapLast(y, pa, s); }
      (y * s) * pa;
    }
    CancelFactor(v * pb, y * s, pa);
    MultipleMod(v, pb);
  }

  lemma SwapLast(a: nat, b: nat, c: nat)
    ensures (a * b) * c == (a * c) * b
  {
  }

  lemma CancelFactor(x: nat, y: nat, c: nat)
    requires c > 0 && x * c == y * c
    ensures x == y
  {
    if x != y {
      var lo, hi := if x < y then x else y, if x < y then y else x;
      assert hi * c == lo * c + (hi - lo) * c;
      AtLeastFactor(hi - lo, c);
    }
  }

  /**
   * The value a record displays for a chain default scales back to that same
   * default: `parseUnits(formatUnits(v, 18), 18) == v`.
   */
  lemma ParseFormatRoundTrip(v: nat)
    ensures ParseUnits(FormatUnits(v)) == Some(v)
  {
    ParseUnitsRespectsValue(FormatUnits(v), Decimal(v, Decimals));
  }
}
