/** Single-precision addition on 32-bit words, as crypt.c rebuilds it. */
module SoftFloatSum {
  import opened Powers
  import opened SoftFloat

  // ----- the sum in closed form

  /** Does the second operand have the larger magnitude? */
  predicate Swaps(a: nat, b: nat) { Expo(a) < Expo(b) || (Expo(a) == Expo(b) && Mant(a) < Mant(b)) }

  /** The significand of the smaller operand, shifted to the exponent of the larger. */
  function Aligned(y: nat, d: nat): nat { Quotient(Mant(y), Exp2(d)) }

  /** The significand of the sum before it is normalised. */
  function RawSum(x: nat, y: nat): int
    requires Expo(x) >= Expo(y)
  {
    var t := Aligned(y, Expo(x) - Expo(y));
    if Sign(x) == Sign(y) then Mant(x) + t else Mant(x) - t
  }

  /** The loop that shifts up: it gives zero when the exponent runs out first. */
  function Raised(v: nat, e: nat): (nat, nat)
    requires v > 0
    decreases e
  {
    if v >= TWO_23 then (v, e) else if e == 0 then (TWO_23, 0) else Raised(2 * v, e - 1)
  }

  /** A sum whose first operand has the larger magnitude, neither being zero. */
  function OrderedSum(x: nat, y: nat): nat
    requires Expo(x) >= Expo(y)
  {
    if Expo(x) - Expo(y) >= 24 || Expo(x) == 255 then x
    else
      var v := RawSum(x, y);
      if v <= 0 then 0
      else if v >= TWO_24 then Compose(Sign(x), Expo(x) + 1, v / 2 % TWO_23)
      else
        var (m, e) := Raised(v, Expo(x));
        Compose(Sign(x), e, m % TWO_23)
  }

  /** sub_3a62c9 in closed form. */
  function Sum(a: nat, b: nat): nat {
    if Expo(a) == 0 then b
    else if Expo(b) == 0 then a
    else if Swaps(a, b) then OrderedSum(b, a)
    else OrderedSum(a, b)
  }

  /** sub_3a65b1. */
  function Difference(a: nat, b: nat): nat
    requires b < WORD
  {
    Sum(a, Negated(b))
  }

  // ----- alignment

  lemma QuotientBounds(m: nat, p: nat)
    requires p >= 1
    ensures Times(Quotient(m, p), p) <= m < Times(Quotient(m, p) + 1, p) && Quotient(m, p) <= m
  {
    hide Times;
    var q := m / p;
    Remainder(m, p);
    OneMore(q, p);
    TimesBound(q, q, 1, p);
  }

  lemma Remainder(m: nat, p: nat)
    requires p >= 1
    ensures Times(m / p, p) <= m < Times(m / p, p) + p
  {
    assert m == m / p * p + m % p;
  }

  lemma OneMore(q: nat, p: nat)
    ensures Times(q + 1, p) == Times(q, p) + p && Times(q, 1) == q
  {
  }

  lemma AlignedBounds(x: nat, y: nat)
    requires Expo(x) >= Expo(y) && !Swaps(x, y)
    ensures 0 <= Aligned(y, Expo(x) - Expo(y)) < TWO_24
    ensures Aligned(y, Expo(x) - Expo(y)) <= Mant(x)
  {
    hide Quotient, Exp2, Expo, Mant;
    MantIsNormal(x);
    MantIsNormal(y);
    var d := Expo(x) - Expo(y);
    QuotientBounds(Mant(y), Exp2(d));
    if d > 0 {
      Exp2Monotone(1, d);
      Exp2One();
      Halved(Mant(y), Exp2(d));
    }
  }

  lemma Exp2One()
    ensures Exp2(1) == 2 && Exp2(0) == 1
  {
  }

  lemma Halved(m: nat, p: nat)
    requires p >= 2 && m < TWO_24
    ensures Quotient(m, p) < TWO_23
  {
    var q := m / p;
    assert q * p <= m;
    assert q * 2 <= q * p;
  }

  /** The larger significand never falls below the smaller one, so no difference wraps. */
  lemma RawSumFits(x: nat, y: nat)
    requires Expo(x) >= Expo(y) && !Swaps(x, y)
    ensures 0 <= RawSum(x, y) < 2 * TWO_24
    ensures Sign(x) != Sign(y) ==> RawSum(x, y) < TWO_24
    ensures Sign(x) == Sign(y) ==> RawSum(x, y) >= TWO_23
  {
    hide Aligned, Expo, Mant, Sign;
    MantIsNormal(x);
    AlignedBounds(x, y);
  }

  lemma {:induction false} RaisedIs(v: nat, e: nat)
    requires 0 < v < TWO_24
    ensures Normal(Raised(v, e).0) && Raised(v, e).1 <= e
    decreases e
  {
    if v < TWO_23 && e > 0 {
      RaisedIs(2 * v, e - 1);
    }
  }

  // ----- the addition in place

  /** The shifting loops of sub_3a62c9 and the word they end in. */
  method Normalise(s: nat, e0: nat, v0: nat) returns (r: nat)
    requires s < 2 && 1 <= e0 <= 254 && 0 < v0 < 2 * TWO_24
    ensures r == if v0 >= TWO_24 then Compose(s, e0 + 1, v0 / 2 % TWO_23)
                 else Compose(s, Raised(v0, e0).1, Raised(v0, e0).0 % TWO_23)
  {
    var e, v := e0, v0;
    if v >= TWO_23 {
      while v >= TWO_24
        invariant (v == v0 && e == e0) || (v0 >= TWO_24 && v == v0 / 2 && e == e0 + 1)
        decreases v
      {
        // An exponent never reaches the C code's test against 0x7ff.
        v := v / 2;
        e := e + 1;
      }
    } else {
      while v < TWO_23
        invariant 0 < v < TWO_24 && Raised(v, e) == Raised(v0, e0)
        decreases e
      {
        if e <= 0 {
          return s * TWO_31;
        }
        v := 2 * v;
        e := e - 1;
      }
    }
    return (s * 256 + e) * TWO_23 + v % TWO_23;
  }

  /** sub_3a62c9. */
  method Add(a: nat, b: nat) returns (r: nat)
    requires a < WORD && b < WORD
    ensures r == Sum(a, b)
  {
    hide Aligned, Expo, Sign, Mant, Raised, Quotient, Exp2;
    FieldsCompose(a);
    FieldsCompose(b);
    if Expo(a) == 0 {
      return b;
    }
    if Expo(b) == 0 {
      return a;
    }
    var x, y := a, b;
    if Expo(a) - Expo(b) < 0 || (Expo(a) == Expo(b) && Mant(a) < Mant(b)) {
      x, y := b, a;
    }
    var d := Expo(x) - Expo(y);
    if d >= 0x18 || Expo(x) == 0xff {
      return x;
    }
    AlignedIs(y, d);
    AlignedBounds(x, y);
    MantIsNormal(x);
    RawSumFits(x, y);
    var small := Quotient(Mant(y), Exp2(d));
    if Sign(x) != Sign(y) {
      small := WrapWord(WORD - small);
    }
    var big := WrapWord(Mant(x) + small);
    WrapSum(Mant(x), Aligned(y, d), Sign(x) == Sign(y));
    assert big == RawSum(x, y);
    if big == 0 {
      return 0;
    }
    r := Normalise(Sign(x), Expo(x), big);
  }

  function WrapWord(x: nat): nat { x % WORD }

  lemma AlignedIs(y: nat, d: nat)
    ensures Aligned(y, d) == Quotient(Mant(y), Exp2(d))
  {
  }

  lemma WrapSum(m: nat, t: nat, same: bool)
    requires m < TWO_24 && t <= m
    ensures if same then WrapWord(m + t) == m + t else WrapWord(m + WrapWord(WORD - t)) == m - t
  {
  }

  // ----- how close the sum is

  /** n units of weight u. */
  function Weighted(n: int, u: real): real { n as real * u }

  lemma WeightedLess(n: int, m: int, u: real)
    requires n <= m && u > 0.0
    ensures Weighted(n, u) <= Weighted(m, u)
    ensures n < m ==> Weighted(n, u) < Weighted(m, u)
  {
    MulReal(n as real, m as real, u);
    if n < m {
      MulRealStrict(n as real, m as real, u);
    }
  }

  lemma WeightedAdd(n: int, m: int, u: real)
    ensures Weighted(n + m, u) == Weighted(n, u) + Weighted(m, u) && Weighted(1, u) == u
  {
    assert (n + m) as real == n as real + m as real;
  }

  lemma WeightedDouble(n: int, u: real)
    ensures Weighted(n, 2.0 * u) == Weighted(2 * n, u)
  {
    assert (2 * n) as real == 2.0 * n as real;
  }

  lemma WeightedTimes(n: nat, p: nat, u: real)
    ensures Weighted(n, Weighted(p, u)) == Weighted(Times(n, p), u)
  {
    TimesReal(n, p);
    assert n as real * (p as real * u) == (n as real * p as real) * u;
  }

  lemma MagnitudeWeighs(a: nat)
    ensures Magnitude(a) == Weighted(Mant(a), LastPlace(a)) && LastPlace(a) > 0.0
  {
    Pow2Step(Expo(a) - 150);
  }

  /** The last place of the larger exponent in units of the smaller one's. */
  lemma LastPlaceShift(x: nat, y: nat)
    requires Expo(x) >= Expo(y)
    ensures LastPlace(x) == Weighted(Exp2(Expo(x) - Expo(y)), LastPlace(y))
  {
    hide Pow2, Exp2, Expo;
    var d := Expo(x) - Expo(y);
    Exp2IsPow2(d);
    Pow2Add(Expo(y) - 150, d);
    assert Expo(y) - 150 + d == Expo(x) - 150;
  }

  /** The operand shifted down, in units of the larger one's last place. */
  lemma AlignedIsClose(x: nat, y: nat)
    requires Expo(x) >= Expo(y)
    ensures var t, u := Aligned(y, Expo(x) - Expo(y)), LastPlace(x);
            && Weighted(t, u) <= Magnitude(y) < Weighted(t + 1, u)
            && (Expo(x) == Expo(y) ==> Magnitude(y) == Weighted(t, u))
  {
    hide Weighted, LastPlace, Exp2, Quotient, Magnitude, Expo, Mant, Times;
    var d: nat := Expo(x) - Expo(y);
    var m, p, q := Mant(y), Exp2(d), LastPlace(y);
    MagnitudeWeighs(y);
    QuotientBounds(m, p);
    LastPlaceShift(x, y);
    var t := Aligned(y, d);
    WeightedLess(Times(t, p), m, q);
    WeightedLess(m, Times(t + 1, p), q);
    WeightedTimes(t, p, q);
    WeightedTimes(t + 1, p, q);
    if d == 0 {
      Unshifted(m);
      Exp2One();
      WeightedAdd(0, 1, q);
    }
  }

  lemma Unshifted(m: nat)
    ensures Quotient(m, Exp2(0)) == m
  {
  }

  /** An operand 24 or more binary places below the other is less than its last place. */
  lemma FarIsSmall(x: nat, y: nat)
    requires Expo(x) - Expo(y) >= 24
    ensures 0.0 < Magnitude(y) < LastPlace(x)
  {
    hide Weighted, LastPlace, Exp2, Magnitude, Expo, Mant;
    MagnitudeWeighs(y);
    MantIsNormal(y);
    var d: nat := Expo(x) - Expo(y);
    WeightedLess(0, Mant(y), LastPlace(y));
    WeightedLess(Mant(y), TWO_24, LastPlace(y));
    WeightedZero(LastPlace(y));
    LastPlaceShift(x, y);
    Exp2Monotone(24, d);
    Exp2Constants();
    WeightedTimes(1, Exp2(d), LastPlace(y));
    TimesOne(Exp2(d));
    WeightedLess(TWO_24, Exp2(d), LastPlace(y));
    WeightedAdd(0, 1, LastPlace(x));
  }

  lemma WeightedZero(u: real)
    ensures Weighted(0, u) == 0.0
  {
  }

  lemma TimesOne(x: nat)
    ensures Times(1, x) == x
  {
  }

  /** The fields of a normalised sum. */
  lemma OrderedFields(x: nat, y: nat)
    requires Ordinary(x) && Ordinary(y) && Expo(x) >= Expo(y) && !Swaps(x, y)
    requires Expo(x) - Expo(y) < 24 && RawSum(x, y) > 0
    ensures var v, r := RawSum(x, y), OrderedSum(x, y);
            && r < WORD && Sign(r) == Sign(x)
            && (v >= TWO_24 ==> Expo(r) == Expo(x) + 1 && Mant(r) == v / 2)
            && (v < TWO_24 ==> Expo(r) == Raised(v, Expo(x)).1 && Mant(r) == Raised(v, Expo(x)).0)
  {
    hide RawSum, Raised, Expo, Sign, Frac, Compose;
    RawSumFits(x, y);
    var v := RawSum(x, y);
    FieldsCompose(x);
    if v >= TWO_24 {
      Fields(Sign(x), Expo(x) + 1, v / 2 - TWO_23);
    } else {
      RaisedIs(v, Expo(x));
      Fields(Sign(x), Raised(v, Expo(x)).1, Raised(v, Expo(x)).0 - TWO_23);
    }
  }

  /** Operands of one sign, the larger first. */
  lemma OrderedSameSign(x: nat, y: nat)
    requires Ordinary(x) && Ordinary(y) && Expo(x) >= Expo(y) && !Swaps(x, y) && Sign(x) == Sign(y)
    requires Ordinary(OrderedSum(x, y))
    ensures var r := OrderedSum(x, y);
            Sign(r) == Sign(x) && Magnitude(r) <= Magnitude(x) + Magnitude(y) < Magnitude(r) + LastPlace(r)
  {
    hide Weighted, Pow2, Magnitude, Expo, Mant, Sign, RawSum, OrderedSum, Aligned, Raised;
    var r, u := OrderedSum(x, y), LastPlace(x);
    MagnitudeWeighs(x);
    MagnitudeWeighs(r);
    if Expo(x) - Expo(y) >= 24 {
      FarIsSmall(x, y);
      assert r == x by { FarSum(x, y); }
    } else {
      var v, t := RawSum(x, y), Aligned(y, Expo(x) - Expo(y));
      RawSumFits(x, y);
      OrderedFields(x, y);
      RawSumIs(x, y);
      AlignedIsClose(x, y);
      WeightedAdd(Mant(x), t, u);
      WeightedAdd(Mant(x), t + 1, u);
      if v >= TWO_24 {
        Pow2Step(Expo(x) - 150);
        WeightedDouble(v / 2, u);
        WeightedDouble(v / 2 + 1, u);
        WeightedAdd(v / 2, 1, 2.0 * u);
        WeightedLess(2 * (v / 2), v, u);
        WeightedLess(v + 1, 2 * (v / 2 + 1), u);
      } else {
        RaisedNormal(v, Expo(x));
        WeightedAdd(v, 1, u);
      }
    }
  }

  lemma FarSum(x: nat, y: nat)
    requires Expo(x) - Expo(y) >= 24
    ensures OrderedSum(x, y) == x
  {
  }

  lemma RawSumIs(x: nat, y: nat)
    requires Expo(x) >= Expo(y)
    ensures var t := Aligned(y, Expo(x) - Expo(y));
            RawSum(x, y) == if Sign(x) == Sign(y) then Mant(x) + t else Mant(x) - t
  {
  }

  lemma RaisedNormal(v: nat, e: nat)
    requires Normal(v)
    ensures Raised(v, e) == (v, e)
  {
  }

  /** Shifting up is exact while the exponent lasts. */
  lemma {:induction false} RaisedIsExact(v: nat, e: nat)
    requires 0 < v < TWO_24
    ensures var (m, f) := Raised(v, e);
            && (f > 0 ==> m as real * Pow2(f - 150) == v as real * Pow2(e - 150))
            && (f == 0 ==> v as real * Pow2(e - 150) < Pow2(-126))
    decreases e
  {
    hide Pow2;
    if v < TWO_23 {
      if e == 0 {
        SmallestOrdinary(v);
      } else {
        RaisedIsExact(2 * v, e - 1);
        assert e - 1 - 150 == e - 151;
        DoubledUnit(v, e - 151);
      }
    } else if e == 0 {
      SmallestOrdinary(v);
    }
  }

  lemma DoubledUnit(v: nat, n: int)
    ensures (2 * v) as real * Pow2(n) == v as real * Pow2(n + 1)
  {
    hide Pow2;
    Pow2Step(n);
    assert (2 * v) as real == 2.0 * v as real;
    assert (2.0 * v as real) * Pow2(n) == v as real * (2.0 * Pow2(n));
  }

  lemma SmallestOrdinary(v: nat)
    requires v < TWO_24
    ensures v as real * Pow2(-150) < Pow2(-126)
  {
    hide Pow2;
    Pow2Step(-150);
    Exp2IsPow2(24);
    Exp2Constants();
    Pow2Add(-150, 24);
    MulRealStrict(v as real, TWO_24 as real, Pow2(-150));
  }

  /** Operands of different signs, the larger first. */
  lemma OrderedOppositeSign(x: nat, y: nat)
    requires Ordinary(x) && Ordinary(y) && Expo(x) >= Expo(y) && !Swaps(x, y) && Sign(x) != Sign(y)
    ensures var r, d := OrderedSum(x, y), Magnitude(x) - Magnitude(y);
            && (Expo(r) == 0 ==> d < Pow2(-126))
            && (Expo(r) != 0 ==> Ordinary(r) && Sign(r) == Sign(x) && d <= Magnitude(r) < d + LastPlace(x))
            && (Expo(r) != 0 && Expo(x) == Expo(y) ==> Magnitude(r) == d)
  {
    hide Pow2, Magnitude, Expo, Mant, Sign, RawSum, OrderedSum, Raised, LastPlace;
    if Expo(x) - Expo(y) >= 24 {
      FarIsSmall(x, y);
      FarSum(x, y);
    } else {
      RawSumFits(x, y);
      DifferenceWeighs(x, y);
      if RawSum(x, y) == 0 {
        Cancelled(x, y);
        WeightedZero(LastPlace(x));
        Pow2Step(-126);
      } else {
        OrderedWeighs(x, y);
      }
    }
  }

  /** The exact difference, in units of the larger operand's last place. */
  lemma DifferenceWeighs(x: nat, y: nat)
    requires Expo(x) >= Expo(y) && Sign(x) != Sign(y)
    ensures var v, u, d := RawSum(x, y), LastPlace(x), Magnitude(x) - Magnitude(y);
            && d <= Weighted(v, u) < d + u && u > 0.0 && (Expo(x) == Expo(y) ==> d == Weighted(v, u))
  {
    hide Weighted, Pow2, Magnitude, Expo, Mant, Sign, RawSum, Aligned, LastPlace;
    var v, t, u := RawSum(x, y), Aligned(y, Expo(x) - Expo(y)), LastPlace(x);
    MagnitudeWeighs(x);
    RawSumIs(x, y);
    AlignedIsClose(x, y);
    WeightedAdd(v, t, u);
    WeightedAdd(t, 1, u);
  }

  /** What is not cancelled is shifted up exactly, or was below the smallest ordinary word. */
  lemma OrderedWeighs(x: nat, y: nat)
    requires Ordinary(x) && Ordinary(y) && Expo(x) >= Expo(y) && !Swaps(x, y) && Sign(x) != Sign(y)
    requires Expo(x) - Expo(y) < 24 && RawSum(x, y) > 0
    ensures var r, w := OrderedSum(x, y), Weighted(RawSum(x, y), LastPlace(x));
            && (Expo(r) == 0 ==> w < Pow2(-126))
            && (Expo(r) != 0 ==> Ordinary(r) && Sign(r) == Sign(x) && Magnitude(r) == w)
  {
    hide Pow2, Expo, Mant, Sign, RawSum, OrderedSum, Raised;
    var r, v := OrderedSum(x, y), RawSum(x, y);
    RawSumFits(x, y);
    OrderedFields(x, y);
    RaisedIs(v, Expo(x));
    RaisedIsExact(v, Expo(x));
  }

  lemma Cancelled(x: nat, y: nat)
    requires Expo(x) >= Expo(y) && Expo(x) - Expo(y) < 24 && Expo(x) != 255 && RawSum(x, y) == 0
    ensures OrderedSum(x, y) == 0 && Expo(0) == 0
  {
  }

  // ----- laws

  /** When the exponent of a sum overflows, the larger operand first. */
  lemma OrderedOverflows(x: nat, y: nat)
    requires Ordinary(x) && Ordinary(y) && Expo(x) >= Expo(y) && !Swaps(x, y) && Expo(x) - Expo(y) < 24
    ensures Expo(OrderedSum(x, y)) == 255 <==> Expo(x) == 254 && RawSum(x, y) >= TWO_24
    ensures Expo(OrderedSum(x, y)) == 255 ==> Frac(OrderedSum(x, y)) == RawSum(x, y) / 2 - TWO_23
  {
    hide RawSum, Expo, Mant, OrderedSum, Raised;
    RawSumFits(x, y);
    if RawSum(x, y) == 0 {
      Cancelled(x, y);
    } else {
      OrderedFields(x, y);
      MantIs(OrderedSum(x, y));
      if RawSum(x, y) < TWO_24 {
        RaisedIs(RawSum(x, y), Expo(x));
      }
    }
  }

  /** An operand 24 or more binary places below the other leaves no trace in the significand. */
  lemma FarLeavesNoTrace(x: nat, y: nat)
    requires Expo(x) - Expo(y) >= 24
    ensures RawSum(x, y) == Mant(x)
  {
    hide Expo, Mant, Sign, Exp2;
    var d := Expo(x) - Expo(y);
    MantIsNormal(y);
    Exp2Monotone(24, d);
    Exp2Constants();
    SmallQuotient(Mant(y), Exp2(d));
  }

  lemma SmallQuotient(m: nat, p: nat)
    requires m < p
    ensures Quotient(m, p) == 0
  {
  }

  /** The operand of larger magnitude, and the other. */
  function Larger(a: nat, b: nat): nat { if Swaps(a, b) then b else a }

  function Smaller(a: nat, b: nat): nat { if Swaps(a, b) then a else b }

  lemma SumIsOrdered(a: nat, b: nat)
    requires Ordinary(a) && Ordinary(b)
    ensures var x, y := Larger(a, b), Smaller(a, b);
            Expo(x) >= Expo(y) && !Swaps(x, y) && Sum(a, b) == OrderedSum(x, y)
  {
  }

  /** Operands of one sign: unless its exponent overflows, the sum is never above the exact sum in
      magnitude and falls short of it by less than one unit of its last place. */
  lemma SameSignBound(a: nat, b: nat)
    requires Ordinary(a) && Ordinary(b) && Sign(a) == Sign(b)
    ensures var r := Sum(a, b);
            Expo(r) == 255
            || (Ordinary(r) && Sign(r) == Sign(a)
                && Magnitude(r) <= Magnitude(a) + Magnitude(b) < Magnitude(r) + LastPlace(r))
  {
    hide Magnitude, LastPlace, Expo, Sign, Swaps, OrderedSum;
    SumIsOrdered(a, b);
    OrderedStaysNormal(Larger(a, b), Smaller(a, b));
    if Expo(Sum(a, b)) != 255 {
      OrderedSameSign(Larger(a, b), Smaller(a, b));
    }
  }

  lemma OrderedStaysNormal(x: nat, y: nat)
    requires Ordinary(x) && Ordinary(y) && Expo(x) >= Expo(y) && !Swaps(x, y) && Sign(x) == Sign(y)
    ensures Ordinary(OrderedSum(x, y)) || Expo(OrderedSum(x, y)) == 255
  {
    hide Expo, Sign, Mant, RawSum, OrderedSum, Raised, Swaps;
    if Expo(x) - Expo(y) >= 24 {
      FarSum(x, y);
    } else {
      RawSumFits(x, y);
      OrderedFields(x, y);
      if RawSum(x, y) < TWO_24 {
        RaisedNormal(RawSum(x, y), Expo(x));
      }
    }
  }

  /** Operands of different signs: an ordinary sum has the sign of the larger one and is never below
      the exact difference of the magnitudes, nor above it by as much as the last place of the
      larger operand; operands of one exponent are subtracted exactly. Where the exponent runs out,
      the exact difference was below the smallest ordinary word. */
  lemma OppositeSignBound(a: nat, b: nat)
    requires Ordinary(a) && Ordinary(b) && Sign(a) != Sign(b)
    ensures var r, x, d := Sum(a, b), Larger(a, b), Magnitude(Larger(a, b)) - Magnitude(Smaller(a, b));
            && (Expo(r) == 0 ==> d < Pow2(-126))
            && (Expo(r) != 0 ==> Ordinary(r) && Sign(r) == Sign(x) && d <= Magnitude(r) < d + LastPlace(x))
            && (Expo(r) != 0 && Expo(a) == Expo(b) ==> Magnitude(r) == d)
  {
    hide Magnitude, LastPlace, Expo, Sign, Swaps, OrderedSum, Pow2;
    SumIsOrdered(a, b);
    OrderedOppositeSign(Larger(a, b), Smaller(a, b));
  }

  /** The larger magnitude is the larger one. */
  lemma LargerIsLarger(a: nat, b: nat)
    requires Ordinary(a) && Ordinary(b)
    ensures Magnitude(Larger(a, b)) >= Magnitude(Smaller(a, b))
  {
    hide Weighted, Pow2, Expo, Mant, Magnitude, LastPlace, Aligned;
    SumIsOrdered(a, b);
    var x, y := Larger(a, b), Smaller(a, b);
    MagnitudeWeighs(x);
    MagnitudeWeighs(y);
    AlignedIsClose(x, y);
    AlignedBounds(x, y);
    var t := Aligned(y, Expo(x) - Expo(y));
    WeightedLess(t, Mant(x), LastPlace(x));
    if t < Mant(x) {
      WeightedLess(t + 1, Mant(x), LastPlace(x));
    } else {
      FullyAligned(x, y);
    }
  }

  lemma FullyAligned(x: nat, y: nat)
    requires Expo(x) >= Expo(y) && Aligned(y, Expo(x) - Expo(y)) >= Mant(x)
    ensures Expo(x) == Expo(y)
  {
    hide Expo, Mant, Exp2, Quotient;
    MantIsNormal(x);
    MantIsNormal(y);
    var d := Expo(x) - Expo(y);
    if d > 0 {
      Exp2Monotone(1, d);
      Exp2One();
      Halved(Mant(y), Exp2(d));
    }
  }

  /** The exponent of a sum overflows exactly when the largest exponent carries; the result then
      keeps its fraction, it is not the saturated word that a product gives. */
  lemma SumOverflowsIff(a: nat, b: nat)
    requires Ordinary(a) && Ordinary(b)
    ensures var x, y := Larger(a, b), Smaller(a, b);
            && Expo(x) >= Expo(y)
            && (Expo(Sum(a, b)) == 255 <==> Expo(x) == 254 && RawSum(x, y) >= TWO_24)
            && (Expo(Sum(a, b)) == 255 ==> Frac(Sum(a, b)) == RawSum(x, y) / 2 - TWO_23)
  {
    hide Expo, Sign, Swaps, RawSum, OrderedSum;
    SumIsOrdered(a, b);
    var x, y := Larger(a, b), Smaller(a, b);
    if Expo(x) - Expo(y) >= 24 {
      FarSum(x, y);
      FarLeavesNoTrace(x, y);
      MantIsNormal(x);
    } else {
      OrderedOverflows(x, y);
    }
  }

  /** The largest power of two doubled is an infinity, and the largest word doubled is not a number. */
  lemma LargestDoubled()
    ensures Sum(0x7f00_0000, 0x7f00_0000) == 0x7f80_0000 && Sum(0x7f7f_ffff, 0x7f7f_ffff) == 0x7fff_ffff
  {
    hide Raised, Quotient;
    AlignedSame(0x7f00_0000);
    AlignedSame(0x7f7f_ffff);
  }

  lemma MantIs(a: nat)
    ensures Mant(a) == TWO_23 + Frac(a)
  {
  }

  lemma SameFields(a: nat, b: nat)
    requires a < WORD && b < WORD && Expo(a) == Expo(b) && Frac(a) == Frac(b)
    ensures Sign(a) == Sign(b) <==> a == b
  {
    FieldsCompose(a);
    FieldsCompose(b);
  }

  /** Exactly when the order of the operands does not matter: two zeros, and two infinities or
      not-a-numbers that differ in sign only, give their second and their first. */
  lemma SumCommutesIff(a: nat, b: nat)
    requires a < WORD && b < WORD
    ensures Sum(a, b) == Sum(b, a) <==>
            a == b || !((Expo(a) == 0 && Expo(b) == 0) || (Expo(a) == 255 && Expo(b) == 255 && Frac(a) == Frac(b)))
  {
    hide Expo, Frac, Sign, Aligned, Raised;
    if Expo(a) == Expo(b) && Frac(a) == Frac(b) && Expo(a) != 0 {
      SameFields(a, b);
      AlignedSame(a);
      AlignedSame(b);
    }
  }

  lemma AlignedSame(a: nat)
    ensures Aligned(a, 0) == Mant(a)
  {
    Unshifted(Mant(a));
  }

  /** An ordinary word less itself is zero. */
  lemma DifferenceOfEqual(a: nat)
    requires Ordinary(a)
    ensures Difference(a, a) == 0
  {
    hide Expo, Frac, Sign, Aligned, Negated;
    NegatedFields(a);
    MantIs(a);
    MantIs(Negated(a));
    AlignedSame(Negated(a));
  }

  /** Sums that are not of two ordinary words: zeros add nothing, an infinity or a not-a-number wins,
      by its fraction or as the first of two; and so does a word 2^24 times the other. */
  lemma SumElsewhere(a: nat, b: nat)
    requires a < WORD && b < WORD
    ensures Expo(a) == 0 ==> Sum(a, b) == b
    ensures Expo(b) == 0 && Expo(a) != 0 ==> Sum(a, b) == a
    ensures Expo(a) == 255 && 0 < Expo(b) < 255 ==> Sum(a, b) == a
    ensures Expo(b) == 255 && 0 < Expo(a) < 255 ==> Sum(a, b) == b
    ensures Expo(a) == 255 && Expo(b) == 255 ==> Sum(a, b) == if Frac(b) > Frac(a) then b else a
    ensures Expo(b) > 0 && Expo(a) >= Expo(b) + 24 ==> Sum(a, b) == a
    ensures Expo(a) > 0 && Expo(b) >= Expo(a) + 24 ==> Sum(a, b) == b
  {
    hide RawSum, Raised, Sign;
  }

  /** A difference is the sum with the second operand negated, and that undoes a negation. */
  lemma DifferenceNegates(a: nat, b: nat)
    requires a < WORD && b < WORD
    ensures b < TWO_31 ==> Difference(a, b) == Sum(a, b + TWO_31)
    ensures b >= TWO_31 ==> Difference(a, b) == Sum(a, b - TWO_31)
  {
    hide Sum;
  }
}
