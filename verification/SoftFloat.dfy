/** Single-precision arithmetic on 32-bit words, as crypt.c rebuilds it from integer operations:
    multiplication, integer conversion and the table sine. */
module SoftFloat {
  import opened Powers

  const TWO_23: nat := 0x80_0000
  const TWO_24: nat := 0x100_0000
  const TWO_31: nat := 0x8000_0000
  const WORD: nat := 0x1_0000_0000
  const ALL_ONES: nat := 0x7fff_ffff

  // ----- the fields of a word

  function Sign(a: nat): nat { a / TWO_31 % 2 }

  function Expo(a: nat): nat { a / TWO_23 % 256 }

  function Frac(a: nat): nat { a % TWO_23 }

  function Compose(sign: nat, expo: nat, frac: nat): nat { sign * TWO_31 + expo * TWO_23 + frac }

  lemma Fields(sign: nat, expo: nat, frac: nat)
    requires sign < 2 && expo < 256 && frac < TWO_23
    ensures var a := Compose(sign, expo, frac); Sign(a) == sign && Expo(a) == expo && Frac(a) == frac && a < WORD
  {
  }

  lemma FieldsCompose(a: nat)
    requires a < WORD
    ensures a == Compose(Sign(a), Expo(a), Frac(a)) && Sign(a) < 2 && Expo(a) < 256 && Frac(a) < TWO_23
  {
  }

  /** The significand with its implicit bit. */
  function Mant(a: nat): nat { TWO_23 + Frac(a) }

  /** a | (s << 31) */
  function OrSign(a: nat, s: nat): nat { if s == 1 && Sign(a) == 0 then a + TWO_31 else a }

  lemma OrSignFits(a: nat, s: nat)
    requires a < WORD
    ensures OrSign(a, s) < WORD
  {
  }

  // ----- multiplication

  function Times(x: nat, y: nat): nat { x * y }

  /** The sum of the cross products of the 16-bit halves of two words. */
  function Cross(a: nat, b: nat): nat { Times(a / 65536, b % 65536) + Times(a % 65536, b / 65536) }

  /** The product of two significands shifted left seven places, from their 16-bit halves: the
      product of the low halves is dropped, and the cross products lose their low 16 bits. */
  function ProductBits(m1: nat, m2: nat): nat {
    Cross(m1 * 128, m2 * 128) / 65536 + Times(m1 * 128 / 65536, m2 * 128 / 65536)
  }

  predicate Normal(m: nat) { TWO_23 <= m < TWO_24 }

  lemma TimesBound(x: nat, x': nat, y: nat, y': nat)
    requires x <= x' && y <= y'
    ensures Times(x, y) <= Times(x', y')
  {
    assert x * y <= x' * y;
    assert x' * y <= x' * y';
  }

  lemma TimesSplit(ah: nat, al: nat, bh: nat, bl: nat)
    ensures Times(ah * 65536 + al, bh * 65536 + bl)
            == Times(ah, bh) * WORD + (Times(ah, bl) + Times(al, bh)) * 65536 + Times(al, bl)
  {
    calc {
      (ah * 65536 + al) * (bh * 65536 + bl);
      ah * 65536 * (bh * 65536) + ah * 65536 * bl + al * (bh * 65536) + al * bl;
      ah * bh * WORD + (ah * bl + al * bh) * 65536 + al * bl;
    }
  }

  lemma TimesScaled(x: nat, y: nat)
    ensures Times(x * 128, y * 128) == Times(x, y) * 0x4000
  {
    assert (x * 128) * (y * 128) == x * (128 * (y * 128));
    assert 128 * (y * 128) == y * 0x4000;
    assert x * (y * 0x4000) == x * y * 0x4000;
  }

  /** No 32-bit sum overflows, no 31-bit product either, and the result has 29 or 30 bits. */
  lemma ProductFits(m1: nat, m2: nat)
    requires Normal(m1) && Normal(m2)
    ensures var a, b := m1 * 128, m2 * 128;
            && a < TWO_31 && b < TWO_31
            && Times(a / 65536, b % 65536) < TWO_31 && Times(a % 65536, b / 65536) < TWO_31
            && Cross(a, b) < WORD && Cross(a, b) / 65536 + Times(a / 65536, b / 65536) < WORD
    ensures 0x1000_0000 <= ProductBits(m1, m2) < 0x4000_0000
  {
    hide Times;
    var a, b := m1 * 128, m2 * 128;
    var ah, al, bh, bl := a / 65536, a % 65536, b / 65536, b % 65536;
    TimesBound(ah, 0x7fff, bl, 0xffff);
    TimesBound(al, 0xffff, bh, 0x7fff);
    TimesBound(0x4000, ah, 0x4000, bh);
    TimesBound(a, 0x7fff_ffff, b, 0x7fff_ffff);
    TimesSplit(ah, al, bh, bl);
    TimesConstants();
    assert a == ah * 65536 + al && b == bh * 65536 + bl;
  }

  lemma TimesConstants()
    ensures Times(0x7fff, 0xffff) == 0x7ffe_8001 && Times(0xffff, 0x7fff) == 0x7ffe_8001
    ensures Times(0x4000, 0x4000) == 0x1000_0000 && Times(0x7fff_ffff, 0x7fff_ffff) == 0x3fff_ffff_0000_0001
    ensures Times(0xffff, 0xffff) == 0xfffe_0001
  {
  }

  /** The product falls short of the exact one by less than two of its units. */
  lemma ProductIsClose(m1: nat, m2: nat)
    requires Normal(m1) && Normal(m2)
    ensures ProductBits(m1, m2) * 0x4_0000 <= Times(m1, m2) < (ProductBits(m1, m2) + 2) * 0x4_0000
  {
    hide Times;
    var a, b := m1 * 128, m2 * 128;
    var ah, al, bh, bl := a / 65536, a % 65536, b / 65536, b % 65536;
    TimesBound(al, 0xffff, bl, 0xffff);
    TimesSplit(ah, al, bh, bl);
    TimesScaled(m1, m2);
    TimesConstants();
    assert a == ah * 65536 + al && b == bh * 65536 + bl;
  }

  /** How many places the product is shifted down to 24 bits. */
  function ProductShift(v: nat): nat { if v < 0x2000_0000 then 5 else 6 }

  function ShiftedDown(v: nat): nat { if v < 0x2000_0000 then v / 32 else v / 64 }

  lemma ShiftNormalises(m1: nat, m2: nat)
    requires Normal(m1) && Normal(m2)
    ensures Normal(ShiftedDown(ProductBits(m1, m2)))
  {
    hide ProductBits;
    ProductFits(m1, m2);
  }

  /** The exponent of a product before its range is checked. */
  function ProductExpo(a: nat, b: nat): int {
    Expo(a) + Expo(b) - 0x84 + ProductShift(ProductBits(Mant(a), Mant(b)))
  }

  predicate Ordinary(a: nat) { a < WORD && 1 <= Expo(a) <= 254 }

  /** sub_3a65dc in closed form. */
  function Product(a: nat, b: nat): nat {
    var s := (Sign(a) + Sign(b)) % 2;
    if Expo(a) == 255 then OrSign(if Expo(b) == 255 then ALL_ONES else a, s)
    else if Expo(a) == 0 || Expo(b) == 0 then Compose(s, 0, 0)
    else if Expo(b) == 255 then OrSign(b, s)
    else
      var e := ProductExpo(a, b);
      ShiftNormalises(Mant(a), Mant(b));
      Pack(s, e, ShiftedDown(ProductBits(Mant(a), Mant(b))))
  }

  /** A word from its sign, its exponent before the range check, and its significand. */
  function Pack(s: nat, e: int, m: nat): nat
    requires Normal(m)
  {
    if e <= 0 then Compose(s, 0, 0) else if e >= 255 then Compose(s, 0, ALL_ONES) else Compose(s, e, m - TWO_23)
  }

  /** sub_3a65dc. The exponent is a 16-bit word that may wrap below zero. */
  method Multiply(a: nat, b: nat) returns (r: nat)
    requires a < WORD && b < WORD
    ensures r == Product(a, b) && r < WORD
  {
    hide ProductBits, ShiftedDown, Sign, Expo, OrSign;
    FieldsCompose(a);
    FieldsCompose(b);
    OrSignFits(a, (Sign(a) + Sign(b)) % 2);
    OrSignFits(b, (Sign(a) + Sign(b)) % 2);
    OrSignFits(ALL_ONES, (Sign(a) + Sign(b)) % 2);
    var s := (Sign(a) + Sign(b)) % 2;
    if Expo(a) == 255 {
      r := if Expo(b) == 255 then ALL_ONES else a;
      return OrSign(r, s);
    }
    if Expo(a) == 0 || Expo(b) == 0 {
      return s * TWO_31;
    }
    if Expo(b) == 255 {
      return OrSign(b, s);
    }
    var e := (Expo(a) + Expo(b) + 65536 - 0x84) % 65536;
    var v := MultiplyMants(Mant(a), Mant(b));
    ShiftNormalises(Mant(a), Mant(b));
    e, v := ShiftProduct(e, v);
    r := PackWrapped(s, e, v, ProductExpo(a, b));
  }

  /** The end of sub_3a65dc and sub_3a6886: e is the exponent as a 16-bit word that may have
      wrapped below zero. */
  method PackWrapped(s: nat, e: nat, v: nat, ghost exact: int) returns (r: nat)
    requires s < 2 && Normal(v) && -0x8000 <= exact < 0x8000 && e == (exact + 65536) % 65536
    ensures r == Pack(s, exact, v) && r < WORD
  {
    if e != 0 && e < 0x8000 {
      if e < 0xff {
        return v % TWO_23 + (s * 256 + e) * TWO_23;
      }
      return ALL_ONES + s * TWO_31;
    }
    return s * TWO_31;
  }

  /** The significand product of sub_3a65dc; no sum or product overflows its 32 bits. */
  method MultiplyMants(m1: nat, m2: nat) returns (v: nat)
    requires Normal(m1) && Normal(m2)
    ensures v == ProductBits(m1, m2) && 0x1000_0000 <= v < 0x4000_0000
  {
    hide Times;
    ProductFits(m1, m2);
    var x, y := m1 * 128, m2 * 128;
    v := Times(x / 65536, y % 65536);
    v := v + Times(x % 65536, y / 65536);
    assert v < WORD;
    v := v / 65536;
    v := v + Times(x / 65536, y / 65536);
    // The product has at least 29 bits, so the C code's other loop, which shifts up, never runs.
  }

  /** The normalisation loop of sub_3a65dc: it runs five or six times. */
  method ShiftProduct(e0: nat, v0: nat) returns (e: nat, v: nat)
    requires e0 < 65536 && 0x1000_0000 <= v0 < 0x4000_0000
    ensures e == (e0 + ProductShift(v0)) % 65536 && v == ShiftedDown(v0) && Normal(v)
  {
    e, v := e0, v0;
    ghost var n, p := 0, 1;
    while v >= TWO_24
      invariant 0 <= n <= 6 && e == (e0 + n) % 65536
      invariant v == if n == 0 then v0 else if n == 1 then v0 / 2 else if n == 2 then v0 / 4 else if n == 3 then v0 / 8
                     else if n == 4 then v0 / 16 else if n == 5 then v0 / 32 else v0 / 64
      invariant v >= TWO_23
    {
      e := (e + 1) % 65536;
      v := v / 2;
      n := n + 1;
    }
  }

  // ----- how close the product is

  function Pow2(n: int): real
    decreases if n < 0 then -n else n
  {
    if n == 0 then 1.0 else if n > 0 then 2.0 * Pow2(n - 1) else Pow2(n + 1) / 2.0
  }

  lemma {:induction false} Pow2Step(n: int)
    ensures Pow2(n + 1) == 2.0 * Pow2(n) && Pow2(n) > 0.0
    decreases if n < 0 then -n else n
  {
    if n > 0 {
      Pow2Step(n - 1);
    } else if n < 0 {
      Pow2Step(n + 1);
    }
  }

  lemma {:induction false} Pow2Add(m: int, n: nat)
    ensures Pow2(m + n) == Pow2(m) * Pow2(n)
    decreases n
  {
    if n > 0 {
      Pow2Add(m, n - 1);
      Pow2Step(m + n - 1);
      Pow2Step(n - 1);
    }
  }

  /** The magnitude of an ordinary word, and the weight of its last place. */
  function Magnitude(a: nat): real { Mant(a) as real * Pow2(Expo(a) - 150) }

  function LastPlace(a: nat): real { Pow2(Expo(a) - 150) }

  /** The shifted product against the exact one, in integers. */
  lemma ShiftedIsClose(m1: nat, m2: nat)
    requires Normal(m1) && Normal(m2)
    ensures var v, m := ProductBits(m1, m2), ShiftedDown(ProductBits(m1, m2));
            var unit := if ProductShift(v) == 5 then TWO_23 else TWO_24;
            m * unit <= Times(m1, m2) < (m + 1) * unit + 0x4_0000
  {
    hide ProductBits, Times;
    ProductIsClose(m1, m2);
  }

  lemma UnitPow(k: int)
    requires k == 5 || k == 6
    ensures Pow2(18 + k) == if k == 5 then TWO_23 as real else TWO_24 as real
  {
    Pow2Add(8, 10);
    Pow2Add(5, 5);
    Pow2Add(18, k);
    assert Pow2(5) == 32.0 && Pow2(6) == 64.0 && Pow2(8) == 256.0;
  }

  /** The shifted significand and the exponent before its range is checked, against the exact
      product of the magnitudes: never above it, and short of it by less than 33/32 of a unit. */
  lemma ProductBounds(a: nat, b: nat)
    requires Ordinary(a) && Ordinary(b)
    ensures var m, u := ShiftedDown(ProductBits(Mant(a), Mant(b))), Pow2(ProductExpo(a, b) - 150);
            Normal(m) && m as real * u <= Magnitude(a) * Magnitude(b) < m as real * u + 33.0 / 32.0 * u
  {
    hide ProductBits, Times, ShiftedDown, Pow2, Expo, Mant;
    var m1, m2 := Mant(a), Mant(b);
    var e1: int, e2: int := Expo(a), Expo(b);
    var k := ProductShift(ProductBits(m1, m2));
    var m := ShiftedDown(ProductBits(m1, m2));
    MantIsNormal(a);
    MantIsNormal(b);
    ShiftNormalises(m1, m2);
    ShiftedIsClose(m1, m2);
    Pow2Sum(e1 - 150, e2 - 150);
    Pow2Add(e1 + e2 - 300, 18 + k);
    UnitPow(k);
    Pow2Step(e1 + e2 - 300);
    ScaleBounds(m1, m2, m, if k == 5 then TWO_23 else TWO_24, Pow2(e1 - 150), Pow2(e2 - 150), Pow2(e1 + e2 - 300));
  }

  /** The product of ordinary words has the sign of the exact product. It is an ordinary word, never
      above the exact one in magnitude and short of it by less than 33/32 of its last place; or a
      zero, and then the exact product is below the smallest ordinary word, but for the rounding; or
      the saturated word, and then the exact product is beyond the largest. */
  lemma ProductErrorBound(a: nat, b: nat)
    requires Ordinary(a) && Ordinary(b)
    ensures var r, exact := Product(a, b), Magnitude(a) * Magnitude(b);
            && r < WORD && Sign(r) == (Sign(a) + Sign(b)) % 2
            && (r % TWO_31 == 0 ==> exact < Pow2(-126) + Pow2(-155))
            && (r % TWO_31 == ALL_ONES ==> exact >= Pow2(128))
            && (r % TWO_31 != 0 && r % TWO_31 != ALL_ONES ==>
                  Ordinary(r) && Magnitude(r) <= exact < Magnitude(r) + 33.0 / 32.0 * LastPlace(r))
  {
    hide ProductBits, Times, ShiftedDown, Pow2, Product, Sign, Expo, Mant;
    var e, m := ProductExpo(a, b), ShiftedDown(ProductBits(Mant(a), Mant(b)));
    var s := (Sign(a) + Sign(b)) % 2;
    ProductBounds(a, b);
    ProductPacked(a, b);
    if e <= 0 {
      SmallBound(m, e);
    } else if e >= 255 {
      LargeBound(m, e);
    } else {
      ProductFields(a, b);
    }
  }

  /** How a product is packed, and which of the three results it is. */
  lemma ProductPacked(a: nat, b: nat)
    requires Ordinary(a) && Ordinary(b)
    ensures var r, e := Product(a, b), ProductExpo(a, b);
            && r < WORD && Sign(r) == (Sign(a) + Sign(b)) % 2
            && (e <= 0 <==> r % TWO_31 == 0) && (e >= 255 <==> r % TWO_31 == ALL_ONES)
  {
    hide ProductBits, ShiftedDown;
    ShiftNormalises(Mant(a), Mant(b));
  }

  lemma {:induction false} Pow2Monotone(m: int, n: int)
    requires m <= n
    ensures 0.0 < Pow2(m) <= Pow2(n)
    decreases n - m
  {
    Pow2Step(m);
    if m < n {
      Pow2Monotone(m, n - 1);
      Pow2Step(n - 1);
    }
  }

  lemma SmallBound(m: nat, e: int)
    requires Normal(m) && e <= 0
    ensures m as real * Pow2(e - 150) + 33.0 / 32.0 * Pow2(e - 150) <= Pow2(-126) + Pow2(-155)
  {
    hide Pow2;
    var u := Pow2(e - 150);
    TopUnit(m, e - 150, -150);
    TwentyFour(-150);
    Pow2Monotone(e - 150, -150);
    Pow2Add(-155, 5);
    FivePow();
    assert 33.0 / 32.0 * u == u + u / 32.0;
  }

  lemma LargeBound(m: nat, e: int)
    requires Normal(m) && e >= 255
    ensures m as real * Pow2(e - 150) >= Pow2(128)
  {
    hide Pow2;
    var u, v := Pow2(e - 150), Pow2(105);
    Pow2Monotone(105, e - 150);
    TwentyFour(104);
    Pow2Step(104);
    MulReal(8388608.0, m as real, u);
    assert 8388608.0 * u >= 8388608.0 * v;
  }

  lemma FivePow()
    ensures Pow2(5) == 32.0
  {
  }

  lemma TwentyFour(n: int)
    ensures Pow2(n + 24) == 16777216.0 * Pow2(n)
  {
    Pow2Add(n, 24);
    Pow2Add(12, 12);
    assert Pow2(6) == 64.0;
    Pow2Add(6, 6);
  }

  /** Products with a zero, an infinity or a not-a-number, magnitude only: zero beats infinity on the
      left, infinity beats zero on the left, and two infinities give the saturated word. */
  lemma ProductElsewhere(a: nat, b: nat)
    requires a < WORD && b < WORD
    ensures var r := Product(a, b) % TWO_31;
            && (Expo(a) == 255 && Expo(b) == 255 ==> r == ALL_ONES)
            && (Expo(a) == 255 && Expo(b) != 255 ==> r == a % TWO_31)
            && (Expo(a) == 0 || (Expo(a) != 255 && Expo(b) == 0) ==> r == 0)
            && (Ordinary(a) && Expo(b) == 255 ==> r == b % TWO_31)
  {
    hide ProductBits, ShiftedDown;
    FieldsCompose(a);
    FieldsCompose(b);
  }

  lemma MantIsNormal(a: nat)
    ensures Normal(Mant(a))
  {
  }

  lemma ProductFields(a: nat, b: nat)
    requires Ordinary(a) && Ordinary(b) && 1 <= ProductExpo(a, b) <= 254
    ensures var r := Product(a, b);
            && Ordinary(r) && Sign(r) == (Sign(a) + Sign(b)) % 2 && Expo(r) == ProductExpo(a, b)
            && Mant(r) == ShiftedDown(ProductBits(Mant(a), Mant(b)))
  {
    hide ProductBits, ShiftedDown;
    ShiftNormalises(Mant(a), Mant(b));
    Fields((Sign(a) + Sign(b)) % 2, ProductExpo(a, b), ShiftedDown(ProductBits(Mant(a), Mant(b))) - TWO_23);
  }

  lemma {:induction false} Pow2Sum(m: int, n: int)
    ensures Pow2(m + n) == Pow2(m) * Pow2(n)
    decreases if n < 0 then -n else n
  {
    if n >= 0 {
      Pow2Add(m, n);
    } else {
      Pow2Sum(m, n + 1);
      Pow2Halves(m, n);
    }
  }

  lemma Pow2Halves(m: int, n: int)
    requires Pow2(m + n + 1) == Pow2(m) * Pow2(n + 1)
    ensures Pow2(m + n) == Pow2(m) * Pow2(n)
  {
    hide Pow2;
    Pow2Step(m + n);
    Pow2Step(n);
    assert Pow2(m) * (2.0 * Pow2(n)) == 2.0 * (Pow2(m) * Pow2(n));
  }

  lemma ScaleBounds(m1: nat, m2: nat, m: nat, unit: nat, p1: real, p2: real, u: real)
    requires u == p1 * p2 && u > 0.0 && unit >= TWO_23
    requires m * unit <= Times(m1, m2) < (m + 1) * unit + 0x4_0000
    ensures m as real * (u * unit as real) <= (m1 as real * p1) * (m2 as real * p2)
            < m as real * (u * unit as real) + 33.0 / 32.0 * (u * unit as real)
  {
    var lo, p, c := (m * unit) as real, Times(m1, m2) as real, unit as real;
    Rearrange(m1 as real, p1, m2 as real, p2);
    Regroup(m as real, u, c);
    Spread(lo, 33.0 / 32.0, c, u);
    assert p < lo + 33.0 / 32.0 * c;
    MulReal(lo, p, u);
    MulRealStrict(p, lo + 33.0 / 32.0 * c, u);
  }

  lemma Regroup(m: real, u: real, c: real)
    ensures m * (u * c) == (m * c) * u
  {
  }

  lemma Spread(lo: real, k: real, c: real, u: real)
    ensures (lo + k * c) * u == lo * u + k * (u * c)
  {
    assert (k * c) * u == k * (u * c);
  }

  lemma Rearrange(x: real, p: real, y: real, q: real)
    ensures (x * p) * (y * q) == (x * y) * (p * q)
  {
  }

  lemma MulReal(x: real, y: real, u: real)
    requires x <= y && u > 0.0
    ensures x * u <= y * u
  {
  }

  lemma MulRealStrict(x: real, y: real, u: real)
    requires x < y && u > 0.0
    ensures x * u < y * u
  {
  }

  /** The sign of a product is that of the exact one, except that a negative infinity or
      not-a-number times a negative number stays negative. */
  lemma ProductSignIff(a: nat, b: nat)
    requires a < WORD && b < WORD
    ensures Sign(Product(a, b)) == (Sign(a) + Sign(b)) % 2
            <==> !(Sign(a) == 1 && Sign(b) == 1
                   && ((Expo(a) == 255 && Expo(b) != 255) || (Expo(b) == 255 && 1 <= Expo(a) <= 254)))
  {
    hide ProductBits, ShiftedDown;
    FieldsCompose(a);
    FieldsCompose(b);
    if Ordinary(a) && Ordinary(b) {
      ShiftNormalises(Mant(a), Mant(b));
    }
  }

  /** A negative infinity times minus one stays what it is. */
  lemma NegativeInfinityStays()
    ensures Product(0xff80_0000, 0xbf80_0000) == 0xff80_0000
  {
    hide ShiftedDown, ProductBits;
  }

  // ----- integers

  function Down(x: nat, e: int): (nat, int)
    decreases x
  {
    if x >= TWO_24 then Down(x / 2, e + 1) else (x, e)
  }

  function Up(x: nat, e: int): (nat, int)
    requires x > 0
    decreases TWO_23 - x
  {
    if x < TWO_23 then Up(2 * x, e - 1) else (x, e)
  }

  function Normalised(x: nat): (nat, int)
    requires x > 0
  {
    DownPositive(x, 150);
    Up(Down(x, 150).0, Down(x, 150).1)
  }

  lemma {:induction false} DownPositive(x: nat, e: int)
    requires x > 0
    ensures 0 < Down(x, e).0 < TWO_24 && e <= Down(x, e).1 <= e + x
    decreases x
  {
    if x >= TWO_24 {
      DownPositive(x / 2, e + 1);
    }
  }

  /** sub_3a6b8f in closed form: x divided by 2^scale, as long as the exponent does not wrap. */
  function FromInt(x: nat, scale: nat): nat {
    if x == 0 then 0
    else
      var (m, e) := Normalised(x);
      var f := Short(e - scale);
      if f <= 0 then 0 else if f >= 255 then ALL_ONES else f * TWO_23 + m % TWO_23
  }

  /** A number on a signed 16-bit word. */
  function Short(n: int): int { (n + 0x8000) % 0x1_0000 - 0x8000 }

  /** sub_3a6b8f. */
  method ConvertInt(arg: nat, scale: nat) returns (r: nat)
    requires arg < WORD && scale < WORD
    ensures r == FromInt(arg, scale)
  {
    if arg == 0 {
      return 0;
    }
    var x, e := arg, 0x96;
    while x >= TWO_24
      invariant x > 0 && Down(arg, 150) == Down(x, e)
    {
      x := x / 2;
      e := e + 1;
    }
    ghost var low := Down(arg, 150);
    while x < TWO_23
      invariant 0 < x < TWO_24 && Up(low.0, low.1) == Up(x, e)
      decreases TWO_23 - x
    {
      x := 2 * x;
      e := e - 1;
    }
    e := Short(e - scale);
    if e <= 0 {
      return 0;
    }
    if e >= 0xff {
      return ALL_ONES;
    }
    return e * TWO_23 + x % TWO_23;
  }

  lemma {:induction false} Exp2IsPow2(n: nat)
    ensures Exp2(n) as real == Pow2(n) && Exp2(n) >= 1
  {
    if n > 0 {
      Exp2IsPow2(n - 1);
    }
  }

  /** Shifting down is division by a power of two, rounded towards zero. */
  lemma {:induction false} DownIsDivision(x: nat, e: int)
    requires x > 0
    ensures var (m, f) := Down(x, e);
            && f >= e && Times(m, Exp2(f - e)) <= x < Times(m + 1, Exp2(f - e))
            && (x < TWO_24 ==> m == x && f == e) && (x >= TWO_24 ==> Normal(m))
    decreases x
  {
    if x >= TWO_24 {
      DownIsDivision(x / 2, e + 1);
      if x / 2 < TWO_24 { assert Down(x / 2, e + 1) == (x / 2, e + 1); }
      var (m, f) := Down(x / 2, e + 1);
      TimesDouble(m, Exp2(f - e - 1));
      TimesDouble(m + 1, Exp2(f - e - 1));
    }
  }

  lemma TimesDouble(x: nat, y: nat)
    ensures Times(x, 2 * y) == 2 * Times(x, y)
  {
  }

  lemma {:induction false} UpIsExact(x: nat, e: int)
    requires 0 < x < TWO_24
    ensures var (m, f) := Up(x, e);
            Normal(m) && m as real * Pow2(f) == x as real * Pow2(e) && (Normal(x) ==> m == x && f == e)
    decreases TWO_23 - x
  {
    hide Pow2;
    if x < TWO_23 {
      UpIsExact(2 * x, e - 1);
      Pow2Step(e - 1);
      TwiceReal(x, Pow2(e - 1));
    }
  }

  lemma TwiceReal(x: nat, u: real)
    ensures (2 * x) as real * u == x as real * (2.0 * u)
  {
  }

  /** A nonzero word as significand and exponent: never above the word, short of it by less than
      one unit, and exact when it has at most 24 bits. */
  lemma NormalisedIsClose(x: nat)
    requires 0 < x
    ensures var (m, e) := Normalised(x);
            && Normal(m) && m as real * Pow2(e - 150) <= x as real < (m + 1) as real * Pow2(e - 150)
            && (x < TWO_24 ==> m as real * Pow2(e - 150) == x as real)
  {
    hide Pow2, Down, Up, Exp2, Times;
    DownPositive(x, 150);
    DownIsDivision(x, 150);
    var (y, f) := Down(x, 150);
    UpIsExact(y, f);
    var (m, e) := Normalised(x);
    if x >= TWO_24 {
      Exp2IsPow2(f - 150);
      TimesReal(m, Exp2(f - 150));
      TimesReal(m + 1, Exp2(f - 150));
    } else {
      Pow2Sum(e - 150, 150);
      Pow2Step(150);
      Pow2Step(e - 150);
      Cancel(m as real, Pow2(e - 150), x as real, Pow2(150), Pow2(e));
      assert (m + 1) as real * Pow2(e - 150) == m as real * Pow2(e - 150) + Pow2(e - 150);
    }
  }

  lemma TimesReal(x: nat, y: nat)
    ensures Times(x, y) as real == x as real * y as real
  {
  }

  lemma Cancel(m: real, p: real, x: real, q: real, pq: real)
    requires pq == p * q && q > 0.0 && m * pq == x * q
    ensures m * p == x
  {
    assert (m * p) * q == x * q;
  }

  /** The converted word is x / 2^scale cut to 24 bits: never above it, short by less than one unit
      of its last place, and exact for x below 2^24. */
  lemma FromIntErrorBound(x: nat, scale: nat)
    requires 0 < x && 1 <= Normalised(x).1 - scale <= 254
    ensures var r := FromInt(x, scale);
            && Ordinary(r) && Sign(r) == 0
            && Magnitude(r) <= x as real * Pow2(-(scale as int)) < Magnitude(r) + LastPlace(r)
            && (x < TWO_24 ==> Magnitude(r) == x as real * Pow2(-(scale as int)))
  {
    hide Pow2, Normalised, FromInt, Expo, Sign, Mant;
    NormalisedIsClose(x);
    FromIntFields(x, scale);
    var (m, e) := Normalised(x);
    var k: int := scale;
    Pow2Sum(e - 150, -k);
    Pow2Step(-k);
    ScaleUnit(m, x, Pow2(e - 150), Pow2(-k));
  }

  /** For every word and scale up to 0x7f00: the result is an ordinary word, within the bound, or a
      zero, and then x / 2^scale is below the smallest ordinary word. */
  lemma FromIntRange(x: nat, scale: nat)
    requires 0 < x < WORD && scale <= 0x7f00
    ensures var r, q := FromInt(x, scale), x as real * Pow2(-(scale as int));
            && (r == 0 ==> q < Pow2(-126))
            && (r != 0 ==> Ordinary(r) && Sign(r) == 0 && Magnitude(r) <= q < Magnitude(r) + LastPlace(r))
            && (r != 0 && x < TWO_24 ==> Magnitude(r) == q)
  {
    hide Pow2, Normalised, Expo, Sign, Mant;
    NormalisedRange(x);
    NormalisedIsClose(x);
    var (m, e) := Normalised(x);
    if e - scale > 0 {
      FromIntErrorBound(x, scale);
      FromIntFields(x, scale);
    } else {
      var k: int := scale;
      Pow2Sum(e - 150, -k);
      Pow2Step(-k);
      ScaleUnit(m, x, Pow2(e - 150), Pow2(-k));
      UnitBelow(m, e - scale);
      assert FromInt(x, scale) == 0;
    }
  }

  lemma NormalisedRange(x: nat)
    requires 0 < x < WORD
    ensures 127 <= Normalised(x).1 <= 254
  {
    hide Pow2, Normalised, Exp2;
    NormalisedIsClose(x);
    var (m, e) := Normalised(x);
    if e >= 255 {
      LargeBound(m, e);
      Pow2Monotone(32, 128);
      Exp2IsPow2(32);
      Exp2Word();
    }
    if e <= 126 {
      TwentyFour(-24);
      UnitPowerOne();
      TopUnit(m, e - 150, -24);
    }
  }

  /** A significand and one more unit reach the next power of two at most. */
  lemma TopUnit(m: nat, n: int, top: int)
    requires m < TWO_24 && n <= top
    ensures (m + 1) as real * Pow2(n) <= 16777216.0 * Pow2(top)
    ensures (m + 1) as real * Pow2(n) == m as real * Pow2(n) + Pow2(n)
  {
    hide Pow2;
    Pow2Monotone(n, top);
    var u, v := Pow2(n), Pow2(top);
    MulReal((m + 1) as real, 16777216.0, u);
    assert 16777216.0 * u <= 16777216.0 * v;
    Spread(m as real, 1.0, 1.0, u);
    assert (m + 1) as real == m as real + 1.0 * 1.0;
  }

  lemma UnitPowerOne()
    ensures Pow2(0) == 1.0
  {
  }

  lemma UnitBelow(m: nat, e: int)
    requires Normal(m) && e <= 0
    ensures m as real * Pow2(e - 150) + Pow2(e - 150) <= Pow2(-126)
  {
    hide Pow2;
    TwentyFour(-150);
    TopUnit(m, e - 150, -150);
  }

  lemma FromIntFields(x: nat, scale: nat)
    requires 0 < x && 1 <= Normalised(x).1 - scale <= 254
    ensures var r, (m, e) := FromInt(x, scale), Normalised(x);
            Ordinary(r) && Sign(r) == 0 && Expo(r) == e - scale && Mant(r) == m
  {
    hide Normalised;
    NormalisedIsClose(x);
    var (m, e) := Normalised(x);
    Fields(0, e - scale, m - TWO_23);
  }

  lemma ScaleUnit(m: nat, x: nat, p: real, q: real)
    requires q > 0.0 && m as real * p <= x as real < (m + 1) as real * p
    ensures m as real * (p * q) <= x as real * q < m as real * (p * q) + p * q
    ensures m as real * p == x as real ==> m as real * (p * q) == x as real * q
  {
    MulReal(m as real * p, x as real, q);
    MulRealStrict(x as real, (m + 1) as real * p, q);
    assert (m as real * p) * q == m as real * (p * q);
    assert ((m + 1) as real * p) * q == (m + 1) as real * (p * q);
    assert (m + 1) as real * (p * q) == m as real * (p * q) + p * q;
  }

  // ----- the sine

  /** table1[8] and table1[9]: two pi and pi, scaled by 2^23. */
  const TWO_PI: nat := 0x324_3f6c
  const PI: nat := 0x192_1fb6

  /** table2, in rows of eight: sines of multiples of 1/128, all ordinary and below one. Its 257th
      entry is left out: no argument reaches it. */
  function LowRow(r: nat): (row: seq<nat>)
    requires r < 16
    ensures |row| == 8 && forall j :: 0 <= j < 8 ==> 0x3000_0000 <= row[j] < 0x3f80_0000
  {
    match r
    case 0 => [0x31a4_b7a0, 0x3bff_ff55, 0x3c7f_fd55, 0x3cbf_fb80, 0x3cff_f555, 0x3d1f_f596, 0x3d3f_ee01, 0x3d5f_e36c]
    case 1 => [0x3d7f_d557, 0x3d8f_e1a2, 0x3d9f_d659, 0x3daf_c890, 0x3dbf_b808, 0x3dcf_a481, 0x3ddf_8dbc, 0x3def_7379]
    case 2 => [0x3dff_5577, 0x3e07_99bc, 0x3e0f_869f, 0x3e17_7143, 0x3e1f_5989, 0x3e27_3f52, 0x3e2f_227e, 0x3e37_02ee]
    case 3 => [0x3e3e_e081, 0x3e46_bb19, 0x3e4e_9297, 0x3e56_66d9, 0x3e5e_37c2, 0x3e66_0533, 0x3e6d_cf0b, 0x3e75_952c]
    case 4 => [0x3e7d_5777, 0x3e82_8ae6, 0x3e86_6806, 0x3e8a_430d, 0x3e8e_1beb, 0x3e91_f291, 0x3e95_c6ee, 0x3e99_98f5]
    case 5 => [0x3e9d_6895, 0x3ea1_35bf, 0x3ea5_0065, 0x3ea8_c876, 0x3eac_8de5, 0x3eb0_50a1, 0x3eb4_109c, 0x3eb7_cdc7]
    case 6 => [0x3ebb_8813, 0x3ebf_3f70, 0x3ec2_f3d1, 0x3ec6_a525, 0x3eca_535f, 0x3ecd_fe70, 0x3ed1_a649, 0x3ed5_4adb]
    case 7 => [0x3ed8_ec18, 0x3edc_89f2, 0x3ee0_2459, 0x3ee3_bb3f, 0x3ee7_4e97, 0x3eea_de52, 0x3eee_6a61, 0x3ef1_f2b6]
    case 8 => [0x3ef5_7744, 0x3ef8_f7fb, 0x3efc_74cf, 0x3eff_edb1, 0x3f01_b14a, 0x3f03_69b4, 0x3f05_2011, 0x3f06_d459]
    case 9 => [0x3f08_8686, 0x3f0a_3691, 0x3f0b_e473, 0x3f0d_9025, 0x3f0f_39a2, 0x3f10_e0e1, 0x3f12_85dd, 0x3f14_288e]
    case 10 => [0x3f15_c8ef, 0x3f17_66f9, 0x3f19_02a6, 0x3f1a_9bee, 0x3f1c_32cc, 0x3f1d_c739, 0x3f1f_592f, 0x3f20_e8a7]
    case 11 => [0x3f22_759c, 0x3f24_0007, 0x3f25_87e2, 0x3f27_0d27, 0x3f28_8fd0, 0x3f2a_0fd6, 0x3f2b_8d35, 0x3f2d_07e5]
    case 12 => [0x3f2e_7fe1, 0x3f2f_f523, 0x3f31_67a5, 0x3f32_d761, 0x3f34_4452, 0x3f35_ae73, 0x3f37_15bc, 0x3f38_7a29]
    case 13 => [0x3f39_dbb4, 0x3f3b_3a58, 0x3f3c_960f, 0x3f3d_eed3, 0x3f3f_44a0, 0x3f40_976f, 0x3f41_e73d, 0x3f43_3402]
    case 14 => [0x3f44_7dbb, 0x3f45_c462, 0x3f47_07f2, 0x3f48_4866, 0x3f49_85b8, 0x3f4a_bfe5, 0x3f4b_f6e6, 0x3f4d_2ab8]
    case _ => [0x3f4e_5b55, 0x3f4f_88b8, 0x3f50_b2de, 0x3f51_d9c1, 0x3f52_fd5c, 0x3f54_1dab, 0x3f55_3aaa, 0x3f56_5454]
  }

  /** The second sixteen rows of table2. */
  function HighRow(r: nat): (row: seq<nat>)
    requires r < 16
    ensures |row| == 8 && forall j :: 0 <= j < 8 ==> 0x3000_0000 <= row[j] < 0x3f80_0000
  {
    match r
    case 0 => [0x3f57_6aa4, 0x3f58_7d97, 0x3f59_8d28, 0x3f5a_9953, 0x3f5b_a214, 0x3f5c_a765, 0x3f5d_a945, 0x3f5e_a7ad]
    case 1 => [0x3f5f_a29b, 0x3f60_9a0b, 0x3f61_8df8, 0x3f62_7e5f, 0x3f63_6b3c, 0x3f64_548b, 0x3f65_3a49, 0x3f66_1c72]
    case 2 => [0x3f66_fb02, 0x3f67_d5f7, 0x3f68_ad4c, 0x3f69_80ff, 0x3f6a_510b, 0x3f6b_1d6f, 0x3f6b_e626, 0x3f6c_ab2d]
    case 3 => [0x3f6d_6c81, 0x3f6e_2a20, 0x3f6e_e407, 0x3f6f_9a31, 0x3f70_4c9e, 0x3f70_fb49, 0x3f71_a630, 0x3f72_4d51]
    case 4 => [0x3f72_f0a8, 0x3f73_9034, 0x3f74_2bf1, 0x3f74_c3de, 0x3f75_57f7, 0x3f75_e83c, 0x3f76_74a8, 0x3f76_fd3b]
    case 5 => [0x3f77_81f2, 0x3f78_02cb, 0x3f78_7fc4, 0x3f78_f8da, 0x3f79_6e0d, 0x3f79_df5b, 0x3f7a_4cc0, 0x3f7a_b63d]
    case 6 => [0x3f7b_1bcf, 0x3f7b_7d74, 0x3f7b_db2b, 0x3f7c_34f3, 0x3f7c_8aca, 0x3f7c_dcaf, 0x3f7d_2aa1, 0x3f7d_749e]
    case 7 => [0x3f7d_baa5, 0x3f7d_fcb5, 0x3f7e_3acd, 0x3f7e_74ec, 0x3f7e_ab11, 0x3f7e_dd3c, 0x3f7f_0b6b, 0x3f7f_359f]
    case 8 => [0x3f7f_5bd5, 0x3f7f_7e0e, 0x3f7f_9c49, 0x3f7f_b685, 0x3f7f_ccc3, 0x3f7f_df01, 0x3f7f_ed40, 0x3f7f_f77f]
    case 9 => [0x3f7f_fdbf, 0x3f7f_fffe, 0x3f7f_fe3d, 0x3f7f_f87d, 0x3f7f_eebc, 0x3f7f_e0fc, 0x3f7f_cf3d, 0x3f7f_b97e]
    case 10 => [0x3f7f_9fc0, 0x3f7f_8204, 0x3f7f_6049, 0x3f7f_3a92, 0x3f7f_10dd, 0x3f7e_e32c, 0x3f7e_b17f, 0x3f7e_7bd8]
    case 11 => [0x3f7e_4237, 0x3f7e_049d, 0x3f7d_c30a, 0x3f7d_7d81, 0x3f7d_3402, 0x3f7c_e68e, 0x3f7c_9526, 0x3f7c_3fcc]
    case 12 => [0x3f7b_e681, 0x3f7b_8946, 0x3f7b_281d, 0x3f7a_c308, 0x3f7a_5a08, 0x3f79_ed1e, 0x3f79_7c4c, 0x3f79_0795]
    case 13 => [0x3f78_8ef9, 0x3f78_127b, 0x3f77_921d, 0x3f77_0de1, 0x3f76_85c8, 0x3f75_f9d6, 0x3f75_6a0b, 0x3f74_d66b]
    case 14 => [0x3f74_3ef7, 0x3f73_a3b3, 0x3f73_04a0, 0x3f72_61c0, 0x3f71_bb18, 0x3f71_10a8, 0x3f70_6274, 0x3f6f_b07f]
    case _ => [0x3f6e_facb, 0x3f6e_415b, 0x3f6d_8432, 0x3f6c_c352, 0x3f6b_fec0, 0x3f6b_367e, 0x3f6a_6a8f, 0x3f69_9af6]
  }

  function Table2(i: nat): (t: nat)
    requires i < 256
    ensures 0x3000_0000 <= t < 0x3f80_0000
  {
    if i < 128 then LowRow(i / 8)[i % 8] else HighRow(i / 8 - 16)[i % 8]
  }

  /** Exponent and fraction of the arguments the sine looks up in its table; smaller ones are
      returned as they are, larger ones give zero. */
  predicate LooksUp(e: nat, f: nat) {
    e * TWO_23 + f <= 0x43fe_7811 && (e > 0x73 || (e == 0x73 && f >= 0x68_9769))
  }

  /** The argument scaled by 2^23, for an exponent above that of one. */
  function Scaled(e: nat, f: nat): nat
    requires e >= 0x7f
  {
    Times(TWO_23 + f, Exp2(e - 0x7f))
  }

  function Flips(e: nat, f: nat): bool
    requires e >= 0x7f
  {
    Scaled(e, f) % TWO_PI > PI
  }

  /** The argument reduced to a quarter turn. */
  function Folded(e: nat, f: nat): nat
    requires e >= 0x7f
  {
    var v := Scaled(e, f) % TWO_PI;
    var w := if v > PI then v - PI else v;
    if w / 65536 > 0xff then PI - w else w
  }

  /** The power of two the table entry is scaled by and back. */
  function Scale(e: nat): nat
    requires e <= 0x87
  {
    if e <= 0x7f then 16 + 0x7f - e else 16
  }

  function Quotient(x: nat, d: nat): nat
    requires d >= 1
  {
    x / d
  }

  function Index(e: nat, f: nat): nat
    requires e <= 0x87
  {
    if e <= 0x7f then Quotient(TWO_23 + f, Exp2(Scale(e))) else Folded(e, f) / 65536
  }

  predicate Tabled(x: nat) { LooksUp(Expo(x), Frac(x)) }

  lemma Exp2Monotone(m: nat, n: nat)
    requires m <= n
    ensures Exp2(m) <= Exp2(n)
  {
    if m < n {
      Exp2Monotone(m, n - 1);
    }
  }

  lemma Exp2Constants()
    ensures Exp2(8) == 256 && Exp2(16) == 65536 && Exp2(23) == TWO_23 && Exp2(24) == TWO_24
  {
    assert Exp2(4) == 16;
    Exp2Add(4, 4);
    Exp2Add(8, 8);
    Exp2Add(8, 16);
    assert Exp2(24) == 2 * Exp2(23);
  }

  /** The argument never overflows 32 bits when it is shifted up, and the index is always one of
      the table's first 256. */
  lemma IndexFits(e: nat, f: nat)
    requires LooksUp(e, f) && f < TWO_23
    ensures 0x73 <= e <= 0x87
    ensures e > 0x7f ==> Scaled(e, f) < WORD
    ensures Index(e, f) <= 255
  {
    if e > 0x7f {
      Exp2Monotone(e - 0x7f, 8);
      Exp2Constants();
      TimesBound(TWO_23 + f, TWO_24 - 1, Exp2(e - 0x7f), 256);
    } else {
      Exp2Monotone(16, Scale(e));
      Exp2Constants();
      QuotientBound(TWO_23 + f, Exp2(Scale(e)));
    }
  }

  lemma QuotientBound(m: nat, d: nat)
    requires m < TWO_24 && d >= 65536
    ensures Quotient(m, d) <= 255
  {
    var q := m / d;
    assert q * d <= m;
    if q >= 256 {
      TimesBound(256, q, 65536, d);
    }
  }

  /** The sign of the sine: that of the argument, reversed on the second half turn. */
  function SineSign(x: nat): nat {
    if Expo(x) > 0x7f && Flips(Expo(x), Frac(x)) then 1 - Sign(x) else Sign(x)
  }

  /** sub_3a6886 in closed form. */
  function Sine(x: nat): nat {
    if Expo(x) == 255 then Compose(Sign(x), 0, ALL_ONES)
    else if x % TWO_31 > 0x43fe_7811 then 0
    else if Expo(x) == 0 then Compose(Sign(x), 0, 0)
    else if !Tabled(x) then x
    else
      IndexFits(Expo(x), Frac(x));
      var k := Scale(Expo(x));
      var q := Product(Table2(Index(Expo(x), Frac(x))), FromInt(Exp2(k), 0));
      Pack(SineSign(x), Expo(q) - k, Mant(q))
  }

  // ----- the sine is exactly its table

  lemma Exp2Step(n: nat)
    ensures Exp2(n + 1) == 2 * Exp2(n)
  {
  }

  lemma UpStep(x: nat, e: int)
    requires x > 0
    ensures Up(x, e) == if x < TWO_23 then Up(2 * x, e - 1) else (x, e)
  {
  }

  lemma DownStep(x: nat, e: int)
    ensures Down(x, e) == if x >= TWO_24 then Down(x / 2, e + 1) else (x, e)
  {
  }

  lemma {:induction false} UpPower(j: nat, e: int)
    requires j <= 23
    ensures Up(Exp2(23 - j), e) == (TWO_23, e - j)
    decreases j
  {
    hide Exp2, Up;
    Exp2Constants();
    UpStep(Exp2(23 - j), e);
    if j > 0 {
      Exp2Step(23 - j);
      Exp2Monotone(24 - j, 23);
      UpPower(j - 1, e - 1);
    }
  }

  lemma {:induction false} DownPower(j: nat, e: int)
    ensures Down(Exp2(23 + j), e) == (TWO_23, e + j)
    decreases j
  {
    hide Exp2, Down;
    Exp2Constants();
    DownStep(Exp2(23 + j), e);
    if j > 0 {
      Exp2Monotone(24, 23 + j);
      Exp2Step(22 + j);
      DownPower(j - 1, e + 1);
    }
  }

  /** A power of two converts to the word with its exponent and an empty fraction. */
  lemma PowerConverts(k: nat)
    requires 1 <= k <= 127
    ensures FromInt(Exp2(k), 0) == Compose(0, 127 + k, 0)
  {
    hide Exp2, Up, Down;
    Exp2Constants();
    if k <= 23 {
      Exp2Monotone(k, 23);
      DownStep(Exp2(k), 150);
      UpPower(23 - k, 150);
    } else {
      DownPower(k - 23, 150);
      UpStep(TWO_23, 127 + k);
    }
    assert Normalised(Exp2(k)) == (TWO_23, 127 + k);
  }

  /** Multiplying by a power of two is exact: only the exponent changes. */
  lemma ProductWithPower(t: nat, k: nat)
    requires Ordinary(t) && 1 <= k <= 127 && Expo(t) + k <= 254
    ensures Product(t, Compose(0, 127 + k, 0)) == Compose(Sign(t), Expo(t) + k, Frac(t))
  {
    var p := Compose(0, 127 + k, 0);
    Fields(0, 127 + k, 0);
    FieldsCompose(t);
    PowerProductBits(Mant(t));
    assert Mant(p) == TWO_23;
    assert ShiftedDown(ProductBits(Mant(t), TWO_23)) == Mant(t);
    assert ProductExpo(t, p) == Expo(t) + k;
  }

  lemma PowerProductBits(m: nat)
    requires Normal(m)
    ensures ProductBits(m, TWO_23) == 32 * m && ProductShift(32 * m) == 5 && ShiftedDown(32 * m) == m
  {
    assert Times(m * 128 / 65536, 0) == 0;
    assert Times(m * 128 % 65536, 0x4000) == m * 128 % 65536 * 0x4000;
    assert Times(m * 128 / 65536, 0x4000) == m * 128 / 65536 * 0x4000;
  }

  /** For every argument that is looked up, scaling the table entry up and back cancels exactly:
      the result is the entry with the sign of the sine. */
  lemma SineIsTableEntry(x: nat)
    requires x < WORD && Tabled(x)
    ensures Expo(x) <= 0x87 && Index(Expo(x), Frac(x)) <= 255
    ensures Sine(x) == Compose(SineSign(x), 0, Table2(Index(Expo(x), Frac(x))))
  {
    hide Product, Index, Exp2, FromInt, SineSign;
    FieldsCompose(x);
    IndexFits(Expo(x), Frac(x));
    var t, k := Table2(Index(Expo(x), Frac(x))), Scale(Expo(x));
    EntryFields(t);
    PowerConverts(k);
    ProductWithPower(t, k);
    Fields(0, Expo(t) + k, Frac(t));
  }

  lemma EntryFields(t: nat)
    requires 0x3000_0000 <= t < 0x3f80_0000
    ensures Sign(t) == 0 && 0x60 <= Expo(t) <= 0x7e && t == Compose(0, Expo(t), Frac(t)) && Frac(t) < TWO_23
  {
  }

  /** x with its sign reversed. */
  function Negated(x: nat): nat
    requires x < WORD
  {
    if Sign(x) == 0 then x + TWO_31 else x - TWO_31
  }

  lemma NegatedFields(x: nat)
    requires x < WORD
    ensures var y := Negated(x);
            y < WORD && Expo(y) == Expo(x) && Frac(y) == Frac(x) && Sign(y) == 1 - Sign(x) && Sign(x) < 2
  {
  }

  lemma TabledSineIsOdd(x: nat)
    requires x < WORD && Tabled(x)
    ensures Tabled(Negated(x)) && Sine(Negated(x)) == Negated(Sine(x))
  {
    hide Sine, Flips, Index, Expo, Frac, Sign, Negated, Table2;
    NegatedFields(x);
    SineIsTableEntry(x);
    SineIsTableEntry(Negated(x));
    NegatedEntry(SineSign(x), Table2(Index(Expo(x), Frac(x))));
  }

  /** The sine is odd exactly where it is not given up: a finite argument that is too large gives a
      zero without its sign. */
  lemma SineIsOddIff(x: nat)
    requires x < WORD
    ensures Sine(Negated(x)) == Negated(Sine(x)) <==> Expo(x) == 255 || x % TWO_31 <= 0x43fe_7811
  {
    hide Index, Flips, Table2, SineSign, FromInt, Product, Expo, Frac, Sign, LooksUp;
    FieldsCompose(x);
    NegatedFields(x);
    SameMagnitude(x);
    if Expo(x) == 255 {
      NegatedEntry(Sign(x), ALL_ONES);
    } else if x % TWO_31 <= 0x43fe_7811 {
      if Expo(x) == 0 {
        NegatedEntry(Sign(x), 0);
      } else if Tabled(x) {
        TabledSineIsOdd(x);
      }
    } else {
      assert Negated(0) == TWO_31 by { NegatedZero(); }
    }
  }

  /** The sines of 512 and of minus 512 are both a zero without a sign. */
  lemma LargeSineLosesSign()
    ensures Negated(0x4400_0000) == 0xc400_0000 && Sine(0x4400_0000) == 0 == Sine(0xc400_0000)
  {
  }

  lemma SameMagnitude(x: nat)
    requires x < WORD
    ensures Negated(x) % TWO_31 == x % TWO_31 && Sign(x) < 2
  {
  }

  lemma NegatedZero()
    ensures Negated(0) == TWO_31
  {
  }

  lemma NegatedEntry(s: nat, t: nat)
    requires s < 2 && t < TWO_31
    ensures Compose(s, 0, t) < WORD && Negated(Compose(s, 0, t)) == Compose(1 - s, 0, t)
  {
  }

  /** sub_3a6886. */
  method ComputeSine(x: nat) returns (r: nat)
    requires x < WORD
    ensures r == Sine(x)
  {
    hide Product, Index, Flips, Table2, FromInt, Exp2, Frac, Expo, Sign, LooksUp;
    FieldsCompose(x);
    LooksUpCoded(x);
    var s, e := Sign(x), Expo(x);
    if e == 255 {
      return ALL_ONES + s * TWO_31;
    }
    if x % TWO_31 > 0x43fe_7811 {
      return 0;
    }
    if e == 0 {
      return s * TWO_31;
    }
    if e < 0x73 || (e == 0x73 && Frac(x) < 0x68_9769) {
      return x;
    }
    var i, k;
    s, i, k := Reduce(x);
    PowerConverts(k);
    Exp2Monotone(k, 28);
    Exp2TwentyEight();
    var power := ConvertInt(Exp2(k), 0);
    Fields(0, 127 + k, 0);
    var q := Multiply(Table2(i), power);
    FieldsCompose(q);
    MantIsNormal(q);
    var wrapped := (Expo(q) + 65536 - k) % 65536;
    r := PackWrapped(s, wrapped, Mant(q), Expo(q) - k);
  }

  lemma LooksUpCoded(x: nat)
    requires x < WORD
    ensures Tabled(x) <==> x % TWO_31 <= 0x43fe_7811 && (Expo(x) > 0x73 || (Expo(x) == 0x73 && Frac(x) >= 0x68_9769))
  {
  }

  lemma Exp2TwentyEight()
    ensures Exp2(28) < WORD
  {
    Exp2Constants();
    Exp2Add(24, 4);
    assert Exp2(4) == 16;
  }

  /** The argument reduction of sub_3a6886: sign of the result, table index, and scale. */
  method Reduce(x: nat) returns (s: nat, i: nat, k: nat)
    requires x < WORD && Tabled(x)
    ensures s == SineSign(x) && s < 2 && Expo(x) <= 0x87
    ensures i == Index(Expo(x), Frac(x)) <= 255 && k == Scale(Expo(x)) && 16 <= k <= 28
  {
    hide Exp2, Times, Quotient, Expo, Frac, Sign;
    FieldsCompose(x);
    IndexFits(Expo(x), Frac(x));
    var e := Expo(x);
    s := Sign(x);
    if e <= 0x7f {
      k := 0x10 + 0x7f - e;
      i := Quotient(Mant(x), Exp2(k));
    } else {
      var v := Times(Mant(x), Exp2(e - 0x7f)) % TWO_PI;
      if v > PI {
        s := 1 - s;
        v := v - PI;
      }
      if v / 65536 > 0xff {
        v := PI - v;
      }
      i := v / 65536;
      k := 0x10;
    }
  }
}
