/** What the table sine of crypt.c looks up: the argument reduced to a quarter turn, in steps of 1/128. */
module SoftFloatSine {
  import opened Powers
  import opened SoftFloat
  import opened SoftFloatSum

  /** The argument as a multiple of the scaled pi: the reduction takes away whole half turns, an odd
      number of them exactly when it flips the sign, and folds the rest over a quarter turn. */
  lemma ReductionIsExact(e: nat, f: nat) returns (turns: nat, rest: nat)
    requires e >= 0x7f
    ensures Scaled(e, f) == turns * PI + rest && rest <= PI
    ensures Flips(e, f) <==> turns % 2 == 1
    ensures Folded(e, f) == if rest < 0x100_0000 then rest else PI - rest
    ensures Folded(e, f) < 0x100_0000
  {
    hide Scaled;
    var v := Scaled(e, f);
    turns, rest := 2 * (v / TWO_PI), v % TWO_PI;
    assert v == v / TWO_PI * TWO_PI + v % TWO_PI;
    if Flips(e, f) {
      turns, rest := turns + 1, rest - PI;
    }
  }

  /** The sine of an argument from one on: its sign is that of the argument, reversed once for each
      half turn, and its magnitude the table entry for what is left, folded at a quarter turn. */
  lemma SineTurns(x: nat) returns (turns: nat, rest: nat)
    requires x < WORD && Tabled(x) && Expo(x) >= 0x7f
    ensures Scaled(Expo(x), Frac(x)) == turns * PI + rest && rest <= PI
    ensures Sign(Sine(x)) == (Sign(x) + turns) % 2
    ensures var i := (if rest < 0x100_0000 then rest else PI - rest) / 65536;
            i < 256 && Sine(x) % TWO_31 == Table2(i)
  {
    hide Scaled, Table2, Sine, Index, Flips, Folded;
    var e, f := Expo(x), Frac(x);
    turns, rest := ReductionIsExact(e, f);
    SineIsTableEntry(x);
    IndexIsFolded(e, f);
    FieldsCompose(x);
    var t := Table2(Index(e, f));
    EntryFields(t);
    if e == 0x7f {
      UnturnedOne(f);
    }
    SignedEntry(SineSign(x), t);
    TurnedSign(Sign(x), turns);
  }

  /** Below one the sine has the sign of the argument. */
  lemma SineKeepsSign(x: nat)
    requires x < WORD && Tabled(x) && Expo(x) < 0x7f
    ensures Sign(Sine(x)) == Sign(x)
    ensures Index(Expo(x), Frac(x)) < 256 && Sine(x) % TWO_31 == Table2(Index(Expo(x), Frac(x)))
  {
    hide Table2, Sine, Index, Flips;
    SineIsTableEntry(x);
    FieldsCompose(x);
    SignedEntry(SineSign(x), Table2(Index(Expo(x), Frac(x))));
  }

  lemma SignedEntry(s: nat, t: nat)
    requires s < 2 && t < TWO_31
    ensures Sign(Compose(s, 0, t)) == s && Compose(s, 0, t) % TWO_31 == t
  {
  }

  lemma TurnedSign(s: nat, turns: nat)
    requires s < 2
    ensures (s + turns) % 2 == if turns % 2 == 1 then 1 - s else s
  {
  }

  lemma UnturnedOne(f: nat)
    requires f < TWO_23
    ensures Scaled(0x7f, f) == TWO_23 + f && !Flips(0x7f, f)
  {
    assert Exp2(0) == 1;
  }

  lemma IndexIsFolded(e: nat, f: nat)
    requires 0x7f <= e <= 0x87 && f < TWO_23
    ensures Index(e, f) == Folded(e, f) / 65536
  {
    if e == 0x7f {
      UnturnedOne(f);
      Exp2Constants();
      assert Times(TWO_23 + f, Exp2(0)) == TWO_23 + f;
    }
  }

  /** Which arguments are looked up, in one comparison; the others give themselves, a zero with
      their sign, a zero without one, or a not-a-number. */
  lemma SineElsewhere(x: nat)
    requires x < WORD
    ensures Tabled(x) <==> 0x39e8_9769 <= x % TWO_31 <= 0x43fe_7811
    ensures 0x80_0000 <= x % TWO_31 < 0x39e8_9769 ==> Sine(x) == x
    ensures x % TWO_31 < 0x80_0000 ==> Sine(x) == x / TWO_31 * TWO_31
    ensures 0x43fe_7811 < x % TWO_31 < 0x7f80_0000 ==> Sine(x) == 0
    ensures 0x7f80_0000 <= x % TWO_31 ==> Sine(x) == x / TWO_31 * TWO_31 + ALL_ONES
  {
    hide Index, Flips, Table2, SineSign, FromInt, Product;
    FieldsCompose(x);
    LooksUpCoded(x);
    assert x % TWO_31 == Expo(x) * TWO_23 + Frac(x) && Sign(x) == x / TWO_31;
  }

  /** The sines of two, four and minus four. */
  lemma SomeSines()
    ensures Sine(0x4000_0000) == 0x3f68_ad4c
    ensures Sine(0x4080_0000) == 0xbf40_976f && Sine(0xc080_0000) == 0x3f40_976f
  {
    hide Sine;
    SineOfPower(0x4000_0000, 1, 146);
    SineOfPower(0x4080_0000, 2, 109);
    SineOfPower(0xc080_0000, 2, 109);
  }

  lemma SineOfPower(x: nat, n: nat, i: nat)
    requires x < WORD && x % TWO_31 == 0x3f80_0000 + n * TWO_23 && 1 <= n <= 2
    requires i == if n == 1 then 146 else 109
    ensures Sine(x) == Compose(if n == 2 then 1 - Sign(x) else Sign(x), 0, Table2(i))
  {
    hide Table2, Sine;
    FieldsCompose(x);
    assert Expo(x) == 0x7f + n && Frac(x) == 0;
    assert Exp2(1) == 2 && Exp2(2) == 4;
    assert Times(TWO_23, Exp2(n)) == if n == 1 then 0x100_0000 else 0x200_0000;
    SineIsTableEntry(x);
  }

  /** Up to two, the index is the argument counted in steps of 1/128. */
  lemma IndexCountsSteps(x: nat)
    requires x < WORD && Tabled(x) && Expo(x) <= 0x7f
    ensures Index(Expo(x), Frac(x)) as real <= Magnitude(x) * 128.0 < Index(Expo(x), Frac(x)) as real + 1.0
  {
    hide Pow2, Exp2, Quotient, Expo, Frac, Mant, Weighted, Times, LooksUp;
    FieldsCompose(x);
    IndexFits(Expo(x), Frac(x));
    var k, u := Scale(Expo(x)), Pow2(Expo(x) - 150);
    var i := Index(Expo(x), Frac(x));
    Significand(x);
    QuotientBounds(Mant(x), Exp2(k));
    Pow2Step(Expo(x) - 150);
    WeightedLess(Times(i, Exp2(k)), Mant(x), u);
    WeightedLess(Mant(x), Times(i + 1, Exp2(k)), u);
    WeightedTimes(i, Exp2(k), u);
    WeightedTimes(i + 1, Exp2(k), u);
    StepWeight(Expo(x), k);
    MagnitudeWeighs(x);
    WeightedAdd(i, 1, 1.0 / 128.0);
    WeighStep(i);
    WeighStep(i + 1);
  }

  lemma Significand(x: nat)
    ensures Mant(x) == TWO_23 + Frac(x)
  {
  }

  lemma WeighStep(i: int)
    ensures Weighted(i, 1.0 / 128.0) * 128.0 == i as real
  {
  }

  lemma StepWeight(e: nat, k: nat)
    requires 0x73 <= e <= 0x7f && k == Scale(e)
    ensures Weighted(Exp2(k), Pow2(e - 150)) == 1.0 / 128.0
  {
    hide Pow2, Exp2;
    Exp2IsPow2(k);
    Pow2Add(e - 150, k);
    assert e - 150 + k == -7;
    Pow2Add(-7, 7);
    Exp2IsPow2(7);
    Exp2Seven();
    UnitPower();
  }

  lemma Exp2Seven()
    ensures Exp2(7) == 128
  {
    assert Exp2(3) == 8;
    assert Exp2(5) == 32;
  }

  lemma UnitPower()
    ensures Pow2(0) == 1.0
  {
  }
}
