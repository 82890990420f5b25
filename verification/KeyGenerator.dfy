/** get_xor_key of crypt.c: sixteen bytes drawn from the orbit of a planar map that turns, scales and
    shifts a point and that the bytes of the key stir; and what the result depends on. */
module KeyGenerator {
  import opened Powers
  import opened SoftFloat
  import opened SoftFloatSum
  import opened Cipher

  type Word = w: nat | w < WORD

  // ----- the arithmetic, on words

  lemma SumFits(a: nat, b: nat)
    requires a < WORD && b < WORD
    ensures Sum(a, b) < WORD
  {
    hide Expo, Sign, Frac, RawSum, OrderedSum, Swaps;
    OrderedFits(a, b);
    OrderedFits(b, a);
    SwapsOrders(a, b);
  }

  lemma SwapsOrders(a: nat, b: nat)
    ensures if Swaps(a, b) then Expo(b) >= Expo(a) else Expo(a) >= Expo(b)
  {
  }

  lemma OrderedFits(x: nat, y: nat)
    requires x < WORD
    ensures Expo(x) >= Expo(y) ==> OrderedSum(x, y) < WORD
  {
    hide Expo, Sign, Frac, RawSum, Raised;
    FieldsCompose(x);
    if Expo(x) >= Expo(y) && RawSum(x, y) > 0 {
      RaisedFits(RawSum(x, y), Expo(x));
    }
  }

  lemma {:induction false} RaisedFits(v: nat, e: nat)
    requires v > 0
    ensures Raised(v, e).1 <= e
    decreases e
  {
    if v < TWO_23 && e > 0 {
      RaisedFits(2 * v, e - 1);
    }
  }

  lemma ProductFitsWord(a: nat, b: nat)
    requires a < WORD && b < WORD
    ensures Product(a, b) < WORD
  {
    hide ProductBits, ShiftedDown, Expo, Sign, OrSign;
    FieldsCompose(a);
    FieldsCompose(b);
    var s := (Sign(a) + Sign(b)) % 2;
    OrSignFits(a, s);
    OrSignFits(b, s);
    OrSignFits(ALL_ONES, s);
    ShiftNormalises(Mant(a), Mant(b));
  }

  lemma SineFits(x: nat)
    requires x < WORD
    ensures Sine(x) < WORD
  {
    hide Index, Flips, Table2, FromInt, Product, LooksUp, Scale, SineSign, Pack;
    SineSignIsBit(x);
    if Expo(x) != 255 && x % TWO_31 <= 0x43fe_7811 && Expo(x) != 0 && Tabled(x) {
      SineIsPacked(x);
    }
  }

  lemma SineIsPacked(x: nat)
    requires x < WORD && Expo(x) != 255 && x % TWO_31 <= 0x43fe_7811 && Expo(x) != 0 && Tabled(x)
    ensures Sine(x) < WORD
  {
    hide Index, Flips, Table2, FromInt, Product, Scale, SineSign, Expo, Frac, LooksUp, Pack;
    FieldsCompose(x);
    IndexFits(Expo(x), Frac(x));
    var k := Scale(Expo(x));
    var q := Product(Table2(Index(Expo(x), Frac(x))), FromInt(Exp2(k), 0));
    SineSignIsBit(x);
    MantIsNormal(q);
    PackFits(SineSign(x), Expo(q) - k, Mant(q));
  }

  lemma PackFits(s: nat, e: int, m: nat)
    requires s < 2 && Normal(m)
    ensures Pack(s, e, m) < WORD
  {
  }

  lemma SineSignIsBit(x: nat)
    ensures SineSign(x) < 2 && Sign(x) < 2
  {
  }

  lemma FromIntFits(x: nat, scale: nat)
    ensures FromInt(x, scale) < WORD
  {
    hide Normalised, Short;
  }

  function Plus(a: Word, b: Word): Word {
    SumFits(a, b);
    Sum(a, b)
  }

  function Minus(a: Word, b: Word): Word {
    NegatedFields(b);
    SumFits(a, Negated(b));
    Difference(a, b)
  }

  function Scaling(a: Word, b: Word): Word {
    ProductFitsWord(a, b);
    Product(a, b)
  }

  function Sin(x: Word): Word {
    SineFits(x);
    Sine(x)
  }

  /** sub_3a6b2c: the sine of a quarter turn less the argument. */
  function Cos(x: Word): Word { if x % TWO_31 > 0x43fe_7811 then 0x3f80_0000 else Sin(Minus(0x3fc9_0fdb, x)) }

  /** A number as a fraction of 256. */
  function Fraction(n: Word): Word {
    FromIntFits(n, 8);
    FromInt(n, 8)
  }

  // ----- the map

  datatype Point = Point(x: Word, y: Word)

  datatype Params = Params(gain: Word, shiftX: Word, shiftY: Word, weight: Word, offset: Word)

  function Angle(p: Params, at: Point): Word { Plus(Plus(Scaling(p.weight, at.x), at.y), p.offset) }

  /** The point turned, scaled and shifted. */
  function Turned(p: Params, at: Point, angle: Word): Point {
    var c, s := Cos(angle), Sin(angle);
    Point(
      Plus(Scaling(p.gain, Minus(Scaling(c, at.x), Scaling(s, at.y))), p.shiftX),
      Plus(Scaling(p.gain, Plus(Scaling(s, at.x), Scaling(c, at.y))), p.shiftY))
  }

  /** A signed character as an unsigned word. */
  function Extended(c: Octet): Word { (Signed(c) + WORD) % WORD }

  /** A signed character xored with the low byte of one word, times that of another. */
  function Mixed(c: Octet, low: Word, factor: Word): Word {
    var bits := c ^ ((low % 256) as Octet);
    var signed := if c < 0x80 then bits as int else bits as int - 256;
    signed * (factor % 256) % WORD
  }

  /** One round of the first loop. */
  function Stirred(p: Params, at: Point, c: Octet): Point {
    var angle := Angle(p, at);
    Turned(p, at, Plus(angle, Fraction(Mixed(c, at.x, angle))))
  }

  /** The first sixteen bytes of a key, filled up with zeros. */
  function Scratch(key: seq<Octet>): (s: seq<Octet>)
    ensures |s| == 16
  {
    seq(16, i requires 0 <= i < 16 => if i < |key| then key[i] else 0)
  }

  /** What a round finds at a place of the scratch copy, or in memory behind it at that time. */
  function ByteAt(scratch: seq<Octet>, behind: nat -> Octet, round: nat, place: nat): Octet {
    if place < |scratch| then scratch[place] else behind(round)
  }

  function Params0(scratch: seq<Octet>): Params
    requires |scratch| == 16
  {
    Params(
      0x3f7e_b852,
      Plus(0x3f81_930c, Fraction(Extended(scratch[0]))),
      Minus(0x3f86_f34d, Fraction(Extended(scratch[1]))),
      Plus(0x3f00_4ea5, Fraction(Extended(scratch[4]))),
      Minus(0x3f88_5f07, Fraction(Extended(scratch[5]))))
  }

  function Start(scratch: seq<Octet>): Point
    requires |scratch| == 16
  {
    Point(
      Plus(0x3fc1_930c, Fraction(Extended(scratch[2]))),
      Minus(0x4016_1e4f, Fraction(Extended(scratch[3]))))
  }

  /** The point after so many rounds, for a key of so many bytes. */
  function After(scratch: seq<Octet>, behind: nat -> Octet, size: nat, rounds: nat): Point
    requires |scratch| == 16
  {
    if rounds == 0 then Start(scratch)
    else
      var c := ByteAt(scratch, behind, rounds - 1, Place(rounds - 1, size));
      Stirred(Params0(scratch), After(scratch, behind, size, rounds - 1), c)
  }

  function Drawn(at: Point): seq<Octet> { [High(at.x), Low(at.x), High(at.y), Low(at.y)] }

  /** Bits 16 to 23 of a word, and bits 8 to 15. */
  function High(w: Word): Octet { ToOctet(w / 65536 % 256) }

  function Low(w: Word): Octet { ToOctet(w / 256 % 256) }

  function ToOctet(n: nat): Octet
    requires n < 256
  {
    n as Octet
  }

  /** What n more rounds write. */
  function Orbit(p: Params, at: Point, n: nat): seq<Octet>
    decreases n
  {
    hide Turned, Angle, Drawn;
    if n == 0 then []
    else
      var next := Turned(p, at, Angle(p, at));
      Drawn(next) + Orbit(p, next, n - 1)
  }

  function XorKey(scratch: seq<Octet>, behind: nat -> Octet, size: nat, rounds: nat): seq<Octet>
    requires |scratch| == 16
  {
    Orbit(Params0(scratch), After(scratch, behind, size, rounds), 4)
  }

  // ----- what the result depends on

  /** The point depends on the bytes read only. */
  lemma {:induction false} AfterReads(
    scratch: seq<Octet>, behind: nat -> Octet, behind': nat -> Octet, size: nat, size': nat, rounds: nat)
    requires |scratch| == 16
    requires forall r :: 0 <= r < rounds ==>
               ByteAt(scratch, behind, r, Place(r, size)) == ByteAt(scratch, behind', r, Place(r, size'))
    ensures After(scratch, behind, size, rounds) == After(scratch, behind', size', rounds)
  {
    hide ByteAt, Place, Stirred, Params0, Start;
    if rounds > 0 {
      AfterReads(scratch, behind, behind', size, size', rounds - 1);
    }
  }

  /** get_xor_key, as a function of the key and of what rounds find behind its scratch copy. */
  function Generated(key: seq<Octet>, behind: nat -> Octet): seq<Octet> {
    XorKey(Scratch(key), behind, |key|, Rounds(key))
  }

  lemma SameRounds(key: seq<Octet>, key': seq<Octet>)
    requires CharSum(key) % 32 == CharSum(key') % 32
    ensures Rounds(key) == Rounds(key')
  {
  }

  /** The result depends on the first sixteen bytes, the size and five bits of the sum; and on the
      size only as far as the rounds come to it. */
  lemma KeysCoincide(key: seq<Octet>, key': seq<Octet>, behind: nat -> Octet)
    requires Scratch(key) == Scratch(key') && CharSum(key) % 32 == CharSum(key') % 32
    requires |key| == |key'| || (|key| >= Rounds(key) && |key'| >= Rounds(key))
    ensures Generated(key, behind) == Generated(key', behind)
  {
    hide ByteAt, Place, Scratch, Orbit, After, Params0, CharSum, Rounds;
    SameRounds(key, key');
    forall r | 0 <= r < Rounds(key) ensures Place(r, |key|) == Place(r, |key'|) {
      if |key| != |key'| {
        SmallPlace(r, |key|);
        SmallPlace(r, |key'|);
      }
    }
    AfterReads(Scratch(key), behind, behind, |key|, |key'|, Rounds(key));
  }

  /** A key that is never read past its scratch copy alone decides the result. */
  lemma ShortKeyDecides(key: seq<Octet>, behind: nat -> Octet, behind': nat -> Octet)
    requires |key| <= 16 || Rounds(key) <= 16
    ensures Generated(key, behind) == Generated(key, behind')
  {
    hide Place, Scratch, Orbit, After, Params0, Rounds;
    StaysInScratchIff(key);
    AfterReads(Scratch(key), behind, behind', |key|, |key|, Rounds(key));
  }

  lemma {:induction false} SumAppend(a: seq<Octet>, b: seq<Octet>)
    ensures CharSum(a + b) == CharSum(a) + CharSum(b)
    decreases |b|
  {
    if b == [] {
      assert a + b == a;
    } else {
      var n := |b| - 1;
      assert (a + b)[..|a + b| - 1] == a + b[..n];
      SumAppend(a, b[..n]);
    }
  }

  /** Different keys with one result: bytes behind the sixteenth may change places. */
  lemma TailsMayTurn(front: seq<Octet>, a: seq<Octet>, b: seq<Octet>, behind: nat -> Octet)
    requires |front| >= 16
    ensures Generated(front + a + b, behind) == Generated(front + b + a, behind)
  {
    hide Generated;
    SumAppend(front + a, b);
    SumAppend(front, a);
    SumAppend(front + b, a);
    SumAppend(front, b);
    assert Scratch(front + a + b) == Scratch(front + b + a) by {
      forall i | 0 <= i < 16 ensures Scratch(front + a + b)[i] == Scratch(front + b + a)[i] {
        assert (front + a + b)[i] == front[i] == (front + b + a)[i];
      }
    }
    KeysCoincide(front + a + b, front + b + a, behind);
  }

  // ----- the map, at points where it is known

  const QUARTER: Word := 0x3fc9_0fdb
  const NEAR_ONE: Word := 0x3f7f_fffe

  /** The sine and cosine of nothing and of a quarter turn. */
  lemma QuarterTurn()
    ensures Sin(0) == 0 && Cos(0) == NEAR_ONE && Sin(QUARTER) == NEAR_ONE && Cos(QUARTER) == 0
  {
    hide Sine, Difference;
    SineElsewhereZero();
    SineOfQuarter();
    DifferenceOfEqual(QUARTER);
    QuarterLessZero();
  }

  lemma SineElsewhereZero()
    ensures Sine(0) == 0
  {
    hide Product, Index, Table2, FromInt;
  }

  lemma SineOfQuarter()
    ensures Sine(QUARTER) == NEAR_ONE
  {
    hide Sine, Product, FromInt;
    assert Expo(QUARTER) == 0x7f && Frac(QUARTER) == 0x49_0fdb && Sign(QUARTER) == 0;
    Exp2Constants();
    assert Quotient(TWO_23 + 0x49_0fdb, 65536) == 201;
    SineIsTableEntry(QUARTER);
  }

  lemma QuarterLessZero()
    ensures Difference(QUARTER, 0) == QUARTER
  {
    hide Sum;
    ZeroWord();
    QuarterHasExponent();
    SumElsewhere(QUARTER, 0x8000_0000);
  }

  lemma QuarterHasExponent()
    ensures Expo(QUARTER) != 0 && Expo(0x8000_0000) == 0 && Negated(0) == 0x8000_0000
  {
  }

  lemma ZeroTimes(w: Word)
    ensures Expo(Scaling(0, w)) == 0
  {
    hide Product, Expo;
    ZeroWord();
    ProductElsewhere(0, w);
    ProductFitsWord(0, w);
    NoExponent(Product(0, w));
  }

  lemma ZeroWord()
    ensures Expo(0) == 0
  {
  }

  lemma NoExponent(w: nat)
    requires w < WORD && w % TWO_31 == 0
    ensures Expo(w) == 0
  {
  }

  /** What adding and taking away a zero does. */
  lemma ZeroAdds(z: Word, w: Word)
    ensures Expo(z) == 0 ==> Plus(z, w) == w && Minus(z, w) == Negated(w)
    ensures Expo(z) == 0 && Expo(w) != 0 ==> Plus(w, z) == w && Minus(w, z) == w
  {
    hide Sum, Expo;
    NegatedFields(z);
    NegatedFields(w);
    SumElsewhere(z, w);
    SumElsewhere(w, z);
    SumElsewhere(z, Negated(w));
    SumElsewhere(w, Negated(z));
  }

  /** Not turned at all, a point is only scaled and shifted. */
  lemma TurnedByNothing(p: Params, at: Point)
    ensures var x, y := Scaling(NEAR_ONE, at.x), Scaling(NEAR_ONE, at.y);
            Expo(x) != 0 ==>
              Turned(p, at, 0) == Point(Plus(Scaling(p.gain, x), p.shiftX), Plus(Scaling(p.gain, y), p.shiftY))
  {
    hide Sin, Cos, Plus, Minus, Scaling, Expo;
    QuarterTurn();
    ZeroTimes(at.x);
    ZeroTimes(at.y);
    ZeroAdds(Scaling(0, at.x), Scaling(NEAR_ONE, at.y));
    ZeroAdds(Scaling(0, at.y), Scaling(NEAR_ONE, at.x));
  }

  /** Turned by a quarter, its coordinates change places and the new first one its sign. */
  lemma TurnedByQuarter(p: Params, at: Point)
    ensures var x, y := Scaling(NEAR_ONE, at.x), Scaling(NEAR_ONE, at.y);
            Expo(x) != 0 ==>
              Turned(p, at, QUARTER)
              == Point(Plus(Scaling(p.gain, Minus(0, y)), p.shiftX), Plus(Scaling(p.gain, x), p.shiftY))
  {
    hide Sin, Cos, Plus, Minus, Scaling, Expo, Negated;
    QuarterTurn();
    ZeroWord();
    ZeroAdds(0, Scaling(NEAR_ONE, at.y));
    ZeroTimes(at.x);
    ZeroTimes(at.y);
    ZeroAdds(Scaling(0, at.x), Scaling(NEAR_ONE, at.y));
    ZeroAdds(Scaling(0, at.y), Scaling(NEAR_ONE, at.x));
  }

  /** The angle: the first coordinate weighted, plus the second, plus the offset. */
  lemma AngleIs(p: Params, at: Point)
    ensures at.x == 0 && Expo(p.weight) != 255 ==> Angle(p, at) == Plus(at.y, p.offset)
    ensures at.y == 0 && Expo(Scaling(p.weight, at.x)) != 0 ==> Angle(p, at) == Plus(Scaling(p.weight, at.x), p.offset)
  {
    hide Plus, Minus, Scaling, Expo;
    ZeroWord();
    TimesZero(p.weight);
    ZeroAdds(0, Scaling(p.weight, at.x));
    ZeroAdds(Scaling(p.weight, at.x), at.y);
  }

  lemma TimesZero(w: Word)
    ensures Expo(w) != 255 ==> Expo(Scaling(w, 0)) == 0
  {
    hide Product, Expo;
    ZeroWord();
    ProductElsewhere(w, 0);
    ProductFitsWord(w, 0);
    if Expo(w) != 255 {
      NoExponent(Product(w, 0));
    }
  }

  /** How a character stirs: xored with a byte, its sign kept, times another byte. */
  lemma SomeMixed()
    ensures Mixed(0x80, 0, 3) == 0x1_0000_0000 - 384 && Mixed(0x01, 0x203, 0x105) == 10 && Extended(0xff) == 0xffff_ffff
  {
  }

  /** A plain character, with no bits of the point in its way, turns the angle by itself times the
      low byte of the angle, in units of 1/256. */
  lemma StirredBy(p: Params, at: Point, c: Octet, m: Word)
    requires at.x % 256 == 0 && c < 0x80 && m == c as int * (Angle(p, at) % 256)
    ensures Stirred(p, at, c) == Turned(p, at, Plus(Angle(p, at), Fraction(m)))
  {
    hide Angle, Turned, Plus, Fraction, Mixed;
    MixedPlain(c, at.x, Angle(p, at));
  }

  lemma MixedPlain(c: Octet, low: Word, factor: Word)
    requires low % 256 == 0 && c < 0x80
    ensures c as int * (factor % 256) < WORD && Mixed(c, low, factor) == c as int * (factor % 256)
  {
    SmallOctet(c);
    var n, f := c as int, factor % 256;
    assert n * f <= 127 * f;
  }

  lemma SmallOctet(c: Octet)
    requires c < 0x80
    ensures c ^ 0 == c && 0 <= c as int < 128
  {
  }

  /** The result has sixteen bytes, whatever the key. */
  lemma KeyLength(key: seq<Octet>, behind: nat -> Octet)
    ensures |Generated(key, behind)| == 16
  {
    hide Angle, Turned, Drawn, After, Params0, Scratch, Rounds;
    DrawnLength();
  }

  lemma DrawnLength()
    ensures forall at :: |Drawn(at)| == 4
  {
  }

  /** The four bytes that a point gives: two middle bytes of each coordinate. */
  lemma SomeDrawn()
    ensures Drawn(Point(0x1122_3344, 0x5566_7788)) == [0x22, 0x33, 0x66, 0x77]
  {
    hide High, Low;
    SomeHigh();
    SomeLow();
  }

  lemma SomeHigh()
    ensures High(0x1122_3344) == 0x22 && High(0x5566_7788) == 0x66
  {
    hide ToOctet;
    SomeOctets();
    assert 0x1122_3344 / 65536 == 0x1122 && 0x5566_7788 / 65536 == 0x5566;
  }

  lemma SomeLow()
    ensures Low(0x1122_3344) == 0x33 && Low(0x5566_7788) == 0x77
  {
    hide ToOctet;
    SomeOctets();
    assert 0x1122_3344 / 256 == 0x11_2233 && 0x5566_7788 / 256 == 0x55_6677;
  }

  lemma SomeOctets()
    ensures ToOctet(0x22) == 0x22 && ToOctet(0x33) == 0x33 && ToOctet(0x66) == 0x66 && ToOctet(0x77) == 0x77
  {
  }

  /** What each of the first six bytes is for: zero leaves its constant as it is, one moves it up or
      down by 1/256. */
  lemma FirstBytes(s: seq<Octet>)
    requires |s| == 16
    ensures var p, at := Params0(s), Start(s);
            && p.gain == 0x3f7e_b852
            && (s[0] == 0 ==> p.shiftX == 0x3f81_930c) && (s[0] == 1 ==> p.shiftX == 0x3f82_130c)
            && (s[1] == 0 ==> p.shiftY == 0x3f86_f34d) && (s[1] == 1 ==> p.shiftY == 0x3f86_734d)
            && (s[2] == 0 ==> at.x == 0x3fc1_930c) && (s[2] == 1 ==> at.x == 0x3fc2_130c)
            && (s[3] == 0 ==> at.y == 0x4016_1e4f) && (s[3] == 1 ==> at.y == 0x4015_de4f)
            && (s[4] == 0 ==> p.weight == 0x3f00_4ea5) && (s[4] == 1 ==> p.weight == 0x3f01_4ea5)
            && (s[5] == 0 ==> p.offset == 0x3f88_5f07) && (s[5] == 1 ==> p.offset == 0x3f87_df07)
  {
    hide Plus, Minus, Fraction, Extended;
    SmallFractions();
    Constants();
  }

  /** The six constants, left alone and moved. */
  lemma Constants()
    ensures Plus(0x3f81_930c, 0) == 0x3f81_930c && Plus(0x3f81_930c, 0x3b80_0000) == 0x3f82_130c
    ensures Minus(0x3f86_f34d, 0) == 0x3f86_f34d && Minus(0x3f86_f34d, 0x3b80_0000) == 0x3f86_734d
    ensures Plus(0x3fc1_930c, 0) == 0x3fc1_930c && Plus(0x3fc1_930c, 0x3b80_0000) == 0x3fc2_130c
    ensures Minus(0x4016_1e4f, 0) == 0x4016_1e4f && Minus(0x4016_1e4f, 0x3b80_0000) == 0x4015_de4f
    ensures Plus(0x3f00_4ea5, 0) == 0x3f00_4ea5 && Plus(0x3f00_4ea5, 0x3b80_0000) == 0x3f01_4ea5
    ensures Minus(0x3f88_5f07, 0) == 0x3f88_5f07 && Minus(0x3f88_5f07, 0x3b80_0000) == 0x3f87_df07
  {
    hide Plus, Minus;
    Moved(0x3f81_930c, 8, 0x8000);
    Moved(0x3f86_f34d, 8, 0x8000);
    Moved(0x3fc1_930c, 8, 0x8000);
    Moved(0x4016_1e4f, 9, 0x4000);
    Moved(0x3f00_4ea5, 7, 0x1_0000);
    Moved(0x3f88_5f07, 8, 0x8000);
  }

  lemma SmallFractions()
    ensures Fraction(Extended(0)) == 0 && Fraction(Extended(1)) == 0x3b80_0000
  {
    hide FromInt;
    assert Exp2(0) == 1;
    OneConverts();
  }

  lemma OneConverts()
    ensures FromInt(0, 8) == 0 && FromInt(1, 8) == 0x3b80_0000
  {
    hide Up, Exp2;
    Exp2Constants();
    UpPower(23, 150);
    OnePower();
    DownStep(1, 150);
  }

  lemma OnePower()
    ensures Exp2(0) == 1
  {
  }

  /** A positive word and 1/256. */
  lemma Moved(x: Word, d: nat, step: nat)
    requires 7 <= d <= 9 && step == (if d == 7 then 0x1_0000 else if d == 8 then 0x8000 else 0x4000)
    requires x < TWO_31 && Expo(x) == 119 + d && Frac(x) + step < TWO_23
    ensures Plus(x, 0) == x && Minus(x, 0) == x
    ensures Plus(x, 0x3b80_0000) == x + step && (Frac(x) >= step ==> Minus(x, 0x3b80_0000) == x - step)
  {
    hide Plus, Minus, OrderedSum, Swaps, Expo, Frac, Sign;
    ZeroWord();
    ZeroAdds(0, x);
    FieldsCompose(x);
    MovedFields();
    MovedSum(x, 0x3b80_0000, d, step);
    if Frac(x) >= step {
      MovedSum(x, 0xbb80_0000, d, step);
    }
    PlusIs(x);
  }

  lemma PlusIs(x: Word)
    ensures Plus(x, 0x3b80_0000) == Sum(x, 0x3b80_0000) && Minus(x, 0x3b80_0000) == Sum(x, 0xbb80_0000)
  {
    hide Sum;
  }

  lemma MovedFields()
    ensures Expo(0x3b80_0000) == 119 == Expo(0xbb80_0000) && Frac(0x3b80_0000) == 0 == Frac(0xbb80_0000)
    ensures Sign(0x3b80_0000) == 0 && Sign(0xbb80_0000) == 1
  {
  }

  lemma MovedSum(x: Word, y: Word, d: nat, step: nat)
    requires 7 <= d <= 9 && step == (if d == 7 then 0x1_0000 else if d == 8 then 0x8000 else 0x4000)
    requires x < TWO_31 && Expo(x) == 119 + d && Frac(x) + step < TWO_23
    requires Expo(y) == 119 && Frac(y) == 0 && (Sign(y) != 0 ==> Frac(x) >= step)
    ensures Sum(x, y) == if Sign(y) == 0 then x + step else x - step
  {
    hide Aligned, Expo, Frac, Sign, Raised;
    FieldsCompose(x);
    SignOfPositive(x);
    AlignedStep(y, d, step);
    MantIs(x);
    var v := RawSum(x, y);
    assert v == if Sign(y) == 0 then TWO_23 + Frac(x) + step else TWO_23 + Frac(x) - step;
    NotRaised(v, Expo(x));
  }

  lemma SignOfPositive(x: Word)
    requires x < TWO_31
    ensures Sign(x) == 0
  {
  }

  lemma NotRaised(v: nat, e: nat)
    requires v >= TWO_23
    ensures Raised(v, e) == (v, e)
  {
  }

  lemma AlignedStep(y: nat, d: nat, step: nat)
    requires 7 <= d <= 9 && step == (if d == 7 then 0x1_0000 else if d == 8 then 0x8000 else 0x4000)
    requires Frac(y) == 0
    ensures Aligned(y, d) == step
  {
    hide Frac;
    MantIs(y);
    Exp2Constants();
    assert Exp2(8) == 2 * Exp2(7) && Exp2(9) == 2 * Exp2(8);
  }

  // ----- the steps

  /** sub_3a65b1. */
  method Subtract(a: Word, b: Word) returns (r: Word)
    ensures r == Minus(a, b)
  {
    NegatedFields(b);
    SumFits(a, Negated(b));
    r := Add(a, Negated(b));
  }

  /** sub_3a6b2c. */
  method ComputeCosine(x: Word) returns (r: Word)
    ensures r == Cos(x)
  {
    hide Sine, Difference, Sum;
    if x % TWO_31 > 0x43fe_7811 {
      return 0x3f80_0000;
    }
    var quarter := Subtract(0x3fc9_0fdb, x);
    SineFits(quarter);
    r := ComputeSine(quarter);
  }

  /** A shift by n / 256, up or down, of one of the constants. */
  method Shift(base: Word, c: Octet, up: bool) returns (r: Word)
    ensures r == if up then Plus(base, Fraction(Extended(c))) else Minus(base, Fraction(Extended(c)))
  {
    hide FromInt, Sum, Difference, Extended;
    FromIntFits(Extended(c), 8);
    var n := ConvertInt(Extended(c), 8);
    if up {
      SumFits(base, n);
      r := Add(base, n);
    } else {
      r := Subtract(base, n);
    }
  }

  method ComputeAngle(p: Params, at: Point) returns (r: Word)
    ensures r == Angle(p, at)
  {
    hide Sum, Product;
    r := Multiply(p.weight, at.x);
    SumFits(r, at.y);
    r := Add(r, at.y);
    SumFits(r, p.offset);
    r := Add(r, p.offset);
  }

  method Turn(p: Params, at: Point, angle: Word) returns (next: Point)
    ensures next == Turned(p, at, angle)
  {
    hide Sum, Product, Sine, Difference, Cos;
    var c := ComputeCosine(angle);
    SineFits(angle);
    var s := ComputeSine(angle);
    var a := Multiply(c, at.x);
    var b := Multiply(s, at.y);
    var x := Subtract(a, b);
    x := Multiply(p.gain, x);
    SumFits(x, p.shiftX);
    x := Add(x, p.shiftX);
    a := Multiply(s, at.x);
    b := Multiply(c, at.y);
    SumFits(a, b);
    var y := Add(a, b);
    y := Multiply(p.gain, y);
    SumFits(y, p.shiftY);
    y := Add(y, p.shiftY);
    next := Point(x, y);
  }

  /** The body of the first loop. */
  method Stir(p: Params, at: Point, c: Octet) returns (next: Point)
    ensures next == Stirred(p, at, c)
  {
    hide Sum, FromInt, Mixed, Angle, Turned;
    var angle := ComputeAngle(p, at);
    var m := Mixed(c, at.x, angle);
    FromIntFits(m, 8);
    var n := ConvertInt(m, 8);
    SumFits(angle, n);
    var shifted := Add(angle, n);
    next := Turn(p, at, shifted);
  }

  lemma SameLowBits(n: int, m: int, k: int)
    requires n == m + 32 * k
    ensures n % 32 == m % 32
  {
  }

  lemma WrapKeepsLowBits(n: int, m: int, d: int)
    requires n % 32 == m % 32
    ensures (n + d) % WORD % 32 == (m + d) % 32
  {
    var r := (n + d) % WORD;
    assert r == n + d - WORD * ((n + d) / WORD);
    SameLowBits(r, n + d, -0x800_0000 * ((n + d) / WORD));
    SameLowBits(n + d, m + d, n / 32 - m / 32);
  }

  lemma SumOneMore(key: seq<Octet>, i: nat, sum: Word)
    requires i < |key| && sum % 32 == CharSum(key[..i]) % 32
    ensures (sum + Signed(key[i])) % WORD % 32 == CharSum(key[..i + 1]) % 32
  {
    hide Signed;
    assert key[..i + 1][..i] == key[..i];
    WrapKeepsLowBits(sum, CharSum(key[..i]), Signed(key[i]));
  }

  /** The number of rounds, from a sum that wraps. */
  method CountRounds(key: seq<Octet>) returns (rounds: nat)
    ensures rounds == Rounds(key)
  {
    hide CharSum, Signed;
    var sum: Word := 0;
    EmptySum();
    for i := 0 to |key|
      invariant sum % 32 == CharSum(key[..i]) % 32
    {
      SumOneMore(key, i, sum);
      sum := (sum + Signed(key[i])) % WORD;
    }
    assert key[..|key|] == key;
    rounds := sum % 32 + 16;
  }

  lemma EmptySum()
    ensures CharSum([]) == 0
  {
  }

  /** The constants and the point that the first bytes of the key set. */
  method Prepare(scratch: seq<Octet>) returns (p: Params, at: Point)
    requires |scratch| == 16
    ensures p == Params0(scratch) && at == Start(scratch)
  {
    hide Plus, Minus, Fraction, Extended;
    var shiftX := Shift(0x3f81_930c, scratch[0], true);
    var shiftY := Shift(0x3f86_f34d, scratch[1], false);
    var x := Shift(0x3fc1_930c, scratch[2], true);
    var y := Shift(0x4016_1e4f, scratch[3], false);
    var weight := Shift(0x3f00_4ea5, scratch[4], true);
    var offset := Shift(0x3f88_5f07, scratch[5], false);
    p, at := Params(0x3f7e_b852, shiftX, shiftY, weight, offset), Point(x, y);
  }

  /** get_xor_key. */
  method GetXorKey(key: seq<Octet>, behind: nat -> Octet) returns (xorkey: seq<Octet>)
    ensures xorkey == Generated(key, behind)
  {
    hide Params0, Start, Stirred, Angle, Turned, Drawn, Place, ByteAt, Scratch, Rounds;
    var scratch := Scratch(key);
    var rounds := CountRounds(key);
    var p, at := Prepare(scratch);
    var place: nat := 0;
    FirstPlace(|key|);
    for r := 0 to rounds
      invariant at == After(scratch, behind, |key|, r)
      invariant if place == |key| then Place(r, |key|) == 0 else place == Place(r, |key|)
      invariant |key| == 0 ==> place == r && Place(r, 0) == r
    {
      if place == |key| {
        place := 0;
      }
      at := Stir(p, at, ByteAt(scratch, behind, r, place));
      place := place + 1;
      NextPlace(r, |key|);
      EmptyPlace(r + 1);
    }
    xorkey := [];
    ghost var first := at;
    for n := 0 to 4
      invariant xorkey + Orbit(p, at, 4 - n) == Orbit(p, first, 4)
    {
      var angle := ComputeAngle(p, at);
      OrbitStep(p, at, 4 - n);
      at := Turn(p, at, angle);
      xorkey := xorkey + Drawn(at);
    }
  }

  lemma OrbitStep(p: Params, at: Point, n: nat)
    requires n > 0
    ensures var next := Turned(p, at, Angle(p, at)); Orbit(p, at, n) == Drawn(next) + Orbit(p, next, n - 1)
  {
    hide Turned, Angle, Drawn;
  }
}
