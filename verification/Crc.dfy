/** CRC-32 as the loader computes it, one bit at a time (section 8 of RFC 1952), and the error
    bursts it is certain to detect. */
module Crc {
  import opened Bytes
  import opened Powers

  const POLY: bv32 := 0xedb8_8320

  // ----- registers

  function Xor(a: bv32, b: bv32): bv32 { a ^ b }

  function Half(w: bv32): bv32 { w >> 1 }

  predicate Odd(w: bv32) { w & 1 == 1 }

  function Double(w: bv32, odd: bool): bv32 { if odd then (w << 1) | 1 else w << 1 }

  lemma XorCancels(a: bv32, b: bv32, w: bv32)
    requires Xor(a, w) == Xor(b, w)
    ensures a == b
  {
    assert (a ^ w) ^ w == a;
    assert (b ^ w) ^ w == b;
  }

  lemma HalvesDecide(a: bv32, b: bv32)
    requires Half(a) == Half(b) && Odd(a) == Odd(b)
    ensures a == b
  {
  }

  lemma DoubleHalves(w: bv32, odd: bool)
    requires w <= 0x7fff_ffff
    ensures Half(Double(w, odd)) == w && Odd(Double(w, odd)) == odd
  {
    DoubleBits(w);
  }

  lemma DoubleBits(w: bv32)
    requires w <= 0x7fff_ffff
    ensures ((w << 1) | 1) >> 1 == w && (w << 1) >> 1 == w
    ensures ((w << 1) | 1) & 1 == 1 && (w << 1) & 1 == 0
  {
  }

  /** The k low-order bits of a number as a register. */
  function Bits(n: nat, k: nat): bv32
    decreases k
  {
    if k == 0 then 0 else Double(Bits(n / 2, k - 1), n % 2 == 1)
  }

  /** The value of the k low-order bits of a register. */
  function Number(w: bv32, k: nat): nat
    decreases k
  {
    if k == 0 then 0 else 2 * Number(Half(w), k - 1) + (if Odd(w) then 1 else 0)
  }

  /** Shifted right one place k times. */
  function Shifted(w: bv32, k: nat): bv32
    decreases k
  {
    if k == 0 then w else Shifted(Half(w), k - 1)
  }

  lemma {:induction false} NumberInjective(a: bv32, b: bv32, k: nat)
    requires Number(a, k) == Number(b, k) && Shifted(a, k) == Shifted(b, k)
    ensures a == b
    decreases k
  {
    hide Half, Odd;
    if k > 0 {
      NumberInjective(Half(a), Half(b), k - 1);
      HalvesDecide(a, b);
    }
  }

  function Mask(k: nat): bv32
    requires k <= 8
  {
    if k == 8 then 0xff else if k == 7 then 0x7f else if k == 6 then 0x3f else if k == 5 then 0x1f
    else if k == 4 then 0xf else if k == 3 then 7 else if k == 2 then 3 else if k == 1 then 1 else 0
  }

  lemma DoubleMask(w: bv32, odd: bool, k: nat)
    requires 1 <= k <= 8 && w <= Mask(k - 1)
    ensures Double(w, odd) <= Mask(k) && w <= 0x7fff_ffff
  {
  }

  /** The k low-order bits of a number below 2^k are the number. */
  lemma {:induction false} BitsRoundTrip(n: nat, k: nat)
    requires k <= 8 && n < Exp2(k)
    ensures Number(Bits(n, k), k) == n && Bits(n, k) <= Mask(k)
    decreases k
  {
    hide Half, Odd, Double, Mask;
    if k > 0 {
      BitsRoundTrip(n / 2, k - 1);
      DoubleMask(Bits(n / 2, k - 1), n % 2 == 1, k);
      DoubleHalves(Bits(n / 2, k - 1), n % 2 == 1);
    } else {
      MaskZero();
    }
  }

  lemma MaskZero()
    ensures Bits(0, 0) <= Mask(0)
  {
  }

  /** A byte in the low end of a register. */
  function Word(b: Byte): bv32 { Bits(b as nat, 8) }

  lemma WordRoundTrip(b: Byte)
    ensures Number(Word(b), 8) == b as nat && Word(b) <= 0xff
  {
    hide Bits, Number;
    assert Exp2(8) == 2 * Exp2(7) == 4 * Exp2(6) == 8 * Exp2(5) == 16 * Exp2(4) == 32 * Exp2(3) == 64 * Exp2(2) == 256;
    BitsRoundTrip(b as nat, 8);
  }

  /** The value of a register as an unsigned 32-bit number. */
  function Value(w: bv32): nat
    decreases w
  {
    if w == 0 then 0
    else
      HalfIsLess(w);
      2 * Value(Half(w)) + (if Odd(w) then 1 else 0)
  }

  lemma HalfIsLess(w: bv32)
    requires w != 0
    ensures Half(w) < w
  {
  }

  lemma HalfOfZero()
    ensures Half(0) == 0 && !Odd(0)
  {
  }

  /** Once all bits are shifted out, the value is the number its k low-order bits spell. */
  lemma {:induction false} ValueIsNumber(w: bv32, k: nat)
    requires Shifted(w, k) == 0
    ensures Value(w) == Number(w, k)
    decreases k
  {
    hide Half, Odd;
    if k > 0 {
      ValueIsNumber(Half(w), k - 1);
      if w == 0 { HalfOfZero(); } else { HalfIsLess(w); }
    }
  }

  lemma {:induction false} NumberBound(w: bv32, k: nat)
    ensures Number(w, k) < Exp2(k)
    decreases k
  {
    hide Half, Odd;
    if k > 0 {
      NumberBound(Half(w), k - 1);
    }
  }

  lemma ValueBound(w: bv32)
    ensures Value(w) < 0x1_0000_0000
  {
    hide Number, Shifted, Value;
    AllShiftedOut(w);
    ValueIsNumber(w, 32);
    NumberBound(w, 32);
    Exp2Word();
  }

  lemma {:induction false} ShiftedAdd(w: bv32, j: nat, k: nat)
    ensures Shifted(w, j + k) == Shifted(Shifted(w, j), k)
    decreases j
  {
    hide Half;
    if j > 0 {
      ShiftedAdd(Half(w), j - 1, k);
    }
  }

  lemma ShiftedByte(w: bv32)
    ensures Shifted(w, 8) == w >> 8
  {
    hide Half;
    var h := Half(Half(Half(Half(w))));
    assert Shifted(w, 8) == Shifted(Half(Half(w)), 6) == Shifted(h, 4);
    assert Shifted(h, 4) == Shifted(Half(Half(h)), 2) == Half(Half(Half(Half(h))));
    HalfEightTimes(w);
  }

  lemma HalfEightTimes(w: bv32)
    ensures Half(Half(Half(Half(Half(Half(Half(Half(w)))))))) == w >> 8
  {
  }

  lemma AllShiftedOut(w: bv32)
    ensures Shifted(w, 32) == 0
  {
    hide Shifted;
    ShiftedAdd(w, 8, 24);
    ShiftedByte(w);
    ShiftedAdd(w >> 8, 8, 16);
    ShiftedByte(w >> 8);
    ShiftedAdd(w >> 16, 8, 8);
    ShiftedByte(w >> 16);
    ShiftedByte(w >> 24);
    assert (w >> 8) >> 8 == w >> 16 && (w >> 16) >> 8 == w >> 24 && (w >> 24) >> 8 == 0;
  }

  /** Different registers have different values. */
  lemma ValueInjective(a: bv32, b: bv32)
    requires Value(a) == Value(b)
    ensures a == b
  {
    hide Number, Shifted, Value;
    AllShiftedOut(a);
    AllShiftedOut(b);
    ValueIsNumber(a, 32);
    ValueIsNumber(b, 32);
    NumberInjective(a, b, 32);
  }

  // ----- the evolution of the register

  /** One bit: shift right, and fold the polynomial in when a one fell out. */
  function BitStep(crc: bv32): bv32 {
    Xor(Half(crc), if Odd(crc) then POLY else 0)
  }

  /** The state a bit step came from: the polynomial's top bit tells whether it was folded in. */
  function BitBack(crc: bv32): bv32 {
    if crc & 0x8000_0000 != 0 then Double(Xor(crc, POLY), true) else Double(crc, false)
  }

  lemma BitStepInvertible(crc: bv32)
    ensures BitBack(BitStep(crc)) == crc
  {
  }

  function Steps(crc: bv32, n: nat): bv32
    decreases n
  {
    if n == 0 then crc else Steps(BitStep(crc), n - 1)
  }

  lemma {:induction false} StepsAdd(crc: bv32, j: nat, k: nat)
    ensures Steps(crc, j + k) == Steps(Steps(crc, j), k)
    decreases j
  {
    hide BitStep;
    if j > 0 {
      StepsAdd(BitStep(crc), j - 1, k);
    }
  }

  /** The register's evolution is a bijection: no two states ever meet. */
  lemma {:induction false} StepsInjective(a: bv32, b: bv32, n: nat)
    requires Steps(a, n) == Steps(b, n)
    ensures a == b
    decreases n
  {
    hide BitStep, BitBack;
    if n > 0 {
      StepsInjective(BitStep(a), BitStep(b), n - 1);
      BitStepInvertible(a);
      BitStepInvertible(b);
    }
  }

  /** One byte enters at the low end and is stepped through. */
  function ByteStep(crc: bv32, b: Byte): bv32 { Steps(Xor(crc, Word(b)), 8) }

  /** crc32_update. */
  function Update(crc: bv32, data: seq<Byte>): bv32
    decreases |data|
  {
    if data == [] then crc else Update(ByteStep(crc, data[0]), data[1..])
  }

  const START: bv32 := 0xffff_ffff

  /** The final complement, and the number that the register then stands for. */
  function Finish(crc: bv32): nat { Value(Xor(crc, START)) }

  /** The CRC-32 of some data. */
  function Checksum(data: seq<Byte>): nat { Finish(Update(START, data)) }

  lemma ChecksumBound(data: seq<Byte>)
    ensures Checksum(data) < 0x1_0000_0000
  {
    ValueBound(Xor(Update(START, data), START));
  }

  lemma FinishInjective(a: bv32, b: bv32)
    requires Finish(a) == Finish(b)
    ensures a == b
  {
    hide Xor, Value;
    ValueInjective(Xor(a, START), Xor(b, START));
    XorCancels(a, b, START);
  }

  lemma UpdateEmpty(crc: bv32)
    ensures Update(crc, []) == crc
  {
  }

  lemma UpdateSnoc(crc: bv32, data: seq<Byte>, b: Byte)
    ensures Update(crc, data + [b]) == ByteStep(Update(crc, data), b)
  {
    hide ByteStep;
    UpdateAppend(crc, data, [b]);
    assert [b][1..] == [];
  }

  /** The inner loop of crc32_update. */
  method FeedByte(crc: bv32, b: Byte) returns (r: bv32)
    ensures r == ByteStep(crc, b)
  {
    hide BitStep, Xor, Word;
    r := Xor(crc, Word(b));
    for bit := 0 to 8
      invariant Steps(Xor(crc, Word(b)), 8) == Steps(r, 8 - bit)
    {
      r := BitStep(r);
    }
  }

  /** crc32_update on part of a buffer. */
  method Feed(crc: bv32, data: array<Byte>, from: nat, size: nat) returns (r: bv32)
    requires from + size <= data.Length
    ensures r == Update(crc, data[from..from + size])
  {
    hide ByteStep;
    r := crc;
    for i := 0 to size
      invariant r == Update(crc, data[from..from + i])
    {
      assert data[from..from + i + 1] == data[from..from + i] + [data[from + i]];
      UpdateSnoc(crc, data[from..from + i], data[from + i]);
      r := FeedByte(r, data[from + i]);
    }
  }

  lemma {:induction false} UpdateAppend(crc: bv32, a: seq<Byte>, b: seq<Byte>)
    ensures Update(crc, a + b) == Update(Update(crc, a), b)
    decreases |a|
  {
    hide ByteStep;
    if a == [] {
      assert a + b == b;
    } else {
      assert (a + b)[1..] == a[1..] + b;
      UpdateAppend(ByteStep(crc, a[0]), a[1..], b);
    }
  }

  lemma ByteStepInjective(a: bv32, b: bv32, d: Byte)
    requires ByteStep(a, d) == ByteStep(b, d)
    ensures a == b
  {
    hide Steps, Xor, Word;
    StepsInjective(Xor(a, Word(d)), Xor(b, Word(d)), 8);
    XorCancels(a, b, Word(d));
  }

  /** Different states stay different over the same data. */
  lemma {:induction false} UpdateInjective(a: bv32, b: bv32, data: seq<Byte>)
    requires Update(a, data) == Update(b, data)
    ensures a == b
    decreases |data|
  {
    hide ByteStep;
    if data != [] {
      UpdateInjective(ByteStep(a, data[0]), ByteStep(b, data[0]), data[1..]);
      ByteStepInjective(a, b, data[0]);
    }
  }

  // ----- bursts of up to four bytes

  /** The k low-order bits are zero. */
  predicate LowClear(y: bv32, k: nat)
    decreases k
  {
    k == 0 || (!Odd(y) && LowClear(Half(y), k - 1))
  }

  lemma XorBits(c: bv32, y: bv32)
    requires !Odd(y)
    ensures Odd(Xor(c, y)) == Odd(c) && Half(Xor(c, y)) == Xor(Half(c), Half(y))
  {
  }

  lemma XorSwaps(a: bv32, b: bv32, c: bv32)
    ensures Xor(Xor(a, b), c) == Xor(Xor(a, c), b)
  {
    hide Xor;
    XorAssociates(a, b, c);
    XorCommutes(b, c);
    XorAssociates(a, c, b);
  }

  /** Bits that have not reached the low end yet are only shifted by a step. */
  lemma StepXor(c: bv32, y: bv32)
    requires !Odd(y)
    ensures BitStep(Xor(c, y)) == Xor(BitStep(c), Half(y))
  {
    hide Xor, Odd, Half;
    XorBits(c, y);
    XorSwaps(Half(c), Half(y), if Odd(c) then POLY else 0);
  }

  lemma {:induction false} StepsXor(c: bv32, y: bv32, k: nat)
    requires LowClear(y, k)
    ensures Steps(Xor(c, y), k) == Xor(Steps(c, k), Shifted(y, k))
    decreases k
  {
    hide Xor, BitStep, Half, Odd;
    if k > 0 {
      StepXor(c, y);
      StepsXor(BitStep(c), Half(y), k - 1);
    }
  }

  function Up(w: bv32): bv32 { w << 8 }

  /** Up to four bytes, the first in the low end, as one register. */
  function Register(data: seq<Byte>): bv32
    decreases |data|
  {
    if data == [] then 0 else Xor(Word(data[0]), Up(Register(data[1..])))
  }

  /** The register holds no more than n bytes. */
  predicate Within(w: bv32, n: nat)
    requires n <= 4
  {
    w <= if n == 4 then 0xffff_ffff
         else if n == 3 then 0xff_ffff
         else if n == 2 then 0xffff
         else if n == 1 then 0xff
         else 0
  }

  lemma JoinByte(w: bv32, r: bv32, n: nat)
    requires w <= 0xff && 1 <= n <= 4 && Within(r, n - 1)
    ensures Within(Xor(w, Up(r)), n)
  {
  }

  lemma JoinInjective(w: bv32, r: bv32, w': bv32, r': bv32, n: nat)
    requires w <= 0xff && w' <= 0xff && 1 <= n <= 4 && Within(r, n - 1) && Within(r', n - 1)
    requires Xor(w, Up(r)) == Xor(w', Up(r'))
    ensures w == w' && r == r'
  {
    JoinParts(w, r, n);
    JoinParts(w', r', n);
  }

  lemma JoinParts(w: bv32, r: bv32, n: nat)
    requires w <= 0xff && 1 <= n <= 4 && Within(r, n - 1)
    ensures Xor(w, Up(r)) >> 8 == r && Xor(w, Up(r)) & 0xff == w
  {
  }

  lemma {:induction false} RegisterBound(data: seq<Byte>)
    requires |data| <= 4
    ensures Within(Register(data), |data|)
    decreases |data|
  {
    hide Word, Xor, Up, Number;
    if data != [] {
      hide Within;
      WordRoundTrip(data[0]);
      RegisterBound(data[1..]);
      JoinByte(Word(data[0]), Register(data[1..]), |data|);
    }
  }

  lemma {:induction false} RegisterInjective(a: seq<Byte>, b: seq<Byte>)
    requires |a| == |b| <= 4 && Register(a) == Register(b)
    ensures a == b
    decreases |a|
  {
    hide Word, Xor, Up, Within, Number;
    if a != [] {
      WordRoundTrip(a[0]);
      WordRoundTrip(b[0]);
      RegisterBound(a[1..]);
      RegisterBound(b[1..]);
      JoinInjective(Word(a[0]), Register(a[1..]), Word(b[0]), Register(b[1..]), |a|);
      RegisterInjective(a[1..], b[1..]);
      assert a == [a[0]] + a[1..] && b == [b[0]] + b[1..];
    }
  }

  lemma ByteIsClear(w: bv32)
    ensures LowClear(Up(w), 8)
  {
    hide Half, Odd;
    var y0 := Up(w);
    var y1, y2 := Half(y0), Half(Half(y0));
    var y3, y4 := Half(y2), Half(Half(y2));
    var y5, y6 := Half(y4), Half(Half(y4));
    var y7 := Half(y6);
    LowBits(w);
    assert LowClear(y6, 2) && LowClear(y4, 4) && LowClear(y2, 6);
  }

  lemma LowBits(w: bv32)
    ensures var y := Up(w);
            && !Odd(y) && !Odd(Half(y)) && !Odd(Half(Half(y)))
            && !Odd(Half(Half(Half(y)))) && !Odd(Half(Half(Half(Half(y)))))
            && !Odd(Half(Half(Half(Half(Half(y)))))) && !Odd(Half(Half(Half(Half(Half(Half(y)))))))
            && !Odd(Half(Half(Half(Half(Half(Half(Half(y))))))))
  {
  }

  lemma UpShifted(w: bv32)
    requires Within(w, 3)
    ensures Shifted(Up(w), 8) == w
  {
    hide Shifted, Up, Within;
    ShiftedByte(Up(w));
    UpDown(w);
  }

  lemma UpDown(w: bv32)
    requires Within(w, 3)
    ensures Up(w) >> 8 == w
  {
  }

  /** A value of at most 24 bits that enters eight steps early, eight places up, is there unchanged
      after eight steps. */
  lemma StepsCarry(c: bv32, w: bv32)
    requires Within(w, 3)
    ensures Steps(Xor(c, Up(w)), 8) == Xor(Steps(c, 8), w)
  {
    hide Steps, Xor, Shifted, LowClear, Up, Within;
    ByteIsClear(w);
    StepsXor(c, Up(w), 8);
    UpShifted(w);
  }

  /** Up to four bytes act on the register as if all had entered at once. */
  lemma {:induction false} UpdateIsSteps(c: bv32, data: seq<Byte>)
    requires |data| <= 4
    ensures Update(c, data) == Steps(Xor(c, Register(data)), 8 * |data|)
    decreases |data|
  {
    hide Steps, Word, Xor, Up, Within;
    if data == [] {
      StepsNone(c);
    } else {
      var w, r := Word(data[0]), Register(data[1..]);
      UpdateIsSteps(ByteStep(c, data[0]), data[1..]);
      RegisterBound(data[1..]);
      WithinThree(r, |data[1..]|);
      StepsCarry(Xor(c, w), r);
      XorAssociates(c, w, Up(r));
      StepsAdd(Xor(c, Register(data)), 8, 8 * |data[1..]|);
    }
  }

  lemma StepsNone(c: bv32)
    ensures Steps(Xor(c, 0), 0) == c
  {
  }

  lemma WithinThree(w: bv32, n: nat)
    requires n <= 3 && Within(w, n)
    ensures Within(w, 3)
  {
  }

  lemma XorAssociates(a: bv32, b: bv32, c: bv32)
    ensures Xor(Xor(a, b), c) == Xor(a, Xor(b, c))
  {
  }

  /** Two stretches of data that differ only inside one window of up to four bytes never have the
      same checksum. */
  lemma BurstIsDetected(prefix: seq<Byte>, a: seq<Byte>, b: seq<Byte>, suffix: seq<Byte>)
    requires |a| == |b| <= 4 && a != b
    ensures Checksum(prefix + a + suffix) != Checksum(prefix + b + suffix)
  {
    hide Update, Finish;
    var c := Update(START, prefix);
    UpdateAppend(START, prefix + a, suffix);
    UpdateAppend(START, prefix, a);
    UpdateAppend(START, prefix + b, suffix);
    UpdateAppend(START, prefix, b);
    if Checksum(prefix + a + suffix) == Checksum(prefix + b + suffix) {
      FinishInjective(Update(START, prefix + a + suffix), Update(START, prefix + b + suffix));
      UpdateInjective(Update(c, a), Update(c, b), suffix);
      WindowInjective(c, a, b);
    }
  }

  lemma WindowInjective(c: bv32, a: seq<Byte>, b: seq<Byte>)
    requires |a| == |b| <= 4 && Update(c, a) == Update(c, b)
    ensures a == b
  {
    hide Xor, Update, Steps, Register;
    UpdateIsSteps(c, a);
    UpdateIsSteps(c, b);
    StepsInjective(Xor(c, Register(a)), Xor(c, Register(b)), 8 * |a|);
    XorCommutes(c, Register(a));
    XorCommutes(c, Register(b));
    XorCancels(Register(a), Register(b), c);
    RegisterInjective(a, b);
  }

  lemma XorCommutes(a: bv32, b: bv32)
    ensures Xor(a, b) == Xor(b, a)
  {
  }

  /** A check value: after one byte of zero the register holds the complement of 0xd202_ef8d. */
  lemma CheckValue()
    ensures Update(START, [0]) == 0x2dfd_1072 && Finish(START) == 0
  {
    hide BitStep, Word;
    ZeroWord();
    var c: bv32 := START;
    assert Xor(c, 0) == c;
    EightSteps();
    assert ByteStep(c, 0) == Steps(c, 8);
    assert [0 as Byte][1..] == [];
    assert Update(c, [0]) == Update(ByteStep(c, 0), []);
  }

  lemma ZeroWord()
    ensures Word(0) == 0
  {
  }

  lemma EightSteps()
    ensures Steps(0xffff_ffff, 8) == 0x2dfd_1072
  {
    OneStep();
    hide BitStep;
    assert Steps(0xffff_ffff, 8) == Steps(0xb242_0de3, 4);
    assert Steps(0xb242_0de3, 4) == 0x2dfd_1072;
  }

  lemma OneStep()
    ensures BitStep(0xffff_ffff) == 0x9247_7cdf
    ensures BitStep(0x9247_7cdf) == 0xa49b_3d4f
    ensures BitStep(0xa49b_3d4f) == 0xbff5_1d87
    ensures BitStep(0xbff5_1d87) == 0xb242_0de3
    ensures BitStep(0xb242_0de3) == 0xb499_85d1
    ensures BitStep(0xb499_85d1) == 0xb7f4_41c8
    ensures BitStep(0xb7f4_41c8) == 0x5bfa_20e4
    ensures BitStep(0x5bfa_20e4) == 0x2dfd_1072
  {
  }
}
