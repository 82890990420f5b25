/** The number printer of sprintf.c and the number reader of stdlib.c, on 32-bit words. */
module Printf {
  import opened Powers

  const WORD: int := 0x1_0000_0000
  const MAX: int := 0x7fff_ffff
  const PRINT_BUF_LEN: nat := 12

  /** A 32-bit int. */
  type Int = x: int | -0x8000_0000 <= x <= MAX

  predicate IsBase(b: nat) { b == 8 || b == 10 || b == 16 }

  /** The int that arithmetic on words makes of a number. */
  function Wrap(x: int): (w: Int) { (x + 0x8000_0000) % WORD - 0x8000_0000 }

  function Quot(u: nat, b: nat): nat
    requires IsBase(b)
  {
    if b == 8 then u / 8 else if b == 10 then u / 10 else u / 16
  }

  function Rem(u: nat, b: nat): nat
    requires IsBase(b)
  {
    if b == 8 then u % 8 else if b == 10 then u % 10 else u % 16
  }

  function Scaled(a: int, b: nat): int
    requires IsBase(b)
  {
    if b == 8 then a * 8 else if b == 10 then a * 10 else a * 16
  }

  lemma QuotRem(u: nat, b: nat)
    requires IsBase(b)
    ensures u == Scaled(Quot(u, b), b) + Rem(u, b) && Rem(u, b) < b && (u > 0 ==> Quot(u, b) < u)
  {
  }

  lemma WrapShift(x: int, k: int)
    ensures Wrap(x + k * WORD) == Wrap(x)
  {
  }

  lemma WrapSmall(x: Int)
    ensures Wrap(x) == x
  {
  }

  /** A step of reading gives the same word whether or not the part read so far has wrapped. */
  lemma WrapScaled(q: int, r: int, b: nat)
    requires IsBase(b)
    ensures Wrap(Scaled(Wrap(q), b) + r) == Wrap(Scaled(q, b) + r)
  {
    var k := (q + 0x8000_0000) / WORD;
    assert q == Wrap(q) + k * WORD;
    WrapShift(Scaled(Wrap(q), b) + r, Scaled(k, b));
  }

  // ----- printing

  function DigitChar(t: nat, upper: bool): char
    requires t < 16
  {
    if t < 10 then '0' + t as char else (if upper then 'A' else 'a') + (t - 10) as char
  }

  function Digits(u: nat, b: nat, upper: bool): string
    requires IsBase(b)
    decreases u
  {
    if u == 0 then ""
    else QuotRem(u, b); Digits(Quot(u, b), b, upper) + [DigitChar(Rem(u, b), upper)]
  }

  function Repeat(c: char, n: nat): (s: string)
    ensures |s| == n && forall k :: 0 <= k < n ==> s[k] == c
  {
    if n == 0 then "" else [c] + Repeat(c, n - 1)
  }

  /** How a directive pads: on the right, with zeros. */
  datatype Pad = Pad(right: bool, zero: bool)

  function Fill(length: nat, width: int): nat { if length < width then width - length else 0 }

  /** What prints writes. */
  function Padded(s: string, width: int, pad: Pad): string {
    var gap := Repeat(if pad.zero then '0' else ' ', Fill(|s|, width));
    if pad.right then s + gap else gap + s
  }

  datatype Conversion = Decimal | Unsigned | Hex(upper: bool)

  function Base(c: Conversion): (b: nat)
    ensures IsBase(b)
  {
    if c.Hex? then 16 else 10
  }

  predicate Negative(i: Int, c: Conversion) { c == Decimal && i < 0 }

  /** The unsigned word whose digits are printed. */
  function Magnitude(i: Int, c: Conversion): (u: nat)
    ensures u < WORD && (i == 0 <==> u == 0)
  {
    if Negative(i, c) then -(i as int) else if i < 0 then i + WORD else i
  }

  function NumberDigits(i: Int, c: Conversion): string {
    Digits(Magnitude(i, c), Base(c), c == Hex(true))
  }

  /** The number without padding. */
  function Natural(i: Int, c: Conversion): string {
    if i == 0 then "0" else if Negative(i, c) then "-" + NumberDigits(i, c) else NumberDigits(i, c)
  }

  /** What printi writes: zeros go between the sign and the digits, anything else around both. */
  function Shown(i: Int, c: Conversion, width: int, pad: Pad): string {
    if i != 0 && Negative(i, c) && width != 0 && pad.zero then "-" + Padded(NumberDigits(i, c), width - 1, pad)
    else Padded(Natural(i, c), width, pad)
  }

  lemma ShownLength(i: Int, c: Conversion, width: nat, pad: Pad)
    ensures |Shown(i, c, width, pad)| == if |Natural(i, c)| < width then width else |Natural(i, c)|
  {
    hide Repeat, Digits, Magnitude;
  }

  /** Padding: the text is at one end, zeros or spaces at the other, as many as the width asks for. */
  lemma PaddedIs(s: string, width: int, pad: Pad)
    ensures var r := Padded(s, width, pad);
            && |r| == (if |s| < width then width else |s|)
            && (pad.right ==> r[..|s|] == s)
            && (!pad.right ==> r[|r| - |s|..] == s)
            && forall k :: 0 <= k < |r| && (if pad.right then k >= |s| else k < |r| - |s|) ==>
                 r[k] == if pad.zero then '0' else ' '
  {
    hide Repeat;
  }

  /** Digits beyond nine are capital letters exactly if the conversion asks for them. */
  lemma {:induction false} LettersAre(u: nat, b: nat, upper: bool)
    requires b == 10 || b == 16
    ensures forall k :: 0 <= k < |Digits(u, b, upper)| ==>
              var c := Digits(u, b, upper)[k];
              '0' <= c <= '9' || (b == 16 && if upper then 'A' <= c <= 'F' else 'a' <= c <= 'f')
    decreases u
  {
    if u > 0 {
      QuotRem(u, b);
      LettersAre(Quot(u, b), b, upper);
    }
  }

  /** The scratch buffer holds the digits, a sign and the terminator. */
  lemma {:induction false} DigitsFit(u: nat, b: nat, upper: bool, n: nat, bound: nat)
    requires b == 10 || b == 16
    requires bound == Exp(b, n) && u < bound
    ensures |Digits(u, b, upper)| <= n
    decreases u
  {
    if u > 0 {
      QuotRem(u, b);
      if n > 0 {
        DigitsFit(Quot(u, b), b, upper, n - 1, Exp(b, n - 1));
      }
    }
  }

  function Exp(b: nat, n: nat): nat
    requires IsBase(b)
  {
    if n == 0 then 1 else Scaled(Exp(b, n - 1), b)
  }

  lemma NumberFits(i: Int, c: Conversion)
    ensures |NumberDigits(i, c)| <= 10
    ensures |Natural(i, c)| + 1 <= PRINT_BUF_LEN
  {
    hide Digits, Magnitude;
    var u := Magnitude(i, c);
    if c.Hex? {
      assert Exp(16, 4) == 0x1_0000;
      assert Exp(16, 8) == WORD;
      DigitsFit(u, 16, c == Hex(true), 8, WORD);
    } else {
      assert Exp(10, 5) == 100_000;
      assert Exp(10, 10) == 10_000_000_000;
      DigitsFit(u, 10, c == Hex(true), 10, 10_000_000_000);
    }
  }

  class Output {
    var text: string

    constructor ()
      ensures text == ""
    {
      text := "";
    }

    method PrintChar(c: char)
      modifies this
      ensures text == old(text) + [c]
    {
      text := text + [c];
    }

    method Pads(c: char, count: nat) returns (pc: nat)
      modifies this
      ensures text == old(text) + Repeat(c, count) && pc == count
    {
      var width := count;
      pc := 0;
      while width > 0
        invariant 0 <= width && pc == count - width
        invariant text + Repeat(c, width) == old(text) + Repeat(c, count)
      {
        PrintChar(c);
        width := width - 1;
        pc := pc + 1;
      }
    }

    method PrintAll(s: string) returns (pc: nat)
      modifies this
      ensures text == old(text) + s && pc == |s|
    {
      pc := 0;
      for k := 0 to |s|
        invariant text == old(text) + s[..k] && pc == k
      {
        PrintChar(s[k]);
        assert s[..k + 1] == s[..k] + [s[k]];
        pc := pc + 1;
      }
      assert s[..|s|] == s;
    }

    /** prints. */
    method PrintS(s: string, width0: int, pad: Pad) returns (pc: nat)
      modifies this
      ensures text == old(text) + Padded(s, width0, pad)
      ensures pc == |Padded(s, width0, pad)|
    {
      hide Repeat, Padded;
      var width, padchar := width0, ' ';
      if width > 0 {
        width := if |s| >= width then 0 else width - |s|;
        if pad.zero {
          padchar := '0';
        }
      }
      var gap := if width > 0 then width else 0;
      PaddedParts(s, width0, pad, padchar);
      pc := 0;
      if !pad.right {
        pc := Pads(padchar, gap);
      }
      var n := PrintAll(s);
      pc := pc + n;
      if pad.right {
        n := Pads(padchar, gap);
        pc := pc + n;
      }
      assert text == old(text) + Padded(s, width0, pad);
    }

    /** The digits of printi, written from the end of the scratch buffer down. */
    static method FillDigits(buffer: array<char>, magnitude: nat, b: nat, upper: bool) returns (s: nat)
      requires buffer.Length == PRINT_BUF_LEN && IsBase(b) && |Digits(magnitude, b, upper)| <= 10
      modifies buffer
      ensures 1 <= s <= PRINT_BUF_LEN - 1 && buffer[s..PRINT_BUF_LEN - 1] == Digits(magnitude, b, upper)
    {
      var u := magnitude;
      s := PRINT_BUF_LEN - 1;
      ghost var all := Digits(u, b, upper);
      while u != 0
        invariant 1 <= s <= PRINT_BUF_LEN - 1
        invariant all == Digits(u, b, upper) + buffer[s..PRINT_BUF_LEN - 1]
        decreases u
      {
        QuotRem(u, b);
        var t := Rem(u, b);
        ghost var done := buffer[s..PRINT_BUF_LEN - 1];
        s := s - 1;
        buffer[s] := DigitChar(t, upper);
        assert buffer[s..PRINT_BUF_LEN - 1] == [DigitChar(t, upper)] + done;
        u := Quot(u, b);
      }
    }

    /** printi. */
    method PrintI(i: Int, c: Conversion, width0: nat, pad: Pad) returns (pc: nat)
      modifies this
      ensures text == old(text) + Shown(i, c, width0, pad)
      ensures pc == |Shown(i, c, width0, pad)|
    {
      hide Digits, Padded, Magnitude, Shown, Natural, NumberDigits;
      var buffer := new char[PRINT_BUF_LEN](_ => '\0');
      ShownCases(i, c, width0, pad);
      if i == 0 {
        buffer[0] := '0';
        assert buffer[..1] == "0";
        pc := PrintS(buffer[..1], width0, pad);
        return;
      }
      NumberFits(i, c);
      var s := FillDigits(buffer, Magnitude(i, c), Base(c), c == Hex(true));
      ghost var digits := NumberDigits(i, c);
      if Negative(i, c) {
        if width0 != 0 && pad.zero {
          PrintChar('-');
          pc := PrintS(buffer[s..PRINT_BUF_LEN - 1], width0 - 1, pad);
          pc := pc + 1;
          assert text == old(text) + ("-" + Padded(digits, width0 - 1, pad));
          return;
        }
        s := s - 1;
        buffer[s] := '-';
        assert buffer[s..PRINT_BUF_LEN - 1] == "-" + buffer[s + 1..PRINT_BUF_LEN - 1];
      }
      pc := PrintS(buffer[s..PRINT_BUF_LEN - 1], width0, pad);
    }
  }

  lemma ShownCases(i: Int, c: Conversion, width: nat, pad: Pad)
    ensures NumberDigits(i, c) == Digits(Magnitude(i, c), Base(c), c == Hex(true))
    ensures i == 0 ==> Shown(i, c, width, pad) == Padded("0", width, pad)
    ensures i != 0 && Negative(i, c) && width != 0 && pad.zero ==>
              Shown(i, c, width, pad) == "-" + Padded(NumberDigits(i, c), width - 1, pad)
    ensures i != 0 && Negative(i, c) && !(width != 0 && pad.zero) ==>
              Shown(i, c, width, pad) == Padded("-" + NumberDigits(i, c), width, pad)
    ensures i != 0 && !Negative(i, c) ==> Shown(i, c, width, pad) == Padded(NumberDigits(i, c), width, pad)
  {
  }

  lemma PaddedParts(s: string, width: int, pad: Pad, padchar: char)
    requires width > 0 ==> padchar == if pad.zero then '0' else ' '
    ensures Padded(s, width, pad) ==
      (if pad.right then s + Repeat(padchar, Fill(|s|, width)) else Repeat(padchar, Fill(|s|, width)) + s)
  {
  }

  // ----- reading

  /** The value of a digit character, or the base itself for anything else. */
  function Value(c: char, b: nat): (v: nat)
    requires IsBase(b)
    ensures v <= b
  {
    if '0' <= c <= '9' && c as int - '0' as int < b then c as int - '0' as int
    else if b == 16 && 'A' <= c <= 'F' then c as int - 'A' as int + 10
    else if b == 16 && 'a' <= c <= 'f' then c as int - 'a' as int + 10
    else b
  }

  predicate IsDigit(c: char, b: nat)
    requires IsBase(b)
  {
    Value(c, b) < b
  }

  function Step(a: Int, c: char, b: nat): Int
    requires IsBase(b)
  {
    Wrap(Scaled(a, b) + Value(c, b))
  }

  /** A reading loop: digits are taken up to the first other character. */
  function Read(s: string, a: Int, b: nat): Int
    requires IsBase(b)
  {
    if s == "" || !IsDigit(s[0], b) then a else Read(s[1..], Step(a, s[0], b), b)
  }

  /** atoi. */
  function Atoi(s: string): Int {
    if s == "" then 0
    else if s[0] == '0' then
      if |s| > 1 && (s[1] == 'x' || s[1] == 'X') then Read(s[2..], 0, 16) else Read(s[1..], 0, 8)
    else if s[0] == '-' then Wrap(-(Read(s[1..], 0, 10) as int))
    else Read(s, 0, 10)
  }

  /** Some numbers as they are read: octal, hexadecimal, decimal, and up to the first other character. */
  lemma NumbersRead()
    ensures Atoi("017") == 15 && Atoi("0x1f") == 31 && Atoi("-42 ") == -42 && Atoi("018") == 1
  {
    assert "017"[1..] == "17" && "17"[1..] == "7" && "7"[1..] == "";
    assert "0x1f"[2..] == "1f" && "1f"[1..] == "f" && "f"[1..] == "";
    assert "-42 "[1..] == "42 " && "42 "[1..] == "2 " && "2 "[1..] == " ";
    assert Read("2 ", 4, 10) == 42;
    assert Read("42 ", 0, 10) == 42;
    assert "018"[1..] == "18" && "18"[1..] == "8";
  }

  ghost predicate AllDigits(s: string, b: nat)
    requires IsBase(b)
  {
    forall k :: 0 <= k < |s| ==> IsDigit(s[k], b)
  }

  lemma {:induction false} ReadAppend(s: string, t: string, a: Int, b: nat)
    requires IsBase(b) && AllDigits(s, b)
    ensures Read(s + t, a, b) == Read(t, Read(s, a, b), b)
    decreases |s|
  {
    hide Step, Value;
    if s == "" {
      assert s + t == t;
    } else {
      assert (s + t)[1..] == s[1..] + t;
      ReadAppend(s[1..], t, Step(a, s[0], b), b);
    }
  }

  lemma ReadOne(c: char, a: Int, b: nat)
    requires IsBase(b) && IsDigit(c, b)
    ensures Read([c], a, b) == Step(a, c, b)
  {
  }

  lemma DigitCharValue(t: nat, upper: bool, b: nat)
    requires IsBase(b) && b != 8 && t < b
    ensures Value(DigitChar(t, upper), b) == t
    ensures b == 10 ==> DigitChar(t, upper) as int == '0' as int + t
  {
  }

  lemma {:induction false} ReadDigits(u: nat, b: nat, upper: bool)
    requires IsBase(b) && b != 8
    ensures AllDigits(Digits(u, b, upper), b) && Read(Digits(u, b, upper), 0, b) == Wrap(u)
    decreases u
  {
    hide Value, Wrap, Quot, Rem, Scaled, DigitChar;
    if u == 0 {
      WrapSmall(0);
    } else {
      QuotRem(u, b);
      var q, c := Quot(u, b), DigitChar(Rem(u, b), upper);
      ReadDigits(q, b, upper);
      DigitCharValue(Rem(u, b), upper, b);
      ReadAppend(Digits(q, b, upper), [c], 0, b);
      ReadOne(c, Wrap(q), b);
      WrapScaled(q, Rem(u, b), b);
    }
  }

  /** The digits of a number begin with a digit that is not zero. */
  lemma {:induction false} LeadingDigit(u: nat, b: nat, upper: bool)
    requires IsBase(b) && b != 8 && u > 0
    ensures Digits(u, b, upper) != "" && Value(Digits(u, b, upper)[0], b) != 0 && Digits(u, b, upper)[0] != '-'
    ensures Digits(u, b, upper)[0] != '0'
    decreases u
  {
    hide Wrap;
    QuotRem(u, b);
    if Quot(u, b) > 0 {
      LeadingDigit(Quot(u, b), b, upper);
    }
  }

  /** A decimal number read back with nothing before it, whatever follows. */
  lemma ReadNatural(i: Int, c: Conversion, rest: string)
    requires !c.Hex? && i != 0
    ensures Atoi(Natural(i, c) + rest) ==
      if Negative(i, c) then Wrap(-(Read(rest, Wrap(Magnitude(i, c)), 10) as int))
      else Read(rest, Wrap(Magnitude(i, c)), 10)
  {
    hide Wrap, Digits, Read, Magnitude;
    var u := Magnitude(i, c);
    var d := NumberDigits(i, c);
    ReadDigits(u, 10, false);
    LeadingDigit(u, 10, false);
    ReadAppend(d, rest, 0, 10);
    if Negative(i, c) {
      assert (Natural(i, c) + rest)[1..] == d + rest;
    }
  }

  lemma ReadNothing(a: Int, b: nat)
    requires IsBase(b)
    ensures Read("", a, b) == a
  {
  }

  lemma MagnitudeWraps(i: Int, c: Conversion)
    ensures (if Negative(i, c) then Wrap(-(Wrap(Magnitude(i, c)) as int)) else Wrap(Magnitude(i, c))) == i
  {
  }

  /** atoi undoes %d and %u. */
  lemma DecimalRoundTrip(i: Int, c: Conversion)
    requires !c.Hex?
    ensures Atoi(Natural(i, c)) == i
  {
    hide Wrap, Digits, Magnitude, NumberDigits;
    if i != 0 {
      ReadNatural(i, c, "");
      assert Natural(i, c) + "" == Natural(i, c);
      ReadNothing(Wrap(Magnitude(i, c)), 10);
      MagnitudeWraps(i, c);
    }
  }

  /** atoi undoes %x and %X behind a 0x. */
  lemma HexRoundTrip(i: Int, upper: bool, x: char)
    requires x == 'x' || x == 'X'
    ensures Atoi(['0', x] + Natural(i, Hex(upper))) == i
  {
    hide Wrap, Digits, Magnitude;
    var u := Magnitude(i, Hex(upper));
    var text := ['0', x] + Natural(i, Hex(upper));
    assert text[2..] == Natural(i, Hex(upper));
    if i == 0 {
      ReadOne('0', 0, 16);
      WrapSmall(0);
    } else {
      assert (Hex(upper) == Hex(true)) == upper;
      ReadDigits(u, 16, upper);
      MagnitudeWraps(i, Hex(upper));
    }
  }

  // ----- where the reader leaves the range of an int

  /** No step of a reading loop exceeds the largest int: the character is added before its zero is
      taken off. */
  ghost predicate InRange(s: string, a: Int, b: nat)
    requires IsBase(b)
  {
    s == "" || !IsDigit(s[0], b) || (Scaled(a, b) + s[0] as int <= MAX && InRange(s[1..], Step(a, s[0], b), b))
  }

  ghost predicate AtoiInRange(s: string) {
    if s == "" then true
    else if s[0] == '0' then
      if |s| > 1 && (s[1] == 'x' || s[1] == 'X') then InRange(s[2..], 0, 16) else InRange(s[1..], 0, 8)
    else if s[0] == '-' then InRange(s[1..], 0, 10)
    else InRange(s, 0, 10)
  }

  lemma {:induction false} InRangeAppend(s: string, c: char, a: Int)
    requires AllDigits(s, 10) && IsDigit(c, 10)
    ensures InRange(s + [c], a, 10) <==> InRange(s, a, 10) && Scaled(Read(s, a, 10), 10) + c as int <= MAX
    decreases |s|
  {
    hide Step, Value;
    if s == "" {
      assert s + [c] == [c];
    } else {
      assert (s + [c])[1..] == s[1..] + [c];
      InRangeAppend(s[1..], c, Step(a, s[0], 10));
    }
  }

  lemma {:induction false} DigitsInRange(u: nat)
    requires u <= MAX + 1
    ensures InRange(Digits(u, 10, false), 0, 10) <==> u == 0 || u <= MAX - '0' as int
    decreases u
  {
    hide Value, Wrap, DigitChar, Read;
    if u != 0 {
      QuotRem(u, 10);
      var q, c := Quot(u, 10), DigitChar(Rem(u, 10), false);
      DigitsInRange(q);
      DigitCharValue(Rem(u, 10), false, 10);
      ReadDigits(q, 10, false);
      WrapSmall(q);
      InRangeAppend(Digits(q, 10, false), c, 0);
    }
  }

  /** Reading back %d stays within an int exactly for numbers 48 short of the largest: the sum of
      digits and character code is formed first. Beyond that the round trip rests on wrapping. */
  lemma ReadsInRangeIff(i: Int)
    ensures AtoiInRange(Natural(i, Decimal)) <==> -(MAX - 48) <= i <= MAX - 48
  {
    hide Digits, InRange;
    if i == 0 {
      EmptyInRange();
      assert Natural(i, Decimal)[1..] == "";
    } else {
      var u := Magnitude(i, Decimal);
      LeadingDigit(u, 10, false);
      DigitsInRange(u);
      assert i < 0 ==> Natural(i, Decimal)[1..] == NumberDigits(i, Decimal);
    }
  }

  /** The largest int reads back, but only because the sum wraps on the way. */
  lemma LargestIntWraps()
    ensures Atoi(Natural(MAX, Decimal)) == MAX && !AtoiInRange(Natural(MAX, Decimal))
  {
    hide Natural;
    DecimalRoundTrip(MAX, Decimal);
    ReadsInRangeIff(MAX);
  }

  lemma EmptyInRange()
    ensures InRange("", 0, 8)
  {
  }

  // ----- padded numbers read back

  /** A character that is not a digit ends the reading. */
  lemma {:induction false} ReadStops(s: string, t: string, a: Int, b: nat)
    requires IsBase(b) && !AllDigits(s, b)
    ensures Read(s + t, a, b) == Read(s, a, b)
    decreases |s|
  {
    hide Step, Value;
    assert (s + t)[0] == s[0] && (s + t)[1..] == s[1..] + t;
    if IsDigit(s[0], b) {
      ReadStops(s[1..], t, Step(a, s[0], b), b);
    }
  }

  lemma {:induction false} LeadingZeros(n: nat, t: string, b: nat)
    requires IsBase(b)
    ensures Read(Repeat('0', n) + t, 0, b) == Read(t, 0, b)
  {
    var s := Repeat('0', n) + t;
    if n == 0 {
      assert s == t;
    } else {
      assert s[1..] == Repeat('0', n - 1) + t;
      WrapSmall(0);
      LeadingZeros(n - 1, t, b);
    }
  }

  function TimesTen(x: int, n: nat): int
    decreases n
  {
    if n == 0 then x else TimesTen(x * 10, n - 1)
  }

  lemma {:induction false} TrailingZeros(x: int, n: nat)
    ensures Read(Repeat('0', n), Wrap(x), 10) == Wrap(TimesTen(x, n))
    decreases n
  {
    hide Wrap;
    if n > 0 {
      assert Repeat('0', n)[1..] == Repeat('0', n - 1);
      WrapScaled(x, 0, 10);
      TrailingZeros(x * 10, n - 1);
    }
  }

  lemma {:induction false} NegatedTimesTen(x: int, n: nat)
    ensures TimesTen(-x, n) == -TimesTen(x, n)
    decreases n
  {
    if n > 0 {
      NegatedTimesTen(x * 10, n - 1);
      assert -x * 10 == -(x * 10);
    }
  }

  /** Multiplying by ten so many times, less one time, is multiplying by an odd number. */
  lemma {:induction false} TimesTenIsOdd(x: int, n: nat) returns (m: int)
    requires n > 0
    ensures TimesTen(x, n) == x + x * (2 * m + 1)
    decreases n
  {
    if n == 1 {
      m := 4;
      assert TimesTen(x, 1) == TimesTen(x * 10, 0) == 10 * x;
    } else {
      var k := TimesTenIsOdd(x * 10, n - 1);
      m := 10 * k + 9;
      assert x * 10 + x * 10 * (2 * k + 1) == x + x * (2 * m + 1);
    }
  }

  /** An odd factor adds no factor of two. */
  lemma {:induction false} OddFactor(x: int, m: int, n: nat, z: int) returns (y: int)
    requires x * (2 * m + 1) == Exp2(n) * z
    ensures x == Exp2(n) * y
    decreases n
  {
    if n == 0 {
      y := x;
    } else {
      var h := Exp2(n - 1) * z;
      assert x == 2 * (h - x * m) by {
        assert Exp2(n) * z == 2 * h;
      }
      var w := h - x * m;
      assert w * (2 * m + 1) == h by {
        assert 2 * (w * (2 * m + 1)) == x * (2 * m + 1);
      }
      y := OddFactor(w, m, n - 1, z);
      assert 2 * (Exp2(n - 1) * y) == Exp2(n) * y;
    }
  }

  lemma WrapEqual(a: int, b: int) returns (k: int)
    requires Wrap(a) == Wrap(b)
    ensures a - b == WORD * k
  {
    k := (a + 0x8000_0000) / WORD - (b + 0x8000_0000) / WORD;
  }

  /** Zeros behind a number change it, even round the word. */
  lemma ScalingShows(x: int, n: nat)
    requires n > 0 && -WORD < x < WORD && x != 0
    ensures Wrap(TimesTen(x, n)) != Wrap(x)
  {
    hide Wrap, TimesTen, Exp2;
    if Wrap(TimesTen(x, n)) == Wrap(x) {
      var m := TimesTenIsOdd(x, n);
      var k := WrapEqual(TimesTen(x, n), x);
      Exp2Word();
      var y := OddFactor(x, m, 32, k);
    }
  }

  /** Decimal digits taken as octal ones come to less, from 8 on. */
  lemma {:induction false} OctalReading(u: nat)
    requires u <= MAX + 1
    ensures var v := Read(Digits(u, 10, false), 0, 8); 0 <= v <= u && (u < 8 ==> v == u) && (u >= 8 ==> v < u)
    decreases u
  {
    hide Read, Quot, Rem, AllDigits, DigitChar;
    if u == 0 {
      ReadNothing(0, 8);
    } else {
      QuotRem(u, 10);
      var q := Quot(u, 10);
      OctalReading(q);
      if q == 0 {
        NoDigits();
      }
      OctalStep(Digits(q, 10, false), Rem(u, 10));
    }
  }

  lemma NoDigits()
    ensures Digits(0, 10, false) == "" && AllDigits("", 8)
  {
  }

  /** One more decimal digit read as an octal one. */
  lemma OctalStep(s: string, r: nat)
    requires r < 10 && 0 <= Read(s, 0, 8) <= MAX / 10 + 1
    ensures Read(s + [DigitChar(r, false)], 0, 8) ==
      if AllDigits(s, 8) && r < 8 then Read(s, 0, 8) * 8 + r else Read(s, 0, 8)
  {
    hide Value, Wrap, DigitChar;
    var c, v := DigitChar(r, false), Read(s, 0, 8);
    OctalDigit(r);
    if AllDigits(s, 8) {
      ReadAppend(s, [c], 0, 8);
      if r < 8 {
        ReadOne(c, v, 8);
        WrapSmall(v * 8 + r);
      }
    } else {
      ReadStops(s, [c], 0, 8);
    }
  }

  lemma OctalDigit(r: nat)
    requires r < 10
    ensures Value(DigitChar(r, false), 8) == if r < 8 then r else 8
  {
  }

  /** Exactly when a padded %d reads back: zeros put in front turn a number above 7 into an octal
      one, zeros put behind scale it, and a space in front hides it. */
  lemma PaddedReadsBackIff(i: Int, width: nat, pad: Pad)
    ensures Atoi(Shown(i, Decimal, width, pad)) == i <==>
            i == 0 || width <= |Natural(i, Decimal)| || (pad.right && !pad.zero) || (!pad.right && pad.zero && i < 8)
  {
    hide Wrap, Digits, Magnitude, Read, Value, Repeat;
    var s := Natural(i, Decimal);
    var gap := Fill(|s|, width);
    if gap == 0 {
      assert Repeat('0', 0) == Repeat(' ', 0) == "";
      assert s + "" == s == "" + s;
      UnpaddedShown(i, width, pad);
      DecimalRoundTrip(i, Decimal);
    } else if i == 0 {
      ZeroReadsBack(gap, pad);
    } else if pad.right {
      RightPadded(i, gap, pad);
    } else if !pad.zero {
      SpacesHide(gap, s);
    } else {
      ZerosInFront(i, width, gap);
    }
  }

  /** Eight, with a zero in front, is an octal number without digits. */
  lemma PaddedEightReadsAsZero()
    ensures Shown(8, Decimal, 2, Pad(false, true)) == "08" && Atoi("08") == 0
  {
    var t := "08"[1..];
    assert t == "8";
    assert Digits(8, 10, false) == "8";
    assert Shown(8, Decimal, 2, Pad(false, true)) == "0" + "8";
  }

  lemma UnpaddedShown(i: Int, width: nat, pad: Pad)
    requires width <= |Natural(i, Decimal)|
    ensures Shown(i, Decimal, width, pad) == Natural(i, Decimal)
  {
    hide Digits, Magnitude;
    var d := NumberDigits(i, Decimal);
    assert d + "" == d == "" + d;
    assert "0" + "" == "0" == "" + "0";
    assert ("-" + d) + "" == "-" + d == "" + ("-" + d);
  }

  lemma ZeroReadsBack(gap: nat, pad: Pad)
    requires gap > 0
    ensures Atoi(Padded("0", gap + 1, pad)) == 0
  {
    hide Value, Wrap;
    var fill := Repeat(if pad.zero then '0' else ' ', gap);
    if pad.right {
      assert ("0" + fill)[1..] == fill;
      if pad.zero {
        assert fill + "" == fill;
        LeadingZeros(gap, "", 8);
      } else {
        SpaceIsNoDigit(8);
      }
    } else if pad.zero {
      assert (fill + "0")[1..] == Repeat('0', gap - 1) + "0";
      LeadingZeros(gap - 1, "0", 8);
      OneZero();
    } else {
      SpaceIsNoDigit(10);
    }
  }

  lemma OneZero()
    ensures Read("0", 0, 8) == 0
  {
  }

  lemma SpaceIsNoDigit(b: nat)
    requires IsBase(b)
    ensures !IsDigit(' ', b)
  {
  }

  lemma SpacesHide(gap: nat, s: string)
    requires gap > 0
    ensures Atoi(Repeat(' ', gap) + s) == 0
  {
    SpaceIsNoDigit(10);
  }

  lemma RightPadded(i: Int, gap: nat, pad: Pad)
    requires i != 0 && gap > 0 && pad.right
    ensures var s := Natural(i, Decimal);
            Shown(i, Decimal, |s| + gap, pad) == s + Repeat(if pad.zero then '0' else ' ', gap)
            && (Atoi(s + Repeat(if pad.zero then '0' else ' ', gap)) == i <==> !pad.zero)
  {
    hide Wrap, Digits, Magnitude, Read, Value, Repeat;
    var u := Magnitude(i, Decimal);
    var s := Natural(i, Decimal);
    var fill := Repeat(if pad.zero then '0' else ' ', gap);
    assert i < 0 ==> "-" + (NumberDigits(i, Decimal) + fill) == s + fill;
    ReadNatural(i, Decimal, fill);
    MagnitudeWraps(i, Decimal);
    if pad.zero {
      TrailingZeros(u, gap);
      ScaledMagnitude(i, gap);
    } else {
      SpacesEnd(gap, Wrap(u));
    }
  }

  lemma SpacesEnd(gap: nat, a: Int)
    ensures Read(Repeat(' ', gap), a, 10) == a
  {
    SpaceIsNoDigit(10);
  }

  lemma ScaledMagnitude(i: Int, n: nat)
    requires i != 0 && n > 0
    ensures var w := Wrap(TimesTen(Magnitude(i, Decimal), n)); (if i < 0 then Wrap(-(w as int)) else w) != i
  {
    hide Wrap, TimesTen;
    var t := TimesTen(Magnitude(i, Decimal), n);
    ScalingShows(i, n);
    WrapSmall(i);
    if i < 0 {
      NegatedTimesTen(i, n);
      NegatedWrap(t);
    }
  }

  lemma NegatedWrap(x: int)
    ensures Wrap(-(Wrap(x) as int)) == Wrap(-x)
  {
    var k := (x + 0x8000_0000) / WORD;
    assert Wrap(x) == x - k * WORD;
    WrapShift(-x, k);
  }

  lemma ZerosInFront(i: Int, width: nat, gap: nat)
    requires i != 0 && gap > 0 && width == |Natural(i, Decimal)| + gap
    ensures Atoi(Shown(i, Decimal, width, Pad(false, true))) == i <==> i < 8
  {
    hide Wrap, Digits, Magnitude, Read, Value;
    var u := Magnitude(i, Decimal);
    var d := NumberDigits(i, Decimal);
    var s := Shown(i, Decimal, width, Pad(false, true));
    if i < 0 {
      assert s[1..] == Repeat('0', gap) + d;
      LeadingZeros(gap, d, 10);
      ReadDigits(u, 10, false);
      MagnitudeWraps(i, Decimal);
    } else {
      var rest := Repeat('0', gap - 1) + d;
      assert s[1..] == rest;
      ReadDigits(u, 10, false);
      LeadingDigit(u, 10, false);
      MagnitudeOfPositive(i);
      assert s[1] != 'x' && s[1] != 'X' by { DecimalIsNoX(rest[0], gap, d); }
      LeadingZeros(gap - 1, d, 8);
      OctalReading(u);
    }
  }

  lemma MagnitudeOfPositive(i: Int)
    requires i >= 0
    ensures Magnitude(i, Decimal) == i
  {
  }

  lemma DecimalIsNoX(c: char, gap: nat, d: string)
    requires gap > 0 && |d| > 0 && AllDigits(d, 10) && c == (Repeat('0', gap - 1) + d)[0]
    ensures c != 'x' && c != 'X'
  {
    assert gap == 1 ==> c == d[0] && IsDigit(d[0], 10);
  }

  // ----- the reader in place

  /** One of atoi's loops. */
  method ReadLoop(s: string, start: nat, b: nat) returns (a: Int)
    requires IsBase(b) && start <= |s|
    ensures a == Read(s[start..], 0, b)
  {
    a := 0;
    var at := start;
    while at < |s| && IsDigit(s[at], b)
      invariant start <= at <= |s|
      invariant Read(s[at..], a, b) == Read(s[start..], 0, b)
    {
      assert s[at..][1..] == s[at + 1..];
      a := Step(a, s[at], b);
      at := at + 1;
    }
  }

  /** atoi on a string that ends where its terminator stands. */
  method Parse(s: string) returns (a: Int)
    ensures a == Atoi(s)
  {
    if |s| > 0 && s[0] == '0' {
      if |s| > 1 && (s[1] == 'x' || s[1] == 'X') {
        a := ReadLoop(s, 2, 16);
      } else {
        a := ReadLoop(s, 1, 8);
      }
    } else if |s| > 0 && s[0] == '-' {
      a := ReadLoop(s, 1, 10);
      a := Wrap(-(a as int));
    } else {
      a := ReadLoop(s, 0, 10);
      assert s[0..] == s;
    }
  }
}
