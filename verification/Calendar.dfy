/** my_mktime of time.c on 32-bit words, against the Gregorian calendar counted day by day. */
module Calendar {
  const WORD: int := 0x1_0000_0000
  const DAY: int := 86400

  function Wrap(x: int): (w: nat)
    ensures w < WORD
  {
    x % WORD
  }

  // ----- the calendar

  datatype Date = Date(year: int, month: int, day: int)

  predicate IsLeap(year: int) { year % 4 == 0 && (year % 100 != 0 || year % 400 == 0) }

  function MonthLength(year: int, month: int): int {
    if month == 2 then (if IsLeap(year) then 29 else 28)
    else if month == 4 || month == 6 || month == 9 || month == 11 then 30
    else 31
  }

  /** The dates of the calendar from the year 1 on. */
  predicate Valid(d: Date) {
    1 <= d.year && 1 <= d.month <= 12 && 1 <= d.day <= MonthLength(d.year, d.month)
  }

  function Next(d: Date): Date {
    if d.day < MonthLength(d.year, d.month) then d.(day := d.day + 1)
    else if d.month < 12 then Date(d.year, d.month + 1, 1)
    else Date(d.year + 1, 1, 1)
  }

  function Previous(d: Date): Date {
    if d.day > 1 then d.(day := d.day - 1)
    else if d.month > 1 then Date(d.year, d.month - 1, MonthLength(d.year, d.month - 1))
    else Date(d.year - 1, 12, 31)
  }

  const EPOCH: Date := Date(1970, 1, 1)

  /** The date so many days after the first of January 1970. */
  function NthDay(n: nat): (d: Date)
    ensures Valid(d) && d.year >= 1970
  {
    if n == 0 then EPOCH else Next(NthDay(n - 1))
  }

  // ----- the day number of my_mktime

  /** The year and month counted from March. */
  function FromMarch(year: int, month: int): (int, int) {
    if month <= 2 then (year - 1, month + 10) else (year, month - 2)
  }

  /** How many leap days have passed by a year. */
  function LeapDays(year: int): int { year / 4 - year / 100 + year / 400 }

  /** The day number of the formula, before any wrap-around. */
  function DayNumber(d: Date): int {
    var (y, m) := FromMarch(d.year, d.month);
    LeapDays(y) + 367 * m / 12 + d.day + y * 365 - 719499
  }

  function Multiple(x: int, n: int): int
    requires n > 0
  {
    if x % n == 0 then 1 else 0
  }

  lemma FourStep(x: int)
    ensures x / 4 - (x - 1) / 4 == Multiple(x, 4)
  {
  }

  lemma HundredStep(x: int)
    ensures x / 100 - (x - 1) / 100 == Multiple(x, 100)
  {
  }

  lemma FourHundredStep(x: int)
    ensures x / 400 - (x - 1) / 400 == Multiple(x, 400)
  {
  }

  lemma HundredOfFourHundred(x: int)
    requires x % 400 == 0
    ensures x % 100 == 0
  {
    var k := x / 400;
    assert x == 400 * k;
  }

  lemma FourOfHundred(x: int)
    requires x % 100 == 0
    ensures x % 4 == 0
  {
    var k := x / 100;
    assert x == 100 * k;
  }

  lemma Multiples(x: int)
    ensures Multiple(x, 400) <= Multiple(x, 100) <= Multiple(x, 4)
  {
    if x % 400 == 0 {
      HundredOfFourHundred(x);
    }
    if x % 100 == 0 {
      FourOfHundred(x);
    }
  }

  lemma LeapIsMultiples(x: int)
    requires Multiple(x, 400) <= Multiple(x, 100) <= Multiple(x, 4)
    ensures Multiple(x, 4) - Multiple(x, 100) + Multiple(x, 400) == if IsLeap(x) then 1 else 0
  {
  }

  lemma LeapDaysStep(year: int)
    ensures LeapDays(year) - LeapDays(year - 1) == if IsLeap(year) then 1 else 0
  {
    hide IsLeap, Multiple;
    FourStep(year);
    HundredStep(year);
    FourHundredStep(year);
    Multiples(year);
    LeapIsMultiples(year);
  }

  /** The next civil day has the next number. */
  lemma NextIsOneMore(d: Date)
    requires Valid(d)
    ensures Valid(Next(d)) && DayNumber(Next(d)) == DayNumber(d) + 1
  {
    hide IsLeap, LeapDays;
    LeapDaysStep(d.year);
  }

  lemma NextOfPrevious(d: Date)
    requires Valid(d) && DayNumber(d) > 0
    ensures Valid(Previous(d)) && Next(Previous(d)) == d
    ensures DayNumber(Previous(d)) == DayNumber(d) - 1
  {
    hide IsLeap;
    if d.year > 1 {
      NextIsOneMore(Previous(d));
    }
  }

  lemma {:induction false} NthDayNumber(n: nat)
    ensures DayNumber(NthDay(n)) == n
  {
    hide DayNumber;
    if n == 0 {
      EpochIsZero();
    } else {
      NthDayNumber(n - 1);
      NextIsOneMore(NthDay(n - 1));
    }
  }

  lemma EpochIsZero()
    ensures DayNumber(EPOCH) == 0
  {
  }

  /** Every date from the epoch on is reached by counting as many days as its number says. */
  lemma {:induction false} DateIsNthDay(d: Date)
    requires Valid(d) && DayNumber(d) >= 0
    ensures NthDay(DayNumber(d)) == d
    decreases DayNumber(d)
  {
    if DayNumber(d) == 0 {
      OnlyEpochIsZero(d);
    } else {
      NextOfPrevious(d);
      DateIsNthDay(Previous(d));
    }
  }

  lemma OnlyEpochIsZero(d: Date)
    requires Valid(d) && DayNumber(d) == 0
    ensures d == EPOCH
  {
    var (y, m) := FromMarch(d.year, d.month);
    assert y == 1969;
  }

  // ----- my_mktime

  predicate IsTime(hour: int, min: int, sec: int) { 0 <= hour < 24 && 0 <= min < 60 && 0 <= sec < 60 }

  /** The seconds that my_mktime gives a date and a time of day. */
  function Seconds(d: Date, hour: int, min: int, sec: int): int {
    Wrap(DayNumber(d) * DAY + hour * 3600 + min * 60 + sec)
  }

  /** The year and month counted from March as my_mktime computes them for any words: the month is
      tested as a signed number. */
  function CodedMarch(year: nat, mon: nat): (nat, nat) {
    var m := Wrap(mon - 2);
    if m == 0 || m >= 0x8000_0000 then (Wrap(year - 1), Wrap(m + 12)) else (year, m)
  }

  /** The days my_mktime counts for any words; the product with the month wraps before it is divided. */
  function CodedDays(year: nat, mon: nat, day: nat): int {
    var (y, m) := CodedMarch(year, mon);
    y / 4 - y / 100 + y / 400 + Wrap(367 * m) / 12 + day + y * 365 - 719499
  }

  /** For a calendar date nothing wraps on the way. */
  lemma CodedDate(year: nat, mon: nat, day: nat)
    requires 1 <= year < WORD && 1 <= mon <= 12
    ensures CodedDays(year, mon, day) == DayNumber(Date(year, mon, day))
  {
    hide Wrap;
    SmallWrap(year - 1);
    MonthWraps(mon);
    if mon <= 2 {
      MonthUnwraps(mon);
    }
    SmallWrap(367 * FromMarch(year, mon).1);
  }

  lemma SmallWrap(x: int)
    requires 0 <= x < WORD
    ensures Wrap(x) == x
  {
  }

  /** my_mktime on any words, every sum and product on a 32-bit word. */
  method MkTime(year0: nat, mon0: nat, day: nat, hour: nat, min: nat, sec: nat) returns (t: nat)
    requires year0 < WORD && mon0 < WORD && day < WORD && hour < WORD && min < WORD && sec < WORD
    ensures t == Wrap(CodedDays(year0, mon0, day) * DAY + hour * 3600 + min * 60 + sec)
    ensures 1 <= year0 && 1 <= mon0 <= 12 ==> t == Seconds(Date(year0, mon0, day), hour, min, sec)
  {
    hide Wrap, CodedDays, DayNumber;
    var year, mon := year0, Wrap(mon0 - 2);
    if mon == 0 || mon >= 0x8000_0000 {
      mon := Wrap(mon + 12);
      year := Wrap(year - 1);
    }
    assert (year, mon) == CodedMarch(year0, mon0);
    ghost var days := year / 4 - year / 100 + year / 400 + Wrap(367 * mon) / 12 + day;
    t := Wrap(year / 4 - year / 100 + year / 400 + Wrap(367 * mon) / 12 + day);
    t := Wrap(t + Wrap(year * 365) - 719499);
    t := Wrap(Wrap(t * 24) + hour);
    t := Wrap(Wrap(t * 60) + min);
    t := Wrap(Wrap(t * 60) + sec);
    WrapChain(days, year * 365, hour, min, sec);
    DaysAre(year0, mon0, day);
    if 1 <= year0 && 1 <= mon0 <= 12 {
      CodedDate(year0, mon0, day);
    }
  }

  lemma DaysAre(year: nat, mon: nat, day: nat)
    ensures var (y, m) := CodedMarch(year, mon);
            CodedDays(year, mon, day) == y / 4 - y / 100 + y / 400 + Wrap(367 * m) / 12 + day + y * 365 - 719499
  {
  }

  lemma MonthWraps(mon: nat)
    requires 1 <= mon <= 12
    ensures Wrap(mon - 2) == if mon == 1 then WORD - 1 else mon - 2
  {
  }

  lemma MonthUnwraps(mon: nat)
    requires 1 <= mon <= 2
    ensures Wrap(Wrap(mon - 2) + 12) == mon + 10
  {
  }

  lemma WrapShift(x: int, k: int)
    ensures Wrap(x + k * WORD) == Wrap(x)
  {
  }

  lemma WrapSum(x: int, y: int)
    ensures Wrap(Wrap(x) + y) == Wrap(x + y)
  {
    WrapShift(Wrap(x) + y, x / WORD);
  }

  lemma WrapTimes60(x: int)
    ensures Wrap(Wrap(x) * 60) == Wrap(x * 60)
  {
    WrapShift(Wrap(x) * 60, x / WORD * 60);
  }

  lemma WrapTimes24(x: int)
    ensures Wrap(Wrap(x) * 24) == Wrap(x * 24)
  {
    WrapShift(Wrap(x) * 24, x / WORD * 24);
  }

  lemma WrapChain(a: int, b: int, hour: int, min: int, sec: int)
    ensures var t := Wrap(Wrap(a) + Wrap(b) - 719499);
            var h := Wrap(Wrap(t * 24) + hour);
            var m := Wrap(Wrap(h * 60) + min);
            Wrap(Wrap(m * 60) + sec) == Wrap((a + b - 719499) * DAY + hour * 3600 + min * 60 + sec)
  {
    hide Wrap;
    var x := a + b - 719499;
    WrapSum(a, Wrap(b) - 719499);
    WrapSum(b, a - 719499);
    WrapTimes24(x);
    WrapSum(x * 24, hour);
    WrapTimes60(x * 24 + hour);
    WrapSum((x * 24 + hour) * 60, min);
    WrapTimes60((x * 24 + hour) * 60 + min);
    WrapSum(((x * 24 + hour) * 60 + min) * 60, sec);
  }

  /** One civil day later is 86400 seconds later, for every date. */
  lemma DayIsFixed(d: Date, hour: int, min: int, sec: int)
    requires Valid(d)
    ensures Seconds(Next(d), hour, min, sec) == Wrap(Seconds(d, hour, min, sec) + DAY)
  {
    hide Wrap, DayNumber;
    NextIsOneMore(d);
    WrapSum(DayNumber(d) * DAY + hour * 3600 + min * 60 + sec, DAY);
  }

  /** Every second that a word can hold is the result for its own date and time. */
  lemma SecondsRoundTrip(t: nat) returns (n: nat, hour: int, min: int, sec: int)
    requires t < WORD
    ensures IsTime(hour, min, sec) && Seconds(NthDay(n), hour, min, sec) == t
  {
    hide DayNumber;
    n := t / DAY;
    var s := t - n * DAY;
    hour := s / 3600;
    var r := s - hour * 3600;
    min := r / 60;
    sec := r - min * 60;
    NthDayNumber(n);
  }

  /** Dates whose seconds fit a word are told apart by their seconds. */
  lemma SecondsInjective(d: Date, hour: int, min: int, sec: int, e: Date, hour': int, min': int, sec': int)
    requires Valid(d) && Valid(e) && IsTime(hour, min, sec) && IsTime(hour', min', sec')
    requires 0 <= DayNumber(d) * DAY + hour * 3600 + min * 60 + sec < WORD
    requires 0 <= DayNumber(e) * DAY + hour' * 3600 + min' * 60 + sec' < WORD
    requires Seconds(d, hour, min, sec) == Seconds(e, hour', min', sec')
    ensures d == e && hour == hour' && min == min' && sec == sec'
  {
    hide DayNumber, Wrap;
    SameDay(DayNumber(d), hour * 3600 + min * 60 + sec, DayNumber(e), hour' * 3600 + min' * 60 + sec');
    SameTime(hour, min, sec, hour', min', sec');
    DateIsNthDay(d);
    DateIsNthDay(e);
  }

  lemma SameDay(a: int, r: int, b: int, s: int)
    requires 0 <= r < DAY && 0 <= s < DAY && 0 <= a * DAY + r < WORD && 0 <= b * DAY + s < WORD
    requires Wrap(a * DAY + r) == Wrap(b * DAY + s)
    ensures a == b && r == s
  {
  }

  lemma SameTime(hour: int, min: int, sec: int, hour': int, min': int, sec': int)
    requires IsTime(hour, min, sec) && IsTime(hour', min', sec')
    requires hour * 3600 + min * 60 + sec == hour' * 3600 + min' * 60 + sec'
    ensures hour == hour' && min == min' && sec == sec'
  {
  }
}
