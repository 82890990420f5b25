/** Tap selection of renesas_sdhi_core.c: the two tuning runs are merged in place, and the sampling
    tap becomes the centre of the longest run of good probes. */
module Taps {
  const MIN_TAP_ROW: nat := 3

  // ----- the merge

  /** A bitmap of two tuning runs over n taps, one after the other. */
  ghost predicate TwoRuns(bits: seq<bool>, n: nat) { n > 0 && |bits| == 2 * n }

  /** Bit i of the merge: tap i % n passed in both runs. */
  ghost function Merged(bits: seq<bool>, n: nat): (m: seq<bool>)
    requires TwoRuns(bits, n)
    ensures TwoRuns(m, n)
  {
    seq(2 * n, i requires 0 <= i < 2 * n => if i < n then bits[i] && bits[i + n] else bits[i] && bits[i - n])
  }

  // ----- runs

  ghost predicate Run(bits: seq<bool>, start: int, end: int) {
    0 <= start < end <= |bits| && forall i :: start <= i < end ==> bits[i]
  }

  ghost predicate HasRun(bits: seq<bool>, length: nat) {
    exists start, end :: Run(bits, start, end) && end - start >= length
  }

  lemma RunCovers(bits: seq<bool>, start: int, end: int, i: nat)
    requires i < |bits|
    ensures Run(bits, start, end) && start <= i < end ==> bits[i]
  {
  }

  /** A run that cannot be extended on either side. */
  ghost predicate Maximal(bits: seq<bool>, start: int, end: int) {
    && Run(bits, start, end)
    && (start > 0 ==> !bits[start - 1])
    && (end < |bits| ==> !bits[end])
  }

  /** The first of the longest runs among those that start before a limit; none is written as (0, 0). */
  ghost predicate FirstLongest(bits: seq<bool>, limit: int, start: int, end: int) {
    && ((start == 0 && end == 0) || (Maximal(bits, start, end) && start < limit))
    && (forall a, b :: Run(bits, a, b) && a < limit ==> b - a <= end - start)
    && (forall a, b :: Run(bits, a, b) && a < start ==> b - a < end - start)
  }

  /** Position i counted round a circle of n taps. */
  function Round(i: nat, n: nat): nat
    requires n > 0
  {
    i % n
  }

  lemma RoundIs(i: nat, n: nat)
    requires n > 0 && i < 2 * n
    ensures Round(i, n) == if i < n then i else i - n
  {
    if i >= n {
      assert i == n * 1 + (i - n);
    }
  }

  /** The taps counted round in a circle: length taps from a on all pass. */
  ghost predicate CircularRun(bits: seq<bool>, n: nat, a: nat, length: nat)
    requires TwoRuns(bits, n)
  {
    a < n && length <= n && forall i :: a <= i < a + length ==> Round(i, n) < n && bits[Round(i, n)]
  }

  lemma MergedRepeats(bits: seq<bool>, n: nat, i: nat)
    requires TwoRuns(bits, n) && i < 2 * n
    ensures var t := Round(i, n); t < n && Merged(bits, n)[i] == Merged(bits, n)[t] == (bits[t] && bits[t + n])
  {
    hide Round;
    RoundIs(i, n);
  }

  /** Laying the circle out twice makes its runs linear. */
  lemma LineOfCircle(bits: seq<bool>, n: nat, a: nat, length: nat)
    requires TwoRuns(bits, n) && length > 0 && CircularRun(Merged(bits, n), n, a, length)
    ensures Run(Merged(bits, n), a, a + length)
  {
    hide Merged, Round;
    forall i | a <= i < a + length ensures Merged(bits, n)[i] {
      MergedRepeats(bits, n, i);
    }
  }

  /** And a run on the line, if it is no longer than the circle, is a run on the circle. */
  lemma CircleOfLine(bits: seq<bool>, n: nat, s: nat, length: nat)
    requires TwoRuns(bits, n) && 0 < length <= n && Run(Merged(bits, n), s, s + length)
    ensures CircularRun(Merged(bits, n), n, if s < n then s else s - n, length)
  {
    hide Merged, Round;
    var a := if s < n then s else s - n;
    forall i | a <= i < a + length ensures Round(i, n) < n && Merged(bits, n)[Round(i, n)] {
      MergedRepeats(bits, n, i + s - a);
      RoundIs(i, n);
      RoundIs(i + s - a, n);
    }
  }

  /** If some tap failed, no run on the line is longer than the circle. */
  lemma RunFitsCircle(bits: seq<bool>, n: nat, start: int, end: int)
    requires TwoRuns(bits, n) && false in Merged(bits, n) && Run(Merged(bits, n), start, end)
    ensures end - start < n
  {
    hide Merged, Round;
    var m := Merged(bits, n);
    var f :| 0 <= f < |m| && !m[f];
    MergedRepeats(bits, n, f);
    var low := Round(f, n);
    RoundIs(low + n, n);
    MergedRepeats(bits, n, low + n);
    assert !m[low] && !m[low + n];
  }

  // ----- what is selected

  /** The bitmap searched and the row length asked for: change points when every tap passed. */
  ghost function Searched(taps: seq<bool>, smpcmp: seq<bool>, n: nat): (seq<bool>, nat)
    requires TwoRuns(taps, n) && TwoRuns(smpcmp, n)
  {
    if false in Merged(taps, n) then (Merged(taps, n), MIN_TAP_ROW) else (Merged(smpcmp, n), 1)
  }

  /** The tap chosen for the run found. */
  function Centre(start: nat, end: nat, n: nat): nat
    requires n > 0
  {
    Round((start + end) / 2, n)
  }

  /** A chosen tap is a tap, and it passed in both runs of the bitmap searched. */
  lemma ChosenTapPassedTwice(bits: seq<bool>, n: nat, start: nat, end: nat)
    requires TwoRuns(bits, n) && Run(Merged(bits, n), start, end)
    ensures Centre(start, end, n) < n
    ensures bits[Centre(start, end, n)] && bits[Centre(start, end, n) + n]
  {
    hide Merged;
    MergedRepeats(bits, n, (start + end) / 2);
  }

  /** With a failed tap the choice is fair: selection succeeds exactly if three neighbouring taps on
      the circle passed in both runs, and the run it centres is as long as any on the circle. */
  lemma SelectionIsCircular(taps: seq<bool>, n: nat, start: int, end: int)
    requires TwoRuns(taps, n) && false in Merged(taps, n)
    requires FirstLongest(Merged(taps, n), 2 * n, start, end)
    ensures end - start >= MIN_TAP_ROW <==> exists a: nat :: CircularRun(Merged(taps, n), n, a, MIN_TAP_ROW)
    ensures forall a: nat, length: nat :: CircularRun(Merged(taps, n), n, a, length) ==> length <= end - start
    ensures end > start ==>
              exists a: nat, length: nat :: CircularRun(Merged(taps, n), n, a, length) && length == end - start
  {
    hide Merged, Round;
    var m := Merged(taps, n);
    if end > start {
      RunFitsCircle(taps, n, start, end);
      CircleOfLine(taps, n, start, end - start);
    }
    forall a: nat, length: nat | CircularRun(m, n, a, length) ensures length <= end - start {
      if length > 0 {
        LineOfCircle(taps, n, a, length);
      }
    }
    if end - start >= MIN_TAP_ROW {
      CircleOfLine(taps, n, start, MIN_TAP_ROW);
    }
  }

  /** The tap chosen is the middle of the run: as many probes passed in front of it as behind it, or
      one more. */
  lemma CentreIsMiddle(start: nat, end: nat, n: nat) returns (c: nat)
    requires n > 0 && start < end
    ensures start <= c < end && Centre(start, end, n) == c % n
    ensures (c - start) == (end - 1 - c) || (c - start) == (end - 1 - c) + 1
  {
    c := (start + end) / 2;
  }

  /** Tap t passed in both runs. */
  ghost predicate PassedTwice(bits: seq<bool>, n: nat, t: nat)
    requires TwoRuns(bits, n)
  {
    t < n && bits[t] && bits[t + n]
  }

  /** Tap a and the two behind it, round the circle, passed in both runs. */
  ghost predicate ThreePassed(bits: seq<bool>, n: nat, a: nat)
    requires TwoRuns(bits, n)
  {
    PassedTwice(bits, n, a) && PassedTwice(bits, n, (a + 1) % n) && PassedTwice(bits, n, (a + 2) % n)
  }

  /** Whether there is anything to select, told from the probes: with a failed tap, three neighbours
      round the circle that passed twice; with none, one change point seen twice. */
  lemma SelectableIff(taps: seq<bool>, smpcmp: seq<bool>, n: nat)
    requires TwoRuns(taps, n) && TwoRuns(smpcmp, n)
    ensures var (bits, row) := Searched(taps, smpcmp, n);
            HasRun(bits, row) <==>
              if forall t: nat :: t < n ==> PassedTwice(taps, n, t) then exists t: nat :: PassedTwice(smpcmp, n, t)
              else exists a: nat :: ThreePassed(taps, n, a)
  {
    hide HasRun;
    FullIff(taps, n);
    if forall t: nat :: t < n ==> PassedTwice(taps, n, t) {
      SingleRunIff(smpcmp, n);
    } else {
      TripleRunIff(taps, n);
    }
  }

  lemma FullIff(taps: seq<bool>, n: nat)
    requires TwoRuns(taps, n)
    ensures false in Merged(taps, n) <==> !(forall t: nat :: t < n ==> PassedTwice(taps, n, t))
  {
    var m := Merged(taps, n);
    if !(forall t: nat :: t < n ==> PassedTwice(taps, n, t)) {
      var t: nat :| t < n && !PassedTwice(taps, n, t);
      assert !m[t];
    }
    if false in m {
      var f :| 0 <= f < |m| && !m[f];
      assert !PassedTwice(taps, n, if f < n then f else f - n);
    }
  }

  lemma SingleRunIff(bits: seq<bool>, n: nat)
    requires TwoRuns(bits, n)
    ensures HasRun(Merged(bits, n), 1) <==> exists t: nat :: PassedTwice(bits, n, t)
  {
    var m := Merged(bits, n);
    if HasRun(m, 1) {
      var s, e :| Run(m, s, e) && e - s >= 1;
      assert m[s] && PassedTwice(bits, n, if s < n then s else s - n);
    }
    if t: nat :| PassedTwice(bits, n, t) {
      assert Run(m, t, t + 1);
    }
  }

  lemma TripleRunIff(bits: seq<bool>, n: nat)
    requires TwoRuns(bits, n) && false in Merged(bits, n)
    ensures HasRun(Merged(bits, n), 3) <==>
            exists a: nat :: ThreePassed(bits, n, a)
  {
    hide Merged, Round;
    var m := Merged(bits, n);
    if HasRun(m, 3) {
      var s, e :| Run(m, s, e) && e - s >= 3;
      assert Run(m, s, s + 3);
      RunFitsCircle(bits, n, s, s + 3);
      CircleOfLine(bits, n, s, 3);
      var a := if s < n then s else s - n;
      Three(bits, n, a);
    }
    if a: nat :| ThreePassed(bits, n, a) {
      TriplesFit(bits, n, a);
      Three(bits, n, a);
      LineOfCircle(bits, n, a, 3);
      assert Run(m, a, a + 3);
    }
  }

  lemma Three(bits: seq<bool>, n: nat, a: nat)
    requires TwoRuns(bits, n) && n >= 3 && a < n
    ensures CircularRun(Merged(bits, n), n, a, 3) <==> ThreePassed(bits, n, a)
  {
    RoundIs(a, n);
    RoundIs(a + 1, n);
    RoundIs(a + 2, n);
  }

  lemma SmallCircle(a: nat, t: nat, n: nat)
    requires a < n && t < n
    ensures n <= 2 ==> t == a || t == (a + 1) % n
  {
  }

  /** Three neighbours that passed, and one tap that failed: there are more than two taps. */
  lemma TriplesFit(bits: seq<bool>, n: nat, a: nat)
    requires TwoRuns(bits, n) && false in Merged(bits, n) && a < n
    requires ThreePassed(bits, n, a)
    ensures n >= 3
  {
    FullIff(bits, n);
    var t: nat :| t < n && !PassedTwice(bits, n, t);
    SmallCircle(a, t, n);
  }

  // ----- the selection in place

  /** The next set (or clear) bit from a position on, or the size. */
  method FindNext(bits: array<bool>, size: nat, from: nat, value: bool) returns (at: nat)
    requires from <= size == bits.Length
    ensures from <= at <= size && (at < size ==> bits[at] == value)
    ensures forall i :: from <= i < at ==> bits[i] != value
  {
    at := from;
    while at < size && bits[at] != value
      invariant from <= at <= size
      invariant forall i :: from <= i < at ==> bits[i] != value
    {
      at := at + 1;
    }
  }

  /** The scan over set bit ranges that keeps the first longest one. */
  method LongestRun(bits: array<bool>) returns (start: nat, end: nat)
    ensures FirstLongest(bits[..], bits.Length, start, end)
  {
    var size, count := bits.Length, 0;
    start, end := 0, 0;
    var rs := FindNext(bits, size, 0, true);
    ghost var b := bits[..];
    forall a, z | Run(b, a, z) ensures a >= rs {
      RunCovers(b, a, z, a);
    }
    while rs < size
      invariant rs <= size && count == end - start && (rs < size ==> bits[rs])
      invariant rs > 0 && rs < size ==> !bits[rs - 1]
      invariant start <= end <= rs && FirstLongest(b, rs, start, end)
      decreases size - rs
    {
      var re := FindNext(bits, size, rs, false);
      assert Maximal(b, rs, re);
      forall a, z | Run(b, a, z) && rs <= a < re ensures z <= re {
        if re < size {
          RunCovers(b, a, z, re);
        }
      }
      forall a, z | Run(b, a, z) && a < rs ensures z <= rs {
        RunCovers(b, a, z, rs - 1);
      }
      if re - rs > count {
        end, start := re, rs;
        count := end - start;
      }
      assert FirstLongest(b, re, start, end);
      rs := FindNext(bits, size, re, true);
      forall a, z | Run(b, a, z) && a < rs ensures a < re {
        RunCovers(b, a, z, a);
      }
    }
    forall a, z | Run(b, a, z) && a < size ensures a < rs {
      RunCovers(b, a, z, a);
    }
  }

  class Tuner {
    const tapNum: nat
    const taps: array<bool>
    const smpcmp: array<bool>
    var tapSet: nat

    ghost predicate Valid() {
      && tapNum > 0
      && taps.Length == smpcmp.Length == 2 * tapNum
      && taps != smpcmp
    }

    constructor (n: nat)
      requires n > 0
      ensures Valid() && tapNum == n && fresh(taps) && fresh(smpcmp)
    {
      tapNum := n;
      taps := new bool[2 * n];
      smpcmp := new bool[2 * n];
      tapSet := 0;
    }

    /** The merge of both bitmaps: a clear bit clears its partner in the other run. */
    method Merge()
      requires Valid()
      modifies taps, smpcmp
      ensures taps[..] == Merged(old(taps[..]), tapNum)
      ensures smpcmp[..] == Merged(old(smpcmp[..]), tapNum)
    {
      var n := tapNum;
      for i := 0 to 2 * n
        invariant forall k :: 0 <= k < 2 * n ==>
          taps[k] == (if k < n then old(taps[k]) && (k + n < i ==> old(taps[k + n]))
                      else old(taps[k]) && (k - n < i ==> old(taps[k - n])))
        invariant forall k :: 0 <= k < 2 * n ==>
          smpcmp[k] == (if k < n then old(smpcmp[k]) && (k + n < i ==> old(smpcmp[k + n]))
                        else old(smpcmp[k]) && (k - n < i ==> old(smpcmp[k - n])))
      {
        var partner := if i < n then i + n else i - n;
        if !taps[i] {
          taps[partner] := false;
        }
        if !smpcmp[i] {
          smpcmp[partner] := false;
        }
      }
    }

    method Full(bits: array<bool>) returns (full: bool)
      ensures full <==> false !in bits[..]
    {
      var at := FindNext(bits, bits.Length, 0, false);
      full := at == bits.Length;
      if !full {
        assert bits[..][at] == false;
      }
    }

    /** renesas_sdhi_select_tuning: false stands for -EIO. */
    method SelectTuning() returns (ok: bool)
      requires Valid()
      modifies `tapSet, taps, smpcmp
      ensures taps[..] == Merged(old(taps[..]), tapNum)
      ensures smpcmp[..] == Merged(old(smpcmp[..]), tapNum)
      ensures var (bits, row) := Searched(old(taps[..]), old(smpcmp[..]), tapNum);
              (ok <==> HasRun(bits, row))
              && (ok ==> exists start: nat, end: nat ::
                   && FirstLongest(bits, 2 * tapNum, start, end)
                   && row <= end - start && tapSet == Centre(start, end, tapNum))
      ensures !ok ==> tapSet == old(tapSet)
    {
      Merge();
      var bitmap, minTapRow := smpcmp, 1;
      var full := Full(taps);
      if !full {
        bitmap, minTapRow := taps, MIN_TAP_ROW;
      }
      var start, end := LongestRun(bitmap);
      ghost var bits := bitmap[..];
      assert (bits, minTapRow) == Searched(old(taps[..]), old(smpcmp[..]), tapNum);
      ok := end - start >= minTapRow;
      if ok {
        assert Run(bits, start, end);
        tapSet := Centre(start, end, tapNum);
      }
    }
  }
}
