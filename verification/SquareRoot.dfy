/** integer_sqrt of exdesk.c: the root taken two bits at a time, on a machine word of any even width. */
module SquareRoot {
  import opened Powers

  function Square(x: int): int { x * x }

  /** Addition on a word that holds the numbers below size. */
  function Add(a: nat, b: nat, size: nat): nat {
    if a + b < size then a + b else a + b - size
  }

  lemma Exp2Square(n: nat)
    ensures Exp2(2 * n) == Square(Exp2(n))
  {
    hide Exp2;
    Exp2Add(n, n);
    assert n + n == 2 * n;
  }

  lemma SquareOfDouble(x: int)
    ensures Square(2 * x) == 4 * Square(x)
  {
  }

  function Times(x: int, y: int): int { x * y }

  lemma SquareGrows(x: nat, y: nat)
    requires x <= y
    ensures Square(x) <= Square(y)
    ensures x < y ==> Square(x) < Square(y)
  {
    assert y * y == x * x + (y - x) * (y + x);
  }

  /** There is one root. */
  lemma RootIsUnique(v: nat, r: nat, s: nat)
    requires Square(r) <= v < Square(r + 1) && Square(s) <= v < Square(s + 1)
    ensures r == s
  {
    hide Square;
    if r < s {
      SquareGrows(r + 1, s);
    } else if s < r {
      SquareGrows(s + 1, r);
    }
  }

  /** What a step at bit h * h tries: the root r, known to within 2 * h, moved up by h. The two sums
      it forms stay on the word. */
  lemma TryBit(v: int, r: nat, h: nat, side: nat)
    requires h > 0 && r + 2 * h <= side
    ensures v - Square(r) >= Times(r, 2 * h) + Square(h) <==> v >= Square(r + h)
    ensures Square(r) + Times(r, 2 * h) + Square(h) == Square(r + h)
    ensures Times(r, 2 * h) == 2 * Times(r, h) && Times(r + h, h) == Times(r, h) + Square(h)
    ensures 0 <= Times(r, h) && 0 < Square(h)
    ensures Times(r, 2 * h) + Square(h) < Square(side)
  {
    assert Square(r + h) == r * r + 2 * (r * h) + h * h;
    assert r * (2 * h) == 2 * (r * h);
    assert 0 <= r * h && 0 < h * h;
    SquareGrows(r + h, side);
  }

  /** The trial bit is the square of half the span, or nothing is left to try. */
  ghost predicate BitFor(bit: nat, span: nat) {
    (span == 1 && bit == 0) || exists h: nat :: h > 0 && span == 2 * h && bit == Square(h) && PowerOfTwo(h)
  }

  ghost predicate PowerOfTwo(x: nat) { exists n: nat :: x == Exp2(n) }

  lemma Shifted(bit: nat, h: nat)
    requires PowerOfTwo(h) && bit == Square(h)
    ensures BitFor(bit / 4, h) && bit / 4 < bit
  {
    var n: nat :| h == Exp2(n);
    if n > 0 {
      var g := Exp2(n - 1);
      SquareOfDouble(g);
      assert PowerOfTwo(g);
    }
  }

  /** integer_sqrt on a word of width bits. */
  method IntegerSqrt(value: nat, width: nat) returns (result: nat)
    requires width >= 2 && width % 2 == 0 && value < Exp2(width)
    ensures Square(result) <= value < Square(result + 1)
  {
    hide Square, Times, BitFor, Exp2;
    var size: nat, rest: nat, bit: nat := Exp2(width), value, Exp2(width - 2);
    result := 0;
    ghost var side := Exp2(width / 2);
    ghost var root: nat, span: nat := 0, side;
    Start(width);
    while bit > rest
      invariant BitFor(bit, span) && 1 <= span <= side && rest < Square(span)
      decreases bit
    {
      ghost var h := HalfSpan(bit, span);
      Shifted(bit, h);
      span := h;
      bit := bit / 4;
    }
    assert Square(0) == 0 && Times(0, span) == 0 by { Zeros(span); }
    while bit != 0
      invariant BitFor(bit, span) && 1 <= span && root + span <= side
      invariant rest == value - Square(root) && result == Times(root, span)
      invariant value < Square(root + span)
      decreases bit
    {
      ghost var h := HalfSpan(bit, span);
      TryBit(value, root, h, side);
      if rest >= Add(result, bit, size) {
        rest := rest - Add(result, bit, size);
        result := Add(result / 2, bit, size);
        root := root + h;
      } else {
        result := result / 2;
      }
      Shifted(bit, h);
      span := h;
      bit := bit / 4;
    }
    assert span == 1 && Times(root, 1) == root by { LastSpan(bit, span, root); }
  }

  lemma Zeros(x: int)
    ensures Square(0) == 0 && Times(0, x) == 0
  {
  }

  lemma LastSpan(bit: nat, span: nat, root: nat)
    requires BitFor(bit, span) && bit == 0
    ensures span == 1 && Times(root, 1) == root
  {
    if span != 1 {
      var h: nat :| h > 0 && span == 2 * h && bit == Square(h) && PowerOfTwo(h);
      SquareGrows(1, h);
    }
  }

  lemma HalfSpan(bit: nat, span: nat) returns (h: nat)
    requires BitFor(bit, span) && bit > 0
    ensures h > 0 && span == 2 * h && bit == Square(h) && PowerOfTwo(h)
  {
    h :| h > 0 && span == 2 * h && bit == Square(h) && PowerOfTwo(h);
  }

  lemma Start(width: nat)
    requires width >= 2 && width % 2 == 0
    ensures Exp2(width) == Square(Exp2(width / 2)) && BitFor(Exp2(width - 2), Exp2(width / 2))
  {
    Exp2Square(width / 2);
    Exp2Square(width / 2 - 1);
    assert PowerOfTwo(Exp2(width / 2 - 1));
  }
}
