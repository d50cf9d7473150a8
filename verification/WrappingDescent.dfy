/** Subtracting a step again and again in 64 bits, without overflow checks, until the result is
    below an end: the descent may wrap around, many times over, before it stops, if it ever does. */
module WrappingDescent {
  import opened Wrappers
  import opened Numerals
  import opened Division
  import Arithmetic
  import OperatorLaws

  const MODULUS: nat := Arithmetic.MODULUS

  /** n, n - step, ... in 64 bits, as long as the numbers are not below `end`; nothing when the
      descent takes more than `calls` numbers. */
  function Descend(n: i64, end: i64, step: nat, calls: nat): Option<seq<int>>
    decreases calls
  {
    if calls == 0 then None
    else
      var next := Arithmetic.Wrap64(n - step);
      if next < end then Some([n])
      else
        match Descend(next, end, step, calls - 1)
        case Some(rest) => Some([n] + rest)
        case None => None
  }

  /** The k-th number of the descent that does not stop. */
  function Visited(start: i64, step: nat, k: nat): i64 {
    Arithmetic.Wrap64(start - k * step)
  }

  /** The descent yields k numbers: the next one is the first below the end. */
  ghost predicate StopsAfter(start: i64, end: i64, step: nat, k: nat) {
    && k >= 1 && Visited(start, step, k) < end
    && forall i :: 1 <= i < k ==> Visited(start, step, i) >= end
  }

  lemma StopsOnce(start: i64, end: i64, step: nat, j: nat, k: nat)
    requires StopsAfter(start, end, step, j) && StopsAfter(start, end, step, k)
    ensures j == k
  {
    hide Visited;
    assert j < k ==> Visited(start, step, j) >= end;
    assert k < j ==> Visited(start, step, k) >= end;
  }

  lemma WrapAgain(x: int, y: int)
    ensures Arithmetic.Wrap64(Arithmetic.Wrap64(x) - y) == Arithmetic.Wrap64(x - y)
  {
  }

  lemma VisitedNext(start: i64, step: nat, k: nat)
    ensures Arithmetic.Wrap64(Visited(start, step, k) - step) == Visited(start, step, k + 1)
  {
    hide Arithmetic.Wrap64;
    WrapAgain(start - k * step, step);
    assert start - k * step - step == start - (k + 1) * step;
  }

  lemma VisitedFirst(start: i64, step: nat)
    ensures Visited(start, step, 0) == start
  {
  }

  /** From the k-th number on. */
  lemma {:induction false} DescendFrom(start: i64, end: i64, step: nat, k: nat, calls: nat)
    ensures match Descend(Visited(start, step, k), end, step, calls)
            case Some(s) =>
              && 1 <= |s| <= calls && Visited(start, step, k + |s|) < end
              && (forall i :: k < i < k + |s| ==> Visited(start, step, i) >= end)
              && (forall i :: 0 <= i < |s| ==> s[i] == Visited(start, step, k + i))
            case None => forall i :: k < i <= k + calls ==> Visited(start, step, i) >= end
    decreases calls
  {
    hide Visited, Arithmetic.Wrap64;
    VisitedNext(start, step, k);
    if calls > 0 && Visited(start, step, k + 1) >= end {
      DescendFrom(start, end, step, k + 1, calls - 1);
    }
  }

  /** After 2^64 steps the descent is where it began. */
  lemma VisitedPeriod(start: i64, step: nat, k: nat)
    ensures Visited(start, step, k + MODULUS) == Visited(start, step, k)
  {
    hide Arithmetic.Wrap64;
    var x, y := start - (k + MODULUS) * step, start - k * step;
    assert (k + MODULUS) * step == k * step + MODULUS * step;
    var turns: int := step;
    assert x - y == (-turns) * MODULUS;
    Arithmetic.MultipleIsCongruent(x, y, -turns);
    Arithmetic.CongruentWrap(x, y);
  }

  lemma {:induction false} NeverBelow(start: i64, end: i64, step: nat, k: nat)
    requires forall i :: 1 <= i <= MODULUS ==> Visited(start, step, i) >= end
    requires k >= 1
    ensures Visited(start, step, k) >= end
    decreases k
  {
    hide Visited;
    if k > MODULUS {
      var before: nat := k - MODULUS;
      NeverBelow(start, end, step, before);
      VisitedPeriod(start, step, before);
    }
  }

  /** With 2^64 numbers allowed nothing is lost: a descent that stops has all its numbers, and
      one that has not stopped by then never will. */
  lemma DescendIsExact(start: i64, end: i64, step: nat)
    ensures match Descend(start, end, step, MODULUS)
            case Some(s) =>
              StopsAfter(start, end, step, |s|) && forall i :: 0 <= i < |s| ==> s[i] == Visited(start, step, i)
            case None => forall k :: !StopsAfter(start, end, step, k)
  {
    hide Visited, Arithmetic.Wrap64, Descend;
    VisitedFirst(start, step);
    DescendFrom(start, end, step, 0, MODULUS);
    if Descend(start, end, step, MODULUS).None? {
      forall k: nat ensures !StopsAfter(start, end, step, k) {
        if k >= 1 {
          NeverBelow(start, end, step, k);
        }
      }
    }
  }

  // ----- When a descent ever stops -----

  /** The largest power of two that divides a number. */
  function TwoPart(n: nat): (g: nat)
    requires n > 0
    ensures g > 0
  {
    if n % 2 == 1 then 1 else 2 * TwoPart(n / 2)
  }

  lemma {:induction false} TwoPartSplits(n: nat) returns (o: nat)
    requires n > 0
    ensures n == TwoPart(n) * o && o % 2 == 1
  {
    if n % 2 == 1 {
      o := n;
    } else {
      o := TwoPartSplits(n / 2);
      Arithmetic.MulAssociates(2, TwoPart(n / 2), o);
    }
  }

  lemma {:induction false} TwoPartDivides(n: nat, m: nat) returns (h: nat)
    requires 0 < n <= Pow(2, m)
    ensures TwoPart(n) * h == Pow(2, m)
  {
    if n % 2 == 1 {
      h := Pow(2, m);
    } else {
      h := TwoPartDivides(n / 2, m - 1);
      Arithmetic.MulAssociates(2, TwoPart(n / 2), h);
    }
  }

  /** An odd number has an inverse modulo every power of two. */
  lemma {:induction false} OddInverse(o: nat, m: nat) returns (v: nat, z: int)
    requires o % 2 == 1
    ensures o * v == 1 + Pow(2, m) * z
  {
    if m == 0 {
      v, z := 1, o - 1;
    } else {
      v, z := OddInverse(o, m - 1);
      var p := Pow(2, m - 1);
      OperatorLaws.PowPositive(m - 1);
      if z % 2 == 0 {
        HalfOf(p, z);
        z := z / 2;
      } else {
        AddHalfPeriod(o, v, p, z);
        HalfOf(p, z + o);
        v, z := v + p, (z + o) / 2;
      }
    }
  }

  lemma AddHalfPeriod(o: nat, v: nat, p: int, z: int)
    requires o * v == 1 + p * z
    ensures o * (v + p) == 1 + p * (z + o)
  {
    Distribute(o, v, p);
    Distribute(p, z, o);
    OperatorLaws.Commutes(o, p);
  }

  lemma Distribute(x: int, y: int, z: int)
    ensures x * (y + z) == x * y + x * z
  {
  }

  lemma HalfOf(p: int, z: int)
    requires z % 2 == 0
    ensures p * z == (2 * p) * (z / 2)
  {
    Arithmetic.MulAssociates(p, 2, z / 2);
    OperatorLaws.Commutes(p, 2);
  }

  /** The smallest 64-bit number that differs from `start` by a multiple of g. */
  function Lowest(start: i64, g: nat): int
    requires g > 0
  {
    I64_MIN + (start - I64_MIN) % g
  }

  /** Every number visited differs from the first by a multiple of the two-part of the step. */
  lemma VisitedAbove(start: i64, step: nat, k: nat)
    requires 0 < step <= I64_MAX + 1
    ensures Visited(start, step, k) >= Lowest(start, TwoPart(step))
  {
    var g, v := TwoPart(step), Visited(start, step, k);
    OperatorLaws.TwoTo64();
    var o := TwoPartSplits(step);
    var h := TwoPartDivides(step, 64);
    var x := start - k * step;
    var q := (v - x) / MODULUS;
    Arithmetic.WrapCongruent(x);
    assert v - x == MODULUS * q;
    assert k * step == g * (k * o) by {
      Arithmetic.MulAssociates(k, g, o);
    }
    assert MODULUS * q == g * (h * q) by { Arithmetic.MulAssociates(g, h, q); }
    assert v - I64_MIN == (start - I64_MIN) + g * (h * q - k * o) by { Distribute(g, h * q - k * o, k * o); }
    SameRemainder(v - I64_MIN, start - I64_MIN, g, h * q - k * o);
    RemainderBound(v - I64_MIN, g);
  }

  lemma SameRemainder(x: int, y: int, g: nat, k: int)
    requires g > 0 && x == y + g * k
    ensures x % g == y % g
  {
    var q, r := y / g, y % g;
    assert y == g * q + r;
    assert x == g * (q + k) + r by { Distribute(g, q, k); }
    OperatorLaws.Commutes(g, q + k);
    DivUnique(x, g, q + k, r);
  }

  lemma LowestIs(start: i64, g: nat) returns (u: nat)
    requires g > 0
    ensures I64_MIN <= Lowest(start, g) <= start && start - Lowest(start, g) == g * u
  {
    RemainderBound(start - I64_MIN, g);
    u := (start - I64_MIN) / g;
  }

  lemma OddInverse64(o: nat) returns (v: nat, z: int)
    requires o % 2 == 1
    ensures o * v == 1 + MODULUS * z
  {
    hide Pow;
    OperatorLaws.TwoTo64();
    v, z := OddInverse(o, 64);
  }

  lemma WrapOf(x: int, y: i64, q: int)
    requires x - y == q * MODULUS
    ensures Arithmetic.Wrap64(x) == y
  {
    Arithmetic.MultipleIsCongruent(x, y, q);
    Arithmetic.CongruentWrap(x, y);
    assert Arithmetic.Wrap64(y) == y;
  }

  /** And the lowest such number is visited. */
  lemma VisitsLowest(start: i64, step: nat) returns (k: nat)
    requires 0 < step <= I64_MAX + 1
    ensures Visited(start, step, k) == Lowest(start, TwoPart(step))
  {
    hide Lowest, Visited, TwoPart;
    var o := TwoPartSplits(step);
    var v, z := OddInverse64(o);
    var u := LowestIs(start, TwoPart(step));
    k := u * v;
    VisitsBack(start, Lowest(start, TwoPart(step)), step, TwoPart(step), u, o, v, z);
  }

  lemma VisitsBack(start: i64, low: i64, step: nat, g: nat, u: nat, o: nat, v: nat, z: int)
    requires start - low == g * u && step == g * o && o * v == 1 + MODULUS * z
    ensures Visited(start, step, u * v) == low
  {
    Turns(g, u, o, v, z, step);
    GoesBack(start, low, (u * v) * step, g * u, g * u * z);
  }

  lemma GoesBack(start: i64, low: i64, far: int, near: int, turns: int)
    requires start - low == near && far == near + MODULUS * turns
    ensures Arithmetic.Wrap64(start - far) == low
  {
    assert (start - far) - low == (-turns) * MODULUS;
    WrapOf(start - far, low, -turns);
  }

  lemma Turns(g: int, u: int, o: int, v: int, z: int, step: int)
    requires o * v == 1 + MODULUS * z && step == g * o
    ensures (u * v) * step == g * u + MODULUS * (g * u * z)
  {
    assert (u * v) * (g * o) == (g * u) * (o * v) by { Rearrange(u, v, g, o); }
    assert (g * u) * (1 + MODULUS * z) == g * u + (g * u) * (MODULUS * z) by { Distribute(g * u, 1, MODULUS * z); }
    Rearrange(g, u, MODULUS, z);
  }

  lemma Rearrange(u: int, v: int, g: int, o: int)
    ensures (u * v) * (g * o) == (g * u) * (o * v)
    ensures (u * v) * (g * o) == g * (u * v * o)
  {
  }

  lemma LeastStop(start: i64, end: i64, step: nat, k: nat) returns (n: nat)
    requires k >= 1 && Visited(start, step, k) < end
    ensures StopsAfter(start, end, step, n)
  {
    hide Visited;
    n := 1;
    while Visited(start, step, n) >= end
      invariant 1 <= n <= k && forall i :: 1 <= i < n ==> Visited(start, step, i) >= end
      decreases k - n
    {
      n := n + 1;
    }
  }

  /** A descent stops sooner or later exactly when some number below its end differs from its
      start by a multiple of the largest power of two in the step. */
  lemma StopsExactly(start: i64, end: i64, step: nat)
    requires start > end && 0 < step <= I64_MAX + 1
    ensures (exists k :: StopsAfter(start, end, step, k)) <==> Lowest(start, TwoPart(step)) < end
  {
    hide Visited, Lowest;
    if Lowest(start, TwoPart(step)) < end {
      var k := VisitsLowest(start, step);
      VisitedFirst(start, step);
      var n := LeastStop(start, end, step, k);
    }
    forall k | StopsAfter(start, end, step, k) ensures Lowest(start, TwoPart(step)) < end {
      VisitedAbove(start, step, k);
    }
  }
}
