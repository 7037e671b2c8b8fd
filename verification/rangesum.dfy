/** rangesum.py: the sum of a Python `range` in closed form, as the arithmetic series
    (first + last) * count / 2, with the count written as (last - first + step) / step.

    Python's `//` floors; Dafny's `/` is Euclidean, which floors only for a positive divisor.
    A `range` never has step 0. */
module RangeSum {

  datatype PyRange = PyRange(start: int, stop: int, step: int)

  /** Python's `a // b`. */
  function FloorDiv(a: int, b: int): int
    requires b != 0
  {
    if b > 0 then a / b else (-a) / (-b)
  }

  /** `//` rounds toward negative infinity: q * b is the multiple of b at or below a for a
      positive b, and at or above a for a negative one. */
  lemma FloorDivFloors(a: int, b: int)
    requires b != 0
    ensures var q := FloorDiv(a, b);
            (b > 0 ==> q * b <= a < q * b + b) && (b < 0 ==> q * b >= a > q * b + b)
  {
    if b < 0 {
      var q := (-a) / (-b);
      assert q * (-b) <= -a < q * (-b) + (-b);
      assert q * (-b) == -(q * b);
    }
  }

  /** How far the range runs in its own direction: positive exactly when it is not empty. */
  function Distance(r: PyRange): int {
    if r.step > 0 then r.stop - r.start else r.start - r.stop
  }

  /** The range with its first element dropped. */
  function Rest(r: PyRange): (t: PyRange)
    requires r.step != 0
    ensures t.step == r.step && t.stop == r.stop && t.start == r.start + r.step
    ensures Distance(t) == Distance(r) - Stride(r.step)
  {
    PyRange(r.start + r.step, r.stop, r.step)
  }

  /** `list(r)`: start, start + step, ... while below stop (step > 0) or above it
      (step < 0). */
  function Elements(r: PyRange): (s: seq<int>)
    requires r.step != 0
    ensures Distance(r) <= 0 <==> s == []
    decreases if Distance(r) > 0 then Distance(r) else 0
  {
    if Distance(r) <= 0 then [] else [r.start] + Elements(Rest(r))
  }

  /** `sum` of a sequence of integers. */
  function Sum(s: seq<int>): int {
    if s == [] then 0 else s[0] + Sum(s[1..])
  }

  /** Element k of the range is start + k * step. */
  lemma {:induction false} ElementsAt(r: PyRange, k: nat)
    requires r.step != 0 && k < |Elements(r)|
    ensures Elements(r)[k] == r.start + k * r.step
    decreases k
  {
    if k > 0 {
      ElementsAt(Rest(r), k - 1);
      assert Elements(r)[k] == Elements(Rest(r))[k - 1];
    }
  }

  /** The count n is the least with n * |step| >= Distance: the last element is inside the
      range and the next one is past it. */
  lemma {:induction false} LengthBounds(r: PyRange)
    requires r.step != 0 && Distance(r) > 0
    ensures var n, d := |Elements(r)|, Stride(r.step);
            n >= 1 && (n - 1) * d < Distance(r) <= n * d
    decreases Distance(r)
  {
    var d := Stride(r.step);
    var n := |Elements(r)|;
    if Distance(Rest(r)) > 0 {
      LengthBounds(Rest(r));
      BoundsStep(Distance(r), d, n - 1);
    }
  }

  /** If m steps of size d cover dist - d but m - 1 do not, then m + 1 cover dist and m do
      not. */
  lemma BoundsStep(dist: int, d: int, m: int)
    requires (m - 1) * d < dist - d <= m * d
    ensures m * d < dist <= (m + 1) * d
  {
    assert (m - 1) * d + d == m * d && m * d + d == (m + 1) * d;
  }

  /** Twice the sum is count * (first + last): 2 * sum == n * (2 * start + (n - 1) * step). */
  lemma {:induction false} SumSeries(r: PyRange)
    requires r.step != 0
    ensures var n := |Elements(r)|;
            2 * Sum(Elements(r)) == n * (2 * r.start + (n - 1) * r.step)
    decreases if Distance(r) > 0 then Distance(r) else 0
  {
    if Distance(r) > 0 {
      var t := Rest(r);
      SumSeries(t);
      var s := Elements(r);
      assert s[1..] == Elements(t);
      var m := |Elements(t)|;
      SeriesStep(r.start, r.step, m, Sum(Elements(t)));
    }
  }

  /** The series identity for one more leading term a before a series of m terms from
      a + b. */
  lemma SeriesStep(a: int, b: int, m: int, rest: int)
    requires 2 * rest == m * (2 * (a + b) + (m - 1) * b)
    ensures 2 * (a + rest) == (m + 1) * (2 * a + ((m + 1) - 1) * b)
  {
    calc {
      2 * (a + rest);
      2 * a + m * (2 * (a + b) + (m - 1) * b);
      { assert m * (2 * (a + b) + (m - 1) * b) == 2 * a * m + m * (m + 1) * b; }
      2 * a + 2 * a * m + m * (m + 1) * b;
      (m + 1) * (2 * a + m * b);
    }
  }

  /** Division with a positive divisor has one quotient. */
  lemma DivUnique(a: int, b: int, q: int)
    requires b > 0 && q * b <= a < q * b + b
    ensures a / b == q
  {
    var p, m := a / b, a % b;
    assert a == p * b + m && 0 <= m < b;
    if p < q {
      assert (p + 1) * b == p * b + b;
      MulLe(p + 1, q, b);
    } else if p > q {
      assert (q + 1) * b == q * b + b;
      MulLe(q + 1, p, b);
    }
  }

  lemma MulLe(x: int, y: int, b: int)
    requires x <= y && b > 0
    ensures x * b <= y * b
  {
    assert y * b - x * b == (y - x) * b;
  }

  /** Dividing an exact multiple of b by b, with Python's `//`. */
  lemma FloorDivExact(t: int, b: int)
    requires b != 0
    ensures FloorDiv(t * b, b) == t
  {
    if b > 0 {
      DivUnique(t * b, b, t);
    } else {
      DivUnique(-(t * b), -b, t);
    }
  }

  /** `rsum` as written: the last element is found with `(stop - start - 1) // step`, which
      counts correctly only for a positive step, and an empty range is not treated apart. */
  function RSumAsWritten(r: PyRange): (total: int)
    requires r.step != 0
    ensures r.step > 0 && r.start < r.stop ==> total == Sum(Elements(r))
  {
    var rangeEnd := r.start + FloorDiv(r.stop - r.start - 1, r.step) * r.step;
    assert r.step > 0 && r.start < r.stop ==> rangeEnd == LastElement(r) by {
      if r.step > 0 && r.start < r.stop {
        LastElementIs(r);
      }
    }
    var total := FloorDiv((rangeEnd + r.start) * (rangeEnd - r.start + r.step), 2 * r.step);
    assert r.step > 0 && r.start < r.stop ==> total == Sum(Elements(r)) by {
      if r.step > 0 && r.start < r.stop {
        ClosedForm(r);
      }
    }
    total
  }

  /** A step of -2 from 11 down to 1 covers 11, 9, 7, 5, 3, which sum to 35; the code as
      written lands on 1 as its last element and gives 36. */
  lemma AsWrittenDescending()
    ensures Sum(Elements(PyRange(11, 1, -2))) == 35
    ensures RSumAsWritten(PyRange(11, 1, -2)) == 36
  {
    var r := PyRange(11, 1, -2);
    assert Elements(r) == [11, 9, 7, 5, 3];
  }

  /** range(5, 3) is empty and sums to 0; the code as written gives -7. */
  lemma AsWrittenEmpty()
    ensures Sum(Elements(PyRange(5, 3, 1))) == 0
    ensures RSumAsWritten(PyRange(5, 3, 1)) == -7
  {
  }

  /** The direction of the step: 1 or -1. */
  function Sign(step: int): int {
    if step > 0 then 1 else -1
  }

  /** The last element of a non-empty range: start plus the whole number of steps that stay
      short of stop, `(stop - start - sign(step)) // step`. */
  function LastElement(r: PyRange): (last: int)
    requires r.step != 0
  {
    r.start + FloorDiv(r.stop - r.start - Sign(r.step), r.step) * r.step
  }

  /** The magnitude of a step. */
  function Stride(step: int): (d: int)
    requires step != 0
    ensures d > 0 && (d == step || d == -step)
  {
    if step > 0 then step else -step
  }

  /** `(stop - start - sign(step)) // step` is (Distance - 1) / |step| in either direction. */
  lemma StepsQuotient(r: PyRange)
    requires r.step != 0 && Distance(r) > 0
    ensures FloorDiv(r.stop - r.start - Sign(r.step), r.step) == (Distance(r) - 1) / Stride(r.step)
  {
    var x := r.stop - r.start - Sign(r.step);
    if r.step > 0 {
      assert x == Distance(r) - 1;
    } else {
      assert -x == Distance(r) - 1;
    }
  }

  /** The whole steps that stay short of stop are one fewer than the elements. */
  lemma StepsBeforeStop(r: PyRange)
    requires r.step != 0 && Distance(r) > 0
    ensures FloorDiv(r.stop - r.start - Sign(r.step), r.step) == |Elements(r)| - 1
  {
    var n := |Elements(r)|;
    var d := Stride(r.step);
    var a := Distance(r) - 1;
    StepsQuotient(r);
    assert a / d == n - 1 by {
      LengthBounds(r);
      assert (n - 1) * d + d == n * d;
      DivUnique(a, d, n - 1);
    }
  }

  /** (first + last) * (last - first + step) == 2 * step * sum, for last = first +
      (n - 1) * step and 2 * sum == n * (first + last). */
  lemma SeriesProduct(a: int, b: int, n: int, s: int, e: int)
    requires b != 0
    requires e == a + (n - 1) * b && 2 * s == n * (2 * a + (n - 1) * b)
    ensures (e + a) * (e - a + b) == s * (2 * b)
    ensures FloorDiv((e + a) * (e - a + b), 2 * b) == s
  {
    var x := 2 * a + (n - 1) * b;
    assert e + a == x;
    assert e - a + b == n * b;
    calc {
      (e + a) * (e - a + b);
      x * (n * b);
      (n * x) * b;
      (2 * s) * b;
      s * (2 * b);
    }
    FloorDivExact(s, 2 * b);
  }

  /** The computed last element is the range's last element, start + (len - 1) * step. */
  lemma LastElementIs(r: PyRange)
    requires r.step != 0 && Distance(r) > 0
    ensures var n := |Elements(r)|;
            LastElement(r) == r.start + (n - 1) * r.step && LastElement(r) == Elements(r)[n - 1]
  {
    var n := |Elements(r)|;
    StepsBeforeStop(r);
    ElementsAt(r, n - 1);
  }

  /** The count formula `(range_end - start + step) // step` gives len(r). */
  lemma CountFormula(r: PyRange)
    requires r.step != 0 && Distance(r) > 0
    ensures FloorDiv(LastElement(r) - r.start + r.step, r.step) == |Elements(r)|
  {
    LastElementIs(r);
    StepCount(LastElement(r), r.start, r.step, |Elements(r)|);
  }

  /** From the last of n terms, `(last - first + step) // step` recovers n. */
  lemma StepCount(last: int, first: int, step: int, n: int)
    requires step != 0 && last == first + (n - 1) * step
    ensures FloorDiv(last - first + step, step) == n
  {
    assert last - first + step == n * step;
    FloorDivExact(n, step);
  }

  /** The last element is on the near side of stop, and one more step reaches or passes it. */
  lemma LastElementBounds(r: PyRange)
    requires r.step != 0 && Distance(r) > 0
    ensures r.step > 0 ==> LastElement(r) < r.stop <= LastElement(r) + r.step
    ensures r.step < 0 ==> LastElement(r) > r.stop >= LastElement(r) + r.step
  {
    var n := |Elements(r)|;
    var b, d := r.step, Stride(r.step);
    LastElementIs(r);
    LengthBounds(r);
    assert (n - 1) * b + b == n * b;
    if b < 0 {
      assert (n - 1) * b == -((n - 1) * d) && n * b == -(n * d);
    }
  }

  /** The closed form of a non-empty range, with `range_end` the last element: the product
      (first + last) * (last - first + step) is exactly 2 * step times the sum. */
  lemma ClosedForm(r: PyRange)
    requires r.step != 0 && Distance(r) > 0
    ensures var e := LastElement(r);
            (e + r.start) * (e - r.start + r.step) == Sum(Elements(r)) * (2 * r.step)
    ensures var e := LastElement(r);
            FloorDiv((e + r.start) * (e - r.start + r.step), 2 * r.step) == Sum(Elements(r))
  {
    LastElementIs(r);
    SumSeries(r);
    SeriesProduct(r.start, r.step, |Elements(r)|, Sum(Elements(r)), LastElement(r));
  }

  /** `rsum` corrected: 0 for an empty range, and the last element found with the step's own
      sign, so that every range is summed. */
  function RSum(r: PyRange): (total: int)
    requires r.step != 0
    ensures total == Sum(Elements(r))
  {
    if Distance(r) <= 0 then 0
    else
      var rangeEnd := LastElement(r);
      ClosedForm(r);
      FloorDiv((rangeEnd + r.start) * (rangeEnd - r.start + r.step), 2 * r.step)
  }
}
