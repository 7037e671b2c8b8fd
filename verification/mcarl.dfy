/** mcarl.c: a lattice-point estimate of pi. For each column x of a quarter disc of radius r
    a binary search finds the top row inside the circle, and `main` adds those rows up.

    `uint64_t` is an integer in [0, 2^64); every addition and multiplication of the C code is
    reduced modulo 2^64 here, and the lemmas show when that reduction changes nothing. */
module MonteCarlo {

  const Two64: int := 0x1_0000_0000_0000_0000

  type U64 = n: int | 0 <= n < Two64

  /** 2^63: bounds for which y_start + y_end cannot wrap. */
  const HalfRange: int := 0x8000_0000_0000_0000

  /** The radius `main` uses, 2^24. */
  const Radius: U64 := 0x1000000

  function Add64(a: U64, b: U64): (c: U64)
    ensures a + b < Two64 ==> c == a + b
    ensures a + b >= Two64 ==> c == a + b - Two64
  {
    if a + b < Two64 then a + b else a + b - Two64
  }

  function Mul64(a: U64, b: U64): (c: U64)
    ensures a * b < Two64 ==> c == a * b
  {
    var p := a * b;
    if p < Two64 then p else p % Two64
  }

  /** `x*x + y*y` as the C code computes it on `uint64_t`. */
  function SumSquares64(x: U64, y: U64): (s: U64)
    ensures x * x + y * y < Two64 ==> s == x * x + y * y
  {
    assert 0 <= x * x && 0 <= y * y;
    Add64(Mul64(x, x), Mul64(y, y))
  }

  lemma MulLe(a: nat, b: nat, c: nat, d: nat)
    requires a <= c && b <= d
    ensures a * b <= c * d
  {
    assert a * b <= c * b <= c * d;
  }

  lemma SquareLe(a: nat, b: nat)
    requires a <= b
    ensures a * a <= b * b
  {
    MulLe(a, a, b, b);
  }

  /** `binsearch_rad`: halve [y_start, y_end) until one row is left, keeping y_start when
      x^2 + middle^2 is still inside the circle and y_end otherwise. The C recursion needs
      y_start < y_end to end, and y_end <= 2^63 so that no midpoint sum it forms wraps. */
  function BinsearchRad(x: U64, yStart: U64, yEnd: U64, radSq: U64): (y: U64)
    requires yStart < yEnd <= HalfRange
    ensures yStart <= y < yEnd
    ensures yStart == yEnd - 1 ==> y == yStart
    decreases yEnd - yStart
  {
    if yStart == yEnd - 1 then yStart
    else
      var middle := Add64(yStart, yEnd) / 2;
      if SumSquares64(x, middle) < radSq then BinsearchRad(x, middle, yEnd, radSq)
      else BinsearchRad(x, yStart, middle, radSq)
  }

  /** Given the bracket x^2 + y_start^2 < rad_sq <= x^2 + y_end^2, and sums of squares that
      fit in 64 bits, the search returns the last row inside the circle: the one below it is
      inside and the one above it is not. */
  lemma {:induction false} BinsearchBracket(x: U64, yStart: U64, yEnd: U64, radSq: U64)
    requires yStart < yEnd <= HalfRange
    requires x * x + yEnd * yEnd < Two64
    requires x * x + yStart * yStart < radSq <= x * x + yEnd * yEnd
    ensures var y := BinsearchRad(x, yStart, yEnd, radSq);
            x * x + y * y < radSq <= x * x + (y + 1) * (y + 1)
    decreases yEnd - yStart
  {
    if yStart != yEnd - 1 {
      var middle := Add64(yStart, yEnd) / 2;
      SquareLe(middle, yEnd);
      if SumSquares64(x, middle) < radSq {
        BinsearchBracket(x, middle, yEnd, radSq);
      } else {
        BinsearchBracket(x, yStart, middle, radSq);
      }
    }
  }

  /** How many rows y in [1, n) of column x lie strictly inside the circle x^2 + y^2 <
      rad_sq: an independent count of the lattice points the search stands for. */
  function Column(x: int, radSq: int, n: nat): (c: nat)
    ensures c <= n
  {
    if n <= 1 then 0
    else Column(x, radSq, n - 1) + (if x * x + (n - 1) * (n - 1) < radSq then 1 else 0)
  }

  /** Every row up to y is inside: the count over [1, y + 1) is y. */
  lemma {:induction false} ColumnInside(x: int, radSq: int, y: nat, n: nat)
    requires x * x + y * y < radSq && n <= y + 1
    ensures Column(x, radSq, n) == if n == 0 then 0 else n - 1
  {
    if n > 1 {
      ColumnInside(x, radSq, y, n - 1);
      SquareLe(n - 1, y);
    }
  }

  /** No row from y + 1 on is inside, so the count stops growing at y. */
  lemma {:induction false} ColumnOutside(x: int, radSq: int, y: nat, n: nat)
    requires x * x + y * y < radSq <= x * x + (y + 1) * (y + 1) && y + 1 <= n
    ensures Column(x, radSq, n) == y
  {
    if n == y + 1 {
      ColumnInside(x, radSq, y, n);
    } else {
      ColumnOutside(x, radSq, y, n - 1);
      SquareLe(y + 1, n - 1);
    }
  }

  /** One column of `main`: the search over [0, r) against r^2. */
  function Row(r: U64, x: U64): (y: U64)
    requires 0 < r <= HalfRange
    ensures y < r
  {
    BinsearchRad(x, 0, r, Mul64(r, r))
  }

  /** For a radius up to 2^24 nothing wraps, and the search in column x < r returns the
      number of rows of that column inside the circle. */
  lemma RowCountsColumn(r: U64, x: U64)
    requires 0 < r <= Radius && x < r
    ensures Row(r, x) == Column(x, r * r, r)
  {
    SquareLe(r, Radius);
    SquareLe(x, r);
    BinsearchBracket(x, 0, r, r * r);
    ColumnOutside(x, r * r, Row(r, x), r);
  }

  /** The sum of the first n searches, without wrap-around. */
  function HitSum(r: U64, n: nat): (h: nat)
    requires 0 < r <= HalfRange && n <= r
    ensures h <= n * (r - 1)
  {
    if n == 0 then 0
    else HitSum(r, n - 1) + Row(r, n - 1)
  }

  /** The lattice points (x, y) with 0 <= x < n and 1 <= y < r strictly inside the circle. */
  function Lattice(r: nat, n: nat): (h: nat) {
    if n == 0 then 0 else Lattice(r, n - 1) + Column(n - 1, r * r, r)
  }

  /** The sum of the first n searches counts the lattice points (x, y) with 0 <= x < n and
      1 <= y < r strictly inside the circle; row y = 0 is not part of the count. */
  lemma {:induction false} HitSumCountsLattice(r: U64, n: nat)
    requires 0 < r <= Radius && n <= r
    ensures HitSum(r, n) == Lattice(r, n)
  {
    if n > 0 {
      HitSumCountsLattice(r, n - 1);
      RowCountsColumn(r, n - 1);
    }
  }

  /** The loop of `main` for radius r: `hit` accumulates one search per column. For r up to
      2^24 the `uint64_t` additions never wrap, so `hit` is the exact sum, which is the
      number of lattice points inside the quarter circle. */
  method Hits(r: U64) returns (hit: U64)
    requires 0 < r <= Radius
    ensures hit == HitSum(r, r) && hit == Lattice(r, r)
  {
    var rSq := Mul64(r, r);
    hit := 0;
    var x: U64 := 0;
    while x < r
      invariant x <= r && hit == HitSum(r, x)
    {
      MulLe(x + 1, r - 1, Radius, Radius);
      assert hit + Row(r, x) <= (x + 1) * (r - 1) < Two64;
      hit := Add64(hit, BinsearchRad(x, 0, r, rSq));
      x := Add64(x, 1);
    }
    HitSumCountsLattice(r, r);
  }

  /** `main` with r = 0x1000000. */
  method MainHits() returns (hit: U64)
    ensures hit == HitSum(Radius, Radius) && hit == Lattice(Radius, Radius)
  {
    hit := Hits(Radius);
  }
}
