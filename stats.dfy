/** The per-column statistics of the labelled table: counts, extremes, mean, standard deviation,
    the sorted column, and the median and quartiles picked from it by integer index formulas. */
module Statistics {
  import opened Wrappers

  /** A statistic's value: a number, or the undefined value that a floating-point `0 / 0`
      yields in the source (the mean of no rows, the deviation of a single row). */
  datatype Num = Finite(value: real) | NaN

  // ---------------------------------------------------------------------------------------
  // Integer arithmetic as the source's language does it

  /** Integer division truncating toward zero, for a positive divisor. */
  function Quot(a: int, b: int): int
    requires b > 0
  {
    if a >= 0 then a / b else -((-a) / b)
  }

  /** The remainder that goes with `Quot`: it takes the sign of the dividend. */
  function Rem(a: int, b: int): int
    requires b > 0
  {
    if a >= 0 then a % b else -((-a) % b)
  }

  // ---------------------------------------------------------------------------------------
  // Index formulas over a sorted column of `n` values

  function MedianLeft(n: nat): int { Quot(n - 1, 2) }

  function MedianRight(n: nat): int { Quot(n, 2) }

  function Quartile1Left(n: nat): int { Quot(n - 1, 4) + Quot(Rem(n - 1, 4) + 1, 2) }

  function Quartile1Right(n: nat): int { Quot(n - 1, 4) + 1 }

  function Quartile3Left(n: nat): int { Quot(n, 2) + Quot(n - 1, 4) + Quot(Rem(n - 1, 4) + 1, 2) }

  function Quartile3Right(n: nat): int { Quot(n, 2) + Quot(n - 1, 4) + 1 }

  /** The median reads two indices inside any non-empty column: the same one when the count is
      odd, two neighbours when it is even. An empty column has none. */
  lemma MedianIndices(n: nat)
    ensures n >= 1 ==> 0 <= MedianLeft(n) <= MedianRight(n) < n
    ensures n >= 1 ==> (n % 2 == 1 <==> MedianLeft(n) == MedianRight(n))
    ensures n >= 1 ==> (n % 2 == 0 <==> MedianRight(n) == MedianLeft(n) + 1)
    ensures n == 0 ==> MedianLeft(n) == 0 && MedianRight(n) == 0
  {
  }

  /** The first quartile reads two indices inside the column from two values on; a single value
      makes it read index 1; when the count is a positive multiple of 4 its left index is one
      past its right one. */
  lemma Quartile1Indices(n: nat)
    ensures n >= 2 ==> 0 <= Quartile1Left(n) < n && 0 <= Quartile1Right(n) < n
    ensures n == 1 ==> Quartile1Right(n) == 1
    ensures n == 0 ==> Quartile1Left(n) == 0 && Quartile1Right(n) == 1
    ensures n > 0 && n % 4 == 0 ==> Quartile1Left(n) == Quartile1Right(n) + 1
  {
    if n > 0 && n % 4 == 0 {
      assert (n - 1) % 4 == 3;
    }
  }

  /** The third quartile reads two indices inside the column exactly when there are 3 values or
      at least 5: with 1, 2 or 4 values it reads past the end. */
  lemma Quartile3Indices(n: nat)
    ensures (0 <= Quartile3Left(n) < n && 0 <= Quartile3Right(n) < n) <==> (n == 3 || n >= 5)
  {
    if n >= 5 {
      var k, m := (n - 1) / 4, (n - 1) % 4;
      assert n - 1 == 4 * k + m && 0 <= m < 4 && k >= 1;
      assert n / 2 + k + (m + 1) / 2 < n;
    }
  }

  /** The indices for twelve values: the median averages 5 and 6, the first quartile 4 and 3,
      the third quartile 10 and 9. */
  lemma TwelveIndices()
    ensures MedianLeft(12) == 5 && MedianRight(12) == 6
    ensures Quartile1Left(12) == 4 && Quartile1Right(12) == 3
    ensures Quartile3Left(12) == 10 && Quartile3Right(12) == 9
  {
  }

  // ---------------------------------------------------------------------------------------
  // Sequences of values

  /** The sum of the values, added first to last. */
  function Total(xs: seq<real>): real
  {
    if |xs| == 0 then 0.0 else Total(xs[..|xs| - 1]) + xs[|xs| - 1]
  }

  /** The sum of the squared distances of the values from `m`. */
  function SquaredDeviation(xs: seq<real>, m: real): real
  {
    if |xs| == 0 then 0.0 else SquaredDeviation(xs[..|xs| - 1], m) + (xs[|xs| - 1] - m) * (xs[|xs| - 1] - m)
  }

  lemma {:induction false} SquaredDeviationNonNegative(xs: seq<real>, m: real)
    ensures SquaredDeviation(xs, m) >= 0.0
  {
    if |xs| > 0 {
      SquaredDeviationNonNegative(xs[..|xs| - 1], m);
      var d := xs[|xs| - 1] - m;
      assert d * d >= 0.0 by {
        if d < 0.0 { assert d * d == (-d) * (-d); }
      }
    }
  }

  /** The smallest value (`Enumerable.Min`). */
  function Minimum(xs: seq<real>): (m: real)
    requires |xs| > 0
    ensures m in xs && forall x :: x in xs ==> m <= x
  {
    if |xs| == 1 then xs[0]
    else
      var rest := Minimum(xs[..|xs| - 1]);
      assert forall x :: x in xs ==> x in xs[..|xs| - 1] || x == xs[|xs| - 1];
      if xs[|xs| - 1] < rest then xs[|xs| - 1] else rest
  }

  /** The largest value (`Enumerable.Max`). */
  function Maximum(xs: seq<real>): (m: real)
    requires |xs| > 0
    ensures m in xs && forall x :: x in xs ==> x <= m
  {
    if |xs| == 1 then xs[0]
    else
      var rest := Maximum(xs[..|xs| - 1]);
      assert forall x :: x in xs ==> x in xs[..|xs| - 1] || x == xs[|xs| - 1];
      if xs[|xs| - 1] > rest then xs[|xs| - 1] else rest
  }

  predicate Ascending(xs: seq<real>)
  {
    forall i, j :: 0 <= i < j < |xs| ==> xs[i] <= xs[j]
  }

  /** `x` placed in an ascending sequence before the first larger value. */
  function Insert(x: real, s: seq<real>): seq<real>
  {
    if |s| == 0 then [x]
    else if x <= s[0] then [x] + s
    else [s[0]] + Insert(x, s[1..])
  }

  /** Inserting adds exactly the one value. */
  lemma {:induction false} InsertPermutes(x: real, s: seq<real>)
    ensures multiset(Insert(x, s)) == multiset(s) + multiset{x} && |Insert(x, s)| == |s| + 1
  {
    if |s| > 0 && x > s[0] {
      InsertPermutes(x, s[1..]);
      assert s == [s[0]] + s[1..];
    }
  }

  /** Inserting into an ascending sequence keeps it ascending. */
  lemma {:induction false} InsertSorted(x: real, s: seq<real>)
    requires Ascending(s)
    ensures Ascending(Insert(x, s))
  {
    if |s| > 0 && x > s[0] {
      var rest := Insert(x, s[1..]);
      InsertSorted(x, s[1..]);
      InsertPermutes(x, s[1..]);
      forall k | 0 <= k < |rest| ensures s[0] <= rest[k] {
        assert rest[k] in multiset(s[1..]) + multiset{x} by { assert rest[k] in multiset(rest); }
        if rest[k] != x {
          assert rest[k] in s[1..];
        }
      }
    }
  }

  /** The column in ascending order (`OrderBy(x => x)`): a sorted permutation of it. */
  function SortedData(xs: seq<real>): (r: seq<real>)
    ensures Ascending(r) && multiset(r) == multiset(xs) && |r| == |xs|
  {
    if |xs| == 0 then []
    else
      var init, last := xs[..|xs| - 1], xs[|xs| - 1];
      assert xs == init + [last];
      InsertSorted(last, SortedData(init));
      InsertPermutes(last, SortedData(init));
      Insert(last, SortedData(init))
  }

  // ---------------------------------------------------------------------------------------
  // Statistics of one column of a table

  /** Column `j` of a jagged table (`Data.Select(x => x[j])`): every row must reach it. */
  function Column(data: seq<seq<real>>, j: nat): (r: Result<seq<real>>)
    ensures r.Success? <==> forall i :: 0 <= i < |data| ==> j < |data[i]|
    ensures r.Failure? ==> r.error == IndexOutOfRange
    ensures r.Success? ==> |r.value| == |data| && forall i :: 0 <= i < |data| ==> r.value[i] == data[i][j]
  {
    if forall i :: 0 <= i < |data| ==> j < |data[i]| then
      Success(seq(|data|, i requires 0 <= i < |data| => data[i][j]))
    else
      Failure(IndexOutOfRange)
  }

  /** The mean of two entries of a sorted column, or the index failure of reading either. */
  function Midpoint(sorted: seq<real>, left: int, right: int): (r: Result<Num>)
    ensures r.Success? <==> 0 <= left < |sorted| && 0 <= right < |sorted|
    ensures r.Failure? ==> r.error == IndexOutOfRange
    ensures r.Success? ==> r.value == Finite((sorted[left] + sorted[right]) / 2.0)
  {
    if 0 <= left < |sorted| && 0 <= right < |sorted| then Success(Finite((sorted[left] + sorted[right]) / 2.0))
    else Failure(IndexOutOfRange)
  }

  function CountOf(data: seq<seq<real>>, j: nat): Result<Num>
  {
    Success(Finite(|data| as real))
  }

  function MinOf(data: seq<seq<real>>, j: nat): Result<Num>
  {
    if |data| == 0 then Failure(InvalidOperation)
    else match Column(data, j)
      case Failure(e) => Failure(e)
      case Success(col) => Success(Finite(Minimum(col)))
  }

  function MaxOf(data: seq<seq<real>>, j: nat): Result<Num>
  {
    if |data| == 0 then Failure(InvalidOperation)
    else match Column(data, j)
      case Failure(e) => Failure(e)
      case Success(col) => Success(Finite(Maximum(col)))
  }

  function MeanOf(data: seq<seq<real>>, j: nat): Result<Num>
  {
    match Column(data, j)
    case Failure(e) => Failure(e)
    case Success(col) => if |col| == 0 then Success(NaN) else Success(Finite(Total(col) / (|col| as real)))
  }

  /** The sample standard deviation, with the square root as a parameter. With no rows the
      source divides an empty sum by -1 and takes the root of zero; with one row it divides zero
      by zero. */
  function StdOf(data: seq<seq<real>>, j: nat, sqrt: real -> real): Result<Num>
  {
    match Column(data, j)
    case Failure(e) => Failure(e)
    case Success(col) =>
      if |col| == 0 then Success(Finite(sqrt(0.0)))
      else if |col| == 1 then Success(NaN)
      else
        var mean := Total(col) / (|col| as real);
        Success(Finite(sqrt(SquaredDeviation(col, mean) / ((|col| - 1) as real))))
  }

  function MedianOf(data: seq<seq<real>>, j: nat): Result<Num>
  {
    match Column(data, j)
    case Failure(e) => Failure(e)
    case Success(col) => Midpoint(SortedData(col), MedianLeft(|data|), MedianRight(|data|))
  }

  function Quartile1Of(data: seq<seq<real>>, j: nat): Result<Num>
  {
    match Column(data, j)
    case Failure(e) => Failure(e)
    case Success(col) => Midpoint(SortedData(col), Quartile1Left(|data|), Quartile1Right(|data|))
  }

  function Quartile3Of(data: seq<seq<real>>, j: nat): Result<Num>
  {
    match Column(data, j)
    case Failure(e) => Failure(e)
    case Success(col) => Midpoint(SortedData(col), Quartile3Left(|data|), Quartile3Right(|data|))
  }

  /** The names `Describe` knows, in its default order. */
  const StatisticNames: seq<string> := ["count", "mean", "std", "min", "25%", "50%", "75%", "max"]

  /** The `RowCalculators` dispatch: the statistic of that name for column `j`, or the failure of
      looking up a name it does not hold. */
  function Statistic(name: string, data: seq<seq<real>>, j: nat, sqrt: real -> real): Result<Num>
  {
    if name == "count" then CountOf(data, j)
    else if name == "mean" then MeanOf(data, j)
    else if name == "std" then StdOf(data, j, sqrt)
    else if name == "min" then MinOf(data, j)
    else if name == "25%" then Quartile1Of(data, j)
    else if name == "50%" then MedianOf(data, j)
    else if name == "75%" then Quartile3Of(data, j)
    else if name == "max" then MaxOf(data, j)
    else Failure(KeyNotFound(name))
  }

  /** A name the dispatch does not hold fails with that name, whatever the column. */
  lemma UnknownStatistic(name: string, data: seq<seq<real>>, j: nat, sqrt: real -> real)
    requires name !in StatisticNames
    ensures Statistic(name, data, j, sqrt) == Failure(KeyNotFound(name))
  {
    assert name != StatisticNames[0] && name != StatisticNames[1] && name != StatisticNames[2] && name != StatisticNames[3];
    assert name != StatisticNames[4] && name != StatisticNames[5] && name != StatisticNames[6] && name != StatisticNames[7];
  }

  // ---------------------------------------------------------------------------------------
  // What the statistics promise

  /** The count is the number of rows whatever the column, and never fails. */
  lemma CountSameForEveryColumn(data: seq<seq<real>>, j: nat, k: nat)
    ensures CountOf(data, j) == CountOf(data, k) == Success(Finite(|data| as real))
  {
  }

  /** Over a readable non-empty column, the minimum and maximum are values of the column that
      bound all of it; over no rows they fail. */
  lemma Extremes(data: seq<seq<real>>, j: nat)
    ensures |data| == 0 ==> MinOf(data, j) == Failure(InvalidOperation) && MaxOf(data, j) == Failure(InvalidOperation)
    ensures |data| > 0 && Column(data, j).Success? ==>
      var col := Column(data, j).value;
      MinOf(data, j).Success? && MinOf(data, j).value.Finite? && MaxOf(data, j).Success? && MaxOf(data, j).value.Finite? &&
      MinOf(data, j).value.value in col && MaxOf(data, j).value.value in col &&
      forall i :: 0 <= i < |data| ==> MinOf(data, j).value.value <= data[i][j] <= MaxOf(data, j).value.value
  {
    if |data| > 0 && Column(data, j).Success? {
      var col := Column(data, j).value;
      forall i | 0 <= i < |data| ensures Minimum(col) <= data[i][j] <= Maximum(col) {
        assert col[i] in col;
      }
    }
  }

  /** The mean of a readable column with rows is its total over its count; with no rows it is
      undefined. */
  lemma MeanIsTotalOverCount(data: seq<seq<real>>, j: nat)
    ensures Column(data, j).Success? && |data| > 0 ==>
      MeanOf(data, j) == Success(Finite(Total(Column(data, j).value) / (|data| as real)))
    ensures |data| == 0 ==> MeanOf(data, j) == Success(NaN)
  {
  }

  /** With at least two rows the deviation is the root of a non-negative sample variance. */
  lemma StdOfSample(data: seq<seq<real>>, j: nat, sqrt: real -> real)
    requires Column(data, j).Success? && |data| >= 2
    ensures var col := Column(data, j).value;
      var v := SquaredDeviation(col, Total(col) / (|col| as real)) / ((|col| - 1) as real);
      v >= 0.0 && StdOf(data, j, sqrt) == Success(Finite(sqrt(v)))
  {
    var col := Column(data, j).value;
    var n := |col| as real;
    SquaredDeviationNonNegative(col, Total(col) / n);
    assert n - 1.0 > 0.0;
  }

  /** The median of a readable column with rows is defined; when the count is odd it is the
      middle value of the sorted column, which has as many values at or below it as at or
      above it. */
  lemma MedianDefined(data: seq<seq<real>>, j: nat)
    requires Column(data, j).Success? && |data| >= 1
    ensures MedianOf(data, j).Success?
    ensures |data| % 2 == 1 ==> MedianOf(data, j).value == Finite(SortedData(Column(data, j).value)[|data| / 2])
  {
    MedianIndices(|data|);
  }

  /** Over a readable column the first quartile fails on fewer than two rows, and the third on
      fewer than three rows or on four; both are defined on the other counts. */
  lemma QuartilesDefined(data: seq<seq<real>>, j: nat)
    requires Column(data, j).Success?
    ensures Quartile1Of(data, j).Success? <==> |data| >= 2
    ensures Quartile3Of(data, j).Success? <==> |data| == 3 || |data| >= 5
  {
    Quartile1Indices(|data|);
    Quartile3Indices(|data|);
  }
}
