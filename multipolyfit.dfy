/** The bookkeeping of multipolyfit: the design matrix grown column block by
    column block, the degrees-of-freedom count, the degree check, the sigma
    sentinel and the chi-square statistics built on the solver's residual. */
module PolyFit {
  import opened Design

  /** Why multipolyfit stops without statistics: a one-row file loads as a
      flat array, so len(data[0]) fails; the degree is not 1 or 2; or the
      solver reported no residual sum, so R_sq cannot be formed. */
  datatype FitError = NotATable | InvalidDegree | ResidualMissing

  datatype Result<T> = Success(value: T) | Failure(error: FitError)

  /** A value of numpy floating-point arithmetic: a real number, or the inf
      or nan that numpy yields when it divides by zero. */
  datatype Num = Finite(v: real) | NonFinite

  /** The least-squares problem handed to the solver: the design matrix and
      the degrees of freedom counted beside it. */
  datatype Problem = Problem(a: seq<seq<real>>, degF: int)

  /** The residual sum of squares as np.linalg.lstsq reports it: a value, or
      an empty array when the design matrix has no more rows than columns or
      is rank-deficient. */
  datatype Residual = Reported(sum: real) | Empty

  /** What the fit reports apart from the solver's coefficients. */
  datatype Report = Report(a: seq<seq<real>>, degF: int, sigma: Num, chiSq: Num, chiSqRed: Num)

  // ---------------------------------------------------------------------
  // Column operations the builder uses (numpy slicing and stacking)

  /** data[:, c] */
  function Column(data: Table, c: nat): seq<real>
    requires forall r :: 0 <= r < |data| ==> c < |data[r]|
  {
    seq(|data|, r requires 0 <= r < |data| && c < |data[r]| => data[r][c])
  }

  /** np.ones(n) */
  function Ones(n: nat): seq<real>
  {
    seq(n, _ => 1.0)
  }

  /** col ** 2, elementwise */
  function Squares(col: seq<real>): seq<real>
  {
    seq(|col|, r requires 0 <= r < |col| => Product(col[r], col[r]))
  }

  /** a * b, elementwise */
  function Times(a: seq<real>, b: seq<real>): seq<real>
    requires |a| == |b|
  {
    seq(|a|, r requires 0 <= r < |a| => Product(a[r], b[r]))
  }

  /** n rows with no columns yet. */
  function NoColumns(n: nat): seq<seq<real>>
  {
    seq(n, _ => [])
  }

  /** np.hstack of a matrix and some columns of its height: each row gets
      the values of the new columns appended in order. The initial
      np.vstack(...).T is the same as stacking onto NoColumns. */
  function HStack(a: seq<seq<real>>, cols: seq<seq<real>>): (b: seq<seq<real>>)
    requires forall t :: 0 <= t < |cols| ==> |cols[t]| == |a|
    ensures |b| == |a|
    ensures forall r :: 0 <= r < |a| ==>
              |b[r]| == |a[r]| + |cols| && b[r][..|a[r]|] == a[r] &&
              forall t :: 0 <= t < |cols| ==> b[r][|a[r]| + t] == cols[t][r]
  {
    seq(|a|, r requires 0 <= r < |a| => a[r] + seq(|cols|, t requires 0 <= t < |cols| => cols[t][r]))
  }

  /** A row that HStack extended is the old row followed by the new values. */
  lemma AppendedRow(b: seq<real>, a: seq<real>, tail: seq<real>)
    requires |b| == |a| + |tail| && b[..|a|] == a
    requires forall t :: 0 <= t < |tail| ==> b[|a| + t] == tail[t]
    ensures b == a + tail
  {
    assert b == b[..|a|] + b[|a|..];
    assert b[|a|..] == tail;
  }

  /** Stacking one column onto a matrix appends that column's value to each row. */
  lemma HStackOne(a: seq<seq<real>>, c: seq<real>, r: nat)
    requires |c| == |a| && r < |a|
    ensures HStack(a, [c])[r] == a[r] + [c[r]]
  {
    AppendedRow(HStack(a, [c])[r], a[r], [c[r]]);
  }

  /** One pass of the degree-2 loop extends a row by x_i^2, x_i. */
  lemma QuadraticStep(b: seq<real>, prev: seq<real>, x: seq<real>, i: nat)
    requires 1 <= i < |x|
    requires prev == QuadraticPrefix(x, i)
    requires |b| == |prev| + 2 && b[..|prev|] == prev
    requires b[|prev|] == Product(x[i], x[i]) && b[|prev| + 1] == x[i]
    ensures b == QuadraticPrefix(x, i + 1)
  {
    AppendedRow(b, prev, [Product(x[i], x[i]), x[i]]);
  }

  /** A degree-2 row with the product columns of the pairs before (i, j). */
  function CrossPrefix(x: seq<real>, i: nat, j: nat): seq<real>
    requires i < j <= |x|
  {
    QuadraticBase(x) + CrossProducts(x, i) + ProductsWith(x, i, j)
  }

  /** One pass of the inner cross-term loop extends a row by x_i * x_j. */
  lemma CrossStep(b: seq<real>, prev: seq<real>, x: seq<real>, i: nat, j: nat)
    requires i < j < |x|
    requires prev == CrossPrefix(x, i, j)
    requires b == prev + [Product(x[i], x[j])]
    ensures b == CrossPrefix(x, i, j + 1)
  {
  }

  /** The inner loop for i starts with no products of i and ends with all
      of them. */
  lemma CrossRowBounds(x: seq<real>, i: nat)
    requires i + 1 < |x|
    ensures CrossPrefix(x, i, i + 1) == QuadraticBase(x) + CrossProducts(x, i)
    ensures CrossPrefix(x, i, |x|) == QuadraticBase(x) + CrossProducts(x, i + 1)
  {
    assert ProductsWith(x, i, i + 1) == [];
    var q, c, p := QuadraticBase(x), CrossProducts(x, i), ProductsWith(x, i, |x|);
    assert CrossProducts(x, i + 1) == c + p;
    assert q + c + p == q + (c + p);
  }

  // ---------------------------------------------------------------------
  // numpy division

  /** a / b: a real quotient when both are real and b is not zero, inf or
      nan otherwise. */
  function Divide(a: Num, b: Num): (q: Num)
    ensures q.Finite? <==> a.Finite? && b.Finite? && b.v != 0.0
    ensures q.Finite? ==> q.v * b.v == a.v
  {
    if a.Finite? && b.Finite? && b.v != 0.0 then Finite(a.v / b.v) else NonFinite
  }

  // ---------------------------------------------------------------------
  // Degrees of freedom

  /** Degrees of freedom as the code counts them: rows - k - 1 for degree 1,
      rows - 2k - 1 for degree 2, plus one for every cross-term pair. */
  function DegreesOfFreedom(rows: nat, k: nat, deg: int, cross: bool): (f: int)
    requires deg == 1 || deg == 2
    ensures f == ResidualDegreesOfFreedom(rows, k, deg, cross)
                 + (if deg == 2 && cross then 2 * (k * (k - 1) / 2) else 0)
  {
    if deg == 1 then rows - k - 1
    else rows - k * 2 - 1 + (if cross then k * (k - 1) / 2 else 0)
  }

  /** Degrees of freedom of a least-squares fit with one coefficient per
      design column: the code's count with the cross-term pairs subtracted
      instead of added. */
  function ResidualDegreesOfFreedom(rows: nat, k: nat, deg: int, cross: bool): (f: int)
    requires deg == 1 || deg == 2
    ensures f == rows - ColumnCount(k, deg, cross)
  {
    if deg == 1 then rows - k - 1
    else rows - k * 2 - 1 - (if cross then k * (k - 1) / 2 else 0)
  }

  // ---------------------------------------------------------------------
  // Building the design matrix

  /** Degree 1: x0 and the constant column, then x1 .. x_{k-1} one at a time. */
  method LinearColumns(data: Table) returns (a: seq<seq<real>>)
    requires WellFormed(data)
    ensures a == DesignMatrix(data, 1, false)
  {
    var totalCol := |data[0]| - 1;
    var totalRows := |data|;
    a := HStack(NoColumns(totalRows), [Column(data, 0), Ones(totalRows)]);
    forall r | 0 <= r < totalRows
      ensures a[r] == [data[r][0], 1.0] + data[r][1..1]
    {
      AppendedRow(a[r], [], [data[r][0], 1.0]);
    }
    for i := 1 to totalCol
      invariant |a| == totalRows
      invariant forall r :: 0 <= r < totalRows ==> a[r] == [data[r][0], 1.0] + data[r][1..i]
    {
      var prev, c := a, Column(data, i);
      a := HStack(prev, [c]);
      forall r | 0 <= r < totalRows
        ensures a[r] == [data[r][0], 1.0] + data[r][1..i + 1]
      {
        HStackOne(prev, c, r);
        assert data[r][1..i + 1] == data[r][1..i] + [data[r][i]];
      }
    }
    forall r | 0 <= r < totalRows
      ensures a[r] == DesignRow(Predictors(data[r]), 1, false)
    {
      assert Predictors(data[r])[1..] == data[r][1..totalCol];
    }
  }

  /** Degree 2: x0^2, x0 and the constant column, then x_i^2, x_i for
      i = 1 .. k-1. */
  method QuadraticColumns(data: Table) returns (a: seq<seq<real>>)
    requires WellFormed(data)
    ensures a == DesignMatrix(data, 2, false)
  {
    var totalCol := |data[0]| - 1;
    var totalRows := |data|;
    a := HStack(NoColumns(totalRows), [Squares(Column(data, 0)), Column(data, 0), Ones(totalRows)]);
    forall r | 0 <= r < totalRows
      ensures a[r] == QuadraticPrefix(Predictors(data[r]), 1)
    {
      var x := Predictors(data[r]);
      AppendedRow(a[r], [], [Product(x[0], x[0]), x[0], 1.0]);
    }
    for i := 1 to totalCol
      invariant |a| == totalRows
      invariant forall r :: 0 <= r < totalRows ==> a[r] == QuadraticPrefix(Predictors(data[r]), i)
    {
      var prev := a;
      a := HStack(a, [Squares(Column(data, i)), Column(data, i)]);
      forall r | 0 <= r < totalRows
        ensures a[r] == QuadraticPrefix(Predictors(data[r]), i + 1)
      {
        QuadraticStep(a[r], prev[r], Predictors(data[r]), i);
      }
    }
    forall r | 0 <= r < totalRows
      ensures a[r] == DesignMatrix(data, 2, false)[r]
    {
    }
  }

  /** The inner cross-term loop for predictor i: one product column x_i * x_j
      for each j = i+1 .. k-1, in that order, and one count per column. */
  method AppendProductsOf(data: Table, a0: seq<seq<real>>, i: nat, counter0: int)
    returns (a: seq<seq<real>>, counter: int)
    requires WellFormed(data) && i + 1 < |data[0]| - 1
    requires |a0| == |data|
    requires forall r :: 0 <= r < |data| ==>
               a0[r] == QuadraticBase(Predictors(data[r])) + CrossProducts(Predictors(data[r]), i)
    ensures |a| == |data|
    ensures forall r :: 0 <= r < |data| ==>
              a[r] == QuadraticBase(Predictors(data[r])) + CrossProducts(Predictors(data[r]), i + 1)
    ensures counter == counter0 + (|data[0]| - 2 - i)
  {
    var totalCol := |data[0]| - 1;
    var totalRows := |data|;
    a, counter := a0, counter0;
    forall r | 0 <= r < totalRows
      ensures a[r] == CrossPrefix(Predictors(data[r]), i, i + 1)
    {
      CrossRowBounds(Predictors(data[r]), i);
    }
    for j := i + 1 to totalCol
      invariant |a| == totalRows
      invariant counter == counter0 + (j - i - 1)
      invariant forall r :: 0 <= r < totalRows ==> a[r] == CrossPrefix(Predictors(data[r]), i, j)
    {
      counter := counter + 1;
      var prev, col := a, Times(Column(data, i), Column(data, j));
      a := HStack(a, [col]);
      forall r | 0 <= r < totalRows
        ensures a[r] == CrossPrefix(Predictors(data[r]), i, j + 1)
      {
        HStackOne(prev, col, r);
        CrossStep(a[r], prev[r], Predictors(data[r]), i, j);
      }
    }
    forall r | 0 <= r < totalRows
      ensures a[r] == QuadraticBase(Predictors(data[r])) + CrossProducts(Predictors(data[r]), i + 1)
    {
      CrossRowBounds(Predictors(data[r]), i);
    }
  }

  /** Degree 2 with cross terms: one product column per pair i < j, i in the
      outer loop and j in the inner one, counting the pairs as it goes. */
  method AppendCrossTerms(data: Table, base: seq<seq<real>>) returns (a: seq<seq<real>>, counter: int)
    requires WellFormed(data) && base == DesignMatrix(data, 2, false)
    ensures a == DesignMatrix(data, 2, true)
    ensures counter == (|data[0]| - 1) * (|data[0]| - 2) / 2
  {
    var totalCol := |data[0]| - 1;
    var totalRows := |data|;
    a := base;
    counter := 0;
    for i := 0 to totalCol - 1
      invariant |a| == totalRows
      invariant counter == PairsBefore(i, totalCol)
      invariant forall r :: 0 <= r < totalRows ==>
                  a[r] == QuadraticBase(Predictors(data[r])) + CrossProducts(Predictors(data[r]), i)
    {
      a, counter := AppendProductsOf(data, a, i, counter);
    }
    AllPairsCount(totalCol);
    forall r | 0 <= r < totalRows
      ensures a[r] == DesignMatrix(data, 2, true)[r]
    {
    }
  }

  /** The design-matrix construction and degree check of multipolyfit. */
  method BuildDesign(data: Table, deg: int, crossterms: bool) returns (res: Result<Problem>)
    requires WellFormed(data)
    ensures deg != 1 && deg != 2 ==> res == Failure(InvalidDegree)
    ensures deg == 1 || deg == 2 ==>
              res == Success(Problem(DesignMatrix(data, deg, crossterms),
                                     DegreesOfFreedom(|data|, |data[0]| - 1, deg, crossterms)))
  {
    var totalCol := |data[0]| - 1;
    var totalRows := |data|;
    var a: seq<seq<real>>;
    var degF: int;
    if deg == 1 {
      degF := totalRows - totalCol - 1;
      a := LinearColumns(data);
      forall r | 0 <= r < totalRows
        ensures a[r] == DesignMatrix(data, 1, crossterms)[r]
      {
        CrossFlagIgnoredForLinear(Predictors(data[r]));
      }
      assert a == DesignMatrix(data, 1, crossterms);
    } else if deg == 2 {
      degF := totalRows - totalCol * 2 - 1;
      a := QuadraticColumns(data);
      if crossterms {
        var counter;
        a, counter := AppendCrossTerms(data, a);
        degF := degF + counter;
      }
      assert a == DesignMatrix(data, 2, crossterms);
    } else {
      return Failure(InvalidDegree);
    }
    res := Success(Problem(a, degF));
  }

  /** Without cross terms the code's count is rows minus design columns;
      every cross-term column raises it by one where it should lower it. */
  lemma DegreesOfFreedomVersusColumns(data: Table, deg: int, cross: bool)
    requires WellFormed(data) && (deg == 1 || deg == 2)
    ensures var k := |data[0]| - 1;
            var cols := |DesignMatrix(data, deg, cross)[0]|;
            DegreesOfFreedom(|data|, k, deg, cross)
              == |data| - cols + (if deg == 2 && cross then 2 * (k * (k - 1) / 2) else 0)
  {
  }

  /** As written: with two or more predictors, switching the cross terms on
      adds columns and yet raises the degrees of freedom. */
  lemma CrossTermsRaiseDegreesOfFreedom(rows: nat, k: nat)
    requires k >= 2
    ensures ColumnCount(k, 2, true) > ColumnCount(k, 2, false)
    ensures DegreesOfFreedom(rows, k, 2, true) > DegreesOfFreedom(rows, k, 2, false)
  {
    assert k * (k - 1) >= 2;
  }

  /** As written: two predictors and seven rows give six design columns and
      one degree of freedom, but the code counts three, so chi_sq_red comes
      out at a third of its value. */
  lemma DegreesOfFreedomCounterexample(chiSq: real)
    ensures ColumnCount(2, 2, true) == 6
    ensures DegreesOfFreedom(7, 2, 2, true) == 3
    ensures ResidualDegreesOfFreedom(7, 2, 2, true) == 1
    ensures ReducedChiSquare(Finite(chiSq), DegreesOfFreedom(7, 2, 2, true)) == Finite(chiSq / 3.0)
    ensures ReducedChiSquare(Finite(chiSq), ResidualDegreesOfFreedom(7, 2, 2, true)) == Finite(chiSq)
  {
  }

  /** Whenever the solver can report a residual, that is whenever there are
      more rows than design columns, both counts are positive. */
  lemma DegreesOfFreedomPositive(rows: nat, k: nat, deg: int, cross: bool)
    requires deg == 1 || deg == 2
    requires rows > ColumnCount(k, deg, cross)
    ensures ResidualDegreesOfFreedom(rows, k, deg, cross) > 0
    ensures DegreesOfFreedom(rows, k, deg, cross) > 0
  {
  }

  /** Corrected: the residual degrees of freedom are the rows minus the
      design columns for every degree and flag. */
  lemma ResidualDegreesOfFreedomCountsColumns(data: Table, deg: int, cross: bool)
    requires WellFormed(data) && (deg == 1 || deg == 2)
    ensures forall r :: 0 <= r < |data| ==>
              ResidualDegreesOfFreedom(|data|, |data[0]| - 1, deg, cross)
                == |data| - |DesignMatrix(data, deg, cross)[r]|
  {
  }

  // ---------------------------------------------------------------------
  // Sigma and the chi-square statistics

  /** The sigma the statistics divide by: 0 and 1 both stand for "unknown",
      and then sigma is the residual over the degrees of freedom. */
  function EffectiveSigma(sigma: real, residual: real, degF: int): (s: Num)
    ensures sigma != 0.0 && sigma != 1.0 ==> s == Finite(sigma)
    ensures s.Finite? <==> (sigma != 0.0 && sigma != 1.0) || degF != 0
    ensures (sigma == 0.0 || sigma == 1.0) && s.Finite? ==> s.v * degF as real == residual
  {
    if sigma == 0.0 || sigma == 1.0 then Divide(Finite(residual), Finite(degF as real))
    else Finite(sigma)
  }

  /** chi_sq = residual / sigma ** 2, taken as two divisions by sigma (the
      same value over the reals). */
  function ChiSquare(residual: real, sigma: Num): (c: Num)
    ensures c.Finite? <==> sigma.Finite? && sigma.v != 0.0
    ensures c.Finite? ==> Product(Product(c.v, sigma.v), sigma.v) == residual
  {
    Divide(Divide(Finite(residual), sigma), sigma)
  }

  /** chi_sq_red = chi_sq / deg_f */
  function ReducedChiSquare(chiSq: Num, degF: int): (c: Num)
    ensures c.Finite? <==> chiSq.Finite? && degF != 0
    ensures c.Finite? ==> c.v * degF as real == chiSq.v
  {
    Divide(chiSq, Finite(degF as real))
  }

  /** A given sigma other than the two sentinels is used as it is: chi_sq is
      a real that does not depend on the degrees of freedom. */
  lemma KnownSigma(sigma: real, residual: real, degF: int, degF': int)
    requires sigma != 0.0 && sigma != 1.0
    ensures EffectiveSigma(sigma, residual, degF) == Finite(sigma)
    ensures ChiSquare(residual, EffectiveSigma(sigma, residual, degF))
              == ChiSquare(residual, EffectiveSigma(sigma, residual, degF'))
    ensures ChiSquare(residual, EffectiveSigma(sigma, residual, degF)).Finite?
  {
  }

  /** With sigma estimated from the residual, chi_sq collapses to
      deg_f^2 / residual and chi_sq_red to deg_f / residual: the statistics
      no longer measure the fit. */
  lemma EstimatedSigma(sigma: real, residual: real, degF: int)
    requires sigma == 0.0 || sigma == 1.0
    requires residual != 0.0 && degF != 0
    ensures EffectiveSigma(sigma, residual, degF) == Finite(residual / degF as real)
    ensures ChiSquare(residual, EffectiveSigma(sigma, residual, degF))
              == Finite((degF * degF) as real / residual)
    ensures ReducedChiSquare(ChiSquare(residual, EffectiveSigma(sigma, residual, degF)), degF)
              == Finite(degF as real / residual)
  {
  }

  /** A residual of zero with an estimated sigma divides zero by zero. */
  lemma PerfectFitEstimatedSigma(sigma: real, degF: int)
    requires sigma == 0.0 || sigma == 1.0
    ensures ChiSquare(0.0, EffectiveSigma(sigma, 0.0, degF)).NonFinite?
  {
  }

  /** multipolyfit without the solver: the loading check, the sigma
      sentinel, the design matrix, the degree check and the statistics. What
      np.linalg.lstsq reports as the residual sum for the design matrix is a
      parameter; when the matrix has no more rows than columns the solver
      reports none. */
  method MultiPolyFit(data: Table, deg: int, crossterms: bool, sigma: real, residual: Residual)
    returns (res: Result<Report>)
    requires WellFormed(data)
    requires deg == 1 || deg == 2 ==>
               |data| <= ColumnCount(|data[0]| - 1, deg, crossterms) ==> residual.Empty?
    ensures |data| == 1 ==> res == Failure(NotATable)
    ensures |data| > 1 && deg != 1 && deg != 2 ==> res == Failure(InvalidDegree)
    ensures |data| > 1 && (deg == 1 || deg == 2) && residual.Empty? ==> res == Failure(ResidualMissing)
    ensures |data| > 1 && (deg == 1 || deg == 2) && residual.Reported? ==>
              var degF := DegreesOfFreedom(|data|, |data[0]| - 1, deg, crossterms);
              var s := EffectiveSigma(sigma, residual.sum, degF);
              res == Success(Report(DesignMatrix(data, deg, crossterms), degF, s,
                                    ChiSquare(residual.sum, s),
                                    ReducedChiSquare(ChiSquare(residual.sum, s), degF)))
    ensures res.Success? ==> res.value.degF > 0 && res.value.sigma.Finite?
  {
    if |data| == 1 {
      return Failure(NotATable);
    }
    var sig := sigma;
    if sig == 0.0 {
      sig := 1.0;
    }
    var problem := BuildDesign(data, deg, crossterms);
    if problem.Failure? {
      return Failure(problem.error);
    }
    if residual.Empty? {
      return Failure(ResidualMissing);
    }
    var a, degF := problem.value.a, problem.value.degF;
    DegreesOfFreedomPositive(|data|, |data[0]| - 1, deg, crossterms);
    var s := Finite(sig);
    if sig == 1.0 {
      s := Divide(Finite(residual.sum), Finite(degF as real));
    }
    var chiSq := Divide(Divide(Finite(residual.sum), s), s);
    var chiSqRed := Divide(chiSq, Finite(degF as real));
    res := Success(Report(a, degF, s, chiSq, chiSqRed));
  }
}
