/** The design matrix of a degree-1 or degree-2 multivariate polynomial fit:
    which feature columns a row of predictors turns into, and in what order. */
module Design {

  /** A parsed data table: one sequence of values per row. The last value of
      a row is the response, the values before it are the predictors. */
  type Table = seq<seq<real>>

  /** Every row is as wide as the first, and that width leaves at least one
      predictor in front of the response. */
  predicate WellFormed(data: Table)
  {
    |data| > 0 && |data[0]| >= 2 &&
    forall r :: 0 <= r < |data| ==> |data[r]| == |data[0]|
  }

  /** The product of two values: a feature x_i^2 is Product(x_i, x_i), a
      cross term x_i * x_j is Product(x_i, x_j). */
  function Product(a: real, b: real): real
  {
    a * b
  }

  /** The predictors of a row: everything but the trailing response. */
  function Predictors(row: seq<real>): seq<real>
    requires |row| > 0
  {
    row[..|row| - 1]
  }

  /** The feature pairs [x_lo^2, x_lo, ..., x_{hi-1}^2, x_{hi-1}]. */
  function SquareLinearPairs(x: seq<real>, lo: nat, hi: nat): seq<real>
    requires lo <= hi <= |x|
    decreases hi
  {
    if hi == lo then [] else SquareLinearPairs(x, lo, hi - 1) + [Product(x[hi - 1], x[hi - 1]), x[hi - 1]]
  }

  /** The products x_i * x_j for j = i+1, ..., hi-1, in that order. */
  function ProductsWith(x: seq<real>, i: nat, hi: nat): seq<real>
    requires i < hi <= |x|
    decreases hi
  {
    if hi == i + 1 then [] else ProductsWith(x, i, hi - 1) + [Product(x[i], x[hi - 1])]
  }

  /** The products x_i * x_j over all pairs i < j with i < n, ordered with i
      outer and j inner, both ascending. */
  function CrossProducts(x: seq<real>, n: nat): seq<real>
    requires n <= |x|
  {
    if n == 0 then [] else CrossProducts(x, n - 1) + ProductsWith(x, n - 1, |x|)
  }

  /** The design row for the predictors x of one data row: one value per
      coefficient, with the constant column at index deg (second for
      degree 1, third for degree 2). */
  function DesignRow(x: seq<real>, deg: int, cross: bool): (row: seq<real>)
    requires |x| > 0 && (deg == 1 || deg == 2)
    ensures |row| == ColumnCount(|x|, deg, cross)
    ensures row[deg] == 1.0
  {
    if deg == 1 then
      [x[0], 1.0] + x[1..]
    else
      SquareLinearPairsLength(x, 1, |x|);
      CrossProductsLength(x, |x| - 1);
      AllPairsCount(|x|);
      QuadraticBase(x) + (if cross then CrossProducts(x, |x| - 1) else [])
  }

  /** The design matrix: one design row per data row, all of the same
      width ColumnCount. */
  function DesignMatrix(data: Table, deg: int, cross: bool): (a: seq<seq<real>>)
    requires WellFormed(data) && (deg == 1 || deg == 2)
    ensures |a| == |data|
    ensures forall r :: 0 <= r < |a| ==> |a[r]| == ColumnCount(|data[0]| - 1, deg, cross)
  {
    seq(|data|, r requires 0 <= r < |data| => DesignRow(Predictors(data[r]), deg, cross))
  }

  /** Number of pairs (i, j) with i < n and i < j < k. */
  function PairsBefore(n: nat, k: nat): nat
    requires n <= k
  {
    if n == 0 then 0 else PairsBefore(n - 1, k) + (k - n)
  }

  /** Position of the pair (i, j) in the lexicographic enumeration of the
      pairs i < j < k. */
  function PairIndex(k: nat, i: nat, j: nat): nat
    requires i < j < k
  {
    PairsBefore(i, k) + (j - i - 1)
  }

  /** Number of columns of the design matrix for k predictors. */
  function ColumnCount(k: nat, deg: int, cross: bool): nat
    requires deg == 1 || deg == 2
  {
    if deg == 1 then k + 1
    else 2 * k + 1 + (if cross then k * (k - 1) / 2 else 0)
  }

  // ---------------------------------------------------------------------
  // Counting pairs

  /** Closed form of the pair count: twice the pairs before n is n(2k-n-1). */
  lemma {:induction false} PairsBeforeClosedForm(n: nat, k: nat)
    requires n <= k
    ensures 2 * PairsBefore(n, k) == n * (2 * k - n - 1)
  {
    if n > 0 {
      PairsBeforeClosedForm(n - 1, k);
      calc {
        2 * PairsBefore(n, k);
        2 * PairsBefore(n - 1, k) + 2 * (k - n);
        (n - 1) * (2 * k - n) + 2 * (k - n);
        n * (2 * k - n - 1);
      }
    }
  }

  /** The outer loop over i < k-1 visits exactly k(k-1)/2 pairs. */
  lemma AllPairsCount(k: nat)
    requires k >= 1
    ensures PairsBefore(k - 1, k) == k * (k - 1) / 2
  {
    PairsBeforeClosedForm(k - 1, k);
  }

  /** More outer iterations never visit fewer pairs. */
  lemma {:induction false} PairsBeforeMonotone(m: nat, n: nat, k: nat)
    requires m <= n <= k
    ensures PairsBefore(m, k) <= PairsBefore(n, k)
  {
    if m < n {
      PairsBeforeMonotone(m, n - 1, k);
    }
  }

  /** The enumeration is strictly increasing in lexicographic order, so no
      two pairs share a position. */
  lemma PairIndexOrdered(k: nat, i: nat, j: nat, i': nat, j': nat)
    requires i < j < k && i' < j' < k
    requires i < i' || (i == i' && j < j')
    ensures PairIndex(k, i, j) < PairIndex(k, i', j')
  {
    if i < i' {
      PairsBeforeMonotone(i + 1, i', k);
    }
  }

  /** Every position below the pair count belongs to some pair. */
  lemma {:induction false} PairIndexCovers(n: nat, k: nat, p: nat)
    requires n <= k && p < PairsBefore(n, k)
    ensures exists i: nat, j: nat :: i < n && i < j < k && PairIndex(k, i, j) == p
  {
    if p < PairsBefore(n - 1, k) {
      PairIndexCovers(n - 1, k, p);
      var i: nat, j: nat :| i < n - 1 && i < j < k && PairIndex(k, i, j) == p;
      assert i < n;
    } else {
      var i: nat, j: nat := n - 1, p - PairsBefore(n - 1, k) + n;
      assert PairIndex(k, i, j) == p;
    }
  }

  // ---------------------------------------------------------------------
  // Layout of the feature blocks

  lemma {:induction false} SquareLinearPairsAt(x: seq<real>, lo: nat, hi: nat, i: nat)
    requires lo <= i < hi <= |x|
    ensures |SquareLinearPairs(x, lo, hi)| == 2 * (hi - lo)
    ensures SquareLinearPairs(x, lo, hi)[2 * (i - lo)] == Product(x[i], x[i])
    ensures SquareLinearPairs(x, lo, hi)[2 * (i - lo) + 1] == x[i]
    decreases hi
  {
    SquareLinearPairsLength(x, lo, hi - 1);
    if i < hi - 1 {
      SquareLinearPairsAt(x, lo, hi - 1, i);
    }
  }

  lemma {:induction false} SquareLinearPairsLength(x: seq<real>, lo: nat, hi: nat)
    requires lo <= hi <= |x|
    ensures |SquareLinearPairs(x, lo, hi)| == 2 * (hi - lo)
    decreases hi
  {
    if hi > lo {
      SquareLinearPairsLength(x, lo, hi - 1);
    }
  }

  lemma {:induction false} ProductsWithAt(x: seq<real>, i: nat, hi: nat, j: nat)
    requires i < j < hi <= |x|
    ensures |ProductsWith(x, i, hi)| == hi - i - 1
    ensures ProductsWith(x, i, hi)[j - i - 1] == Product(x[i], x[j])
    decreases hi
  {
    ProductsWithLength(x, i, hi - 1);
    if j < hi - 1 {
      ProductsWithAt(x, i, hi - 1, j);
    }
  }

  lemma {:induction false} ProductsWithLength(x: seq<real>, i: nat, hi: nat)
    requires i < hi <= |x|
    ensures |ProductsWith(x, i, hi)| == hi - i - 1
    decreases hi
  {
    if hi > i + 1 {
      ProductsWithLength(x, i, hi - 1);
    }
  }

  lemma {:induction false} CrossProductsLength(x: seq<real>, n: nat)
    requires n <= |x|
    ensures |CrossProducts(x, n)| == PairsBefore(n, |x|)
  {
    if n > 0 {
      CrossProductsLength(x, n - 1);
      ProductsWithLength(x, n - 1, |x|);
      assert |CrossProducts(x, n)| == |CrossProducts(x, n - 1)| + |ProductsWith(x, n - 1, |x|)|;
      assert PairsBefore(n, |x|) == PairsBefore(n - 1, |x|) + (|x| - n);
    }
  }

  /** The product of the pair (i, j) sits at that pair's position. */
  lemma {:induction false} CrossProductsAt(x: seq<real>, n: nat, i: nat, j: nat)
    requires n <= |x| && i < n && i < j < |x|
    ensures PairIndex(|x|, i, j) < |CrossProducts(x, n)|
    ensures CrossProducts(x, n)[PairIndex(|x|, i, j)] == Product(x[i], x[j])
  {
    var front, back := CrossProducts(x, n - 1), ProductsWith(x, n - 1, |x|);
    assert CrossProducts(x, n) == front + back;
    var p := PairIndex(|x|, i, j);
    if i < n - 1 {
      CrossProductsAt(x, n - 1, i, j);
      assert (front + back)[p] == front[p];
    } else {
      CrossProductsLength(x, n - 1);
      ProductsWithAt(x, n - 1, |x|, j);
      assert p == |front| + (j - i - 1);
      assert (front + back)[p] == back[j - i - 1];
    }
  }

  // ---------------------------------------------------------------------
  // The design row, column by column

  /** Degree 1: k+1 columns, x0 first, the constant second, then x1 .. x_{k-1}. */
  lemma LinearLayout(x: seq<real>, cross: bool)
    requires |x| > 0
    ensures |DesignRow(x, 1, cross)| == ColumnCount(|x|, 1, cross) == |x| + 1
    ensures DesignRow(x, 1, cross)[0] == x[0]
    ensures DesignRow(x, 1, cross)[1] == 1.0
    ensures forall i :: 1 <= i < |x| ==> DesignRow(x, 1, cross)[i + 1] == x[i]
  {
  }

  /** The degree-2 columns up to predictor i: x0^2, x0, 1, then for each
      1 <= i' < i the pair x_i'^2, x_i'. */
  function QuadraticPrefix(x: seq<real>, i: nat): seq<real>
    requires 1 <= i <= |x|
  {
    [Product(x[0], x[0]), x[0], 1.0] + SquareLinearPairs(x, 1, i)
  }

  /** The columns every degree-2 row starts with. */
  function QuadraticBase(x: seq<real>): seq<real>
    requires |x| > 0
  {
    QuadraticPrefix(x, |x|)
  }

  lemma QuadraticBaseLayout(x: seq<real>)
    requires |x| > 0
    ensures |QuadraticBase(x)| == 2 * |x| + 1
    ensures QuadraticBase(x)[0] == Product(x[0], x[0])
    ensures QuadraticBase(x)[1] == x[0]
    ensures QuadraticBase(x)[2] == 1.0
    ensures forall i :: 1 <= i < |x| ==>
              QuadraticBase(x)[2 * i + 1] == Product(x[i], x[i]) && QuadraticBase(x)[2 * i + 2] == x[i]
  {
    SquareLinearPairsLength(x, 1, |x|);
    forall i | 1 <= i < |x|
      ensures QuadraticBase(x)[2 * i + 1] == Product(x[i], x[i]) && QuadraticBase(x)[2 * i + 2] == x[i]
    {
      SquareLinearPairsAt(x, 1, |x|, i);
    }
  }

  /** Degree 2 without cross terms: 2k+1 columns; columns 0, 1, 2 are x0^2,
      x0, 1; for i >= 1 columns 2i+1 and 2i+2 are x_i^2 and x_i. */
  lemma QuadraticLayout(x: seq<real>)
    requires |x| > 0
    ensures |DesignRow(x, 2, false)| == ColumnCount(|x|, 2, false) == 2 * |x| + 1
    ensures DesignRow(x, 2, false)[0] == Product(x[0], x[0])
    ensures DesignRow(x, 2, false)[1] == x[0]
    ensures DesignRow(x, 2, false)[2] == 1.0
    ensures forall i :: 1 <= i < |x| ==>
              DesignRow(x, 2, false)[2 * i + 1] == Product(x[i], x[i]) &&
              DesignRow(x, 2, false)[2 * i + 2] == x[i]
  {
    assert DesignRow(x, 2, false) == QuadraticBase(x);
    QuadraticBaseLayout(x);
  }

  /** Degree 2 with cross terms: the 2k+1 columns without them come first,
      unchanged, then k(k-1)/2 product columns, the product x_i * x_j of the
      pair i < j at column 2k+1 plus that pair's position. */
  lemma CrossTermLayout(x: seq<real>)
    requires |x| > 0
    ensures |DesignRow(x, 2, true)| == ColumnCount(|x|, 2, true)
            == 2 * |x| + 1 + |x| * (|x| - 1) / 2
    ensures DesignRow(x, 2, true)[..2 * |x| + 1] == DesignRow(x, 2, false)
    ensures forall i, j :: 0 <= i < j < |x| ==>
              PairIndex(|x|, i, j) < |x| * (|x| - 1) / 2 &&
              DesignRow(x, 2, true)[2 * |x| + 1 + PairIndex(|x|, i, j)] == Product(x[i], x[j])
  {
    var k, m := |x|, |x| * (|x| - 1) / 2;
    var base, tail := QuadraticBase(x), CrossProducts(x, k - 1);
    assert DesignRow(x, 2, true) == base + tail;
    assert DesignRow(x, 2, false) == base;
    QuadraticBaseLayout(x);
    CrossProductsLength(x, k - 1);
    AllPairsCount(k);
    assert |tail| == m;
    forall i, j | 0 <= i < j < k
      ensures PairIndex(k, i, j) < m
      ensures (base + tail)[2 * k + 1 + PairIndex(k, i, j)] == Product(x[i], x[j])
    {
      CrossProductsAt(x, k - 1, i, j);
    }
  }

  /** The cross-term flag changes nothing under degree 1. */
  lemma CrossFlagIgnoredForLinear(x: seq<real>)
    requires |x| > 0
    ensures DesignRow(x, 1, true) == DesignRow(x, 1, false)
  {
  }

  /** Row r of the design matrix depends on data row r alone, and on its
      predictors only: the response never enters a feature. */
  lemma DesignRowsAreLocal(data: Table, data': Table, deg: int, cross: bool, r: nat)
    requires WellFormed(data) && WellFormed(data') && (deg == 1 || deg == 2)
    requires r < |data| && r < |data'|
    requires Predictors(data[r]) == Predictors(data'[r])
    ensures |DesignMatrix(data, deg, cross)| == |data|
    ensures DesignMatrix(data, deg, cross)[r] == DesignMatrix(data', deg, cross)[r]
  {
  }
}
