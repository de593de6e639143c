# multipolyfit in Dafny

A model of `multipolyfit`, a routine that fits a degree-1 or degree-2
polynomial in several variables by least squares. The model covers the part of
the routine that is not numerics:

- the design matrix `A`, grown by stacking columns one block at a time;
- the degree check;
- the degrees of freedom `deg_f` and the pair `counter`;
- the `sigma` sentinel;
- `chi_sq` and `chi_sq_red`, built on the residual the solver reports.

The data table is `seq<seq<real>>`. Its last column is the response and the
`k >= 1` columns before it are the predictors. Every row has the same width
(`Design.WellFormed`).

- `design.dfy`, module `Design`: what one design row is, as functions
  (`DesignRow`, `DesignMatrix`), and lemmas that give every column of a row by
  its index. It also holds the enumeration of cross-term pairs (`PairsBefore`,
  `PairIndex`) and its count.
- `multipolyfit.dfy`, module `PolyFit`: the builder as methods with loops
  that mirror the `for` loops and `np.hstack` calls. `LinearColumns`,
  `QuadraticColumns` and `AppendCrossTerms` are proved to produce
  `DesignMatrix`. The inner cross-term loop, `AppendProductsOf`, is proved to
  produce the base columns followed by the products of the pairs seen so far.
  The module also holds the degrees-of-freedom functions and lemmas, the
  sigma selection, the statistics, and `MultiPolyFit`, which runs the steps
  in the code's order.

The column order follows the code, which differs from a plain reading of "the
columns, then a constant":

- degree 1 gives `[x0, 1, x1, ..., x_{k-1}]`, with the constant column second;
- degree 2 gives `[x0^2, x0, 1, x1^2, x1, ...]`, with the constant third;
- the cross-term products come after those, in lexicographic pair order.

The code stops without statistics in three cases, and the model returns a
`Failure` in each:

- a one-row file, which `np.loadtxt` returns as a flat array, so that
  `len(data[0])` raises a TypeError (`NotATable`);
- a degree other than 1 or 2 (`InvalidDegree`);
- a design matrix with no more rows than columns, or a rank-deficient one.
  `np.linalg.lstsq` then reports an empty residual array. `sigma`, `chi_sq`
  and `chi_sq_red` become empty arrays, and the `R_sq` line fails to
  broadcast (`ResidualMissing`).

So the code never reports statistics built on a zero or negative `deg_f`.
Whenever a residual is reported, `deg_f` is positive
(`PolyFit.DegreesOfFreedomPositive`) and the reported `sigma` is a real
number.

With `sigma` estimated, the code squares the estimate. So `chi_sq` is
`deg_f^2 / residual` and not `deg_f`, and the model states this
(`PolyFit.EstimatedSigma`).

## Model

| member | source | states |
|---|---|---|
| Design.DesignRow | multipolyfit.py:50-76 | one design row has ColumnCount(k, deg, cross) values, and the constant column sits at index deg: second for degree 1, third for degree 2 |
| Design.DesignMatrix | multipolyfit.py:45-76 | A has one row per data row, and every row has ColumnCount(k, deg, cross) columns |
| Design.LinearLayout | multipolyfit.py:54-56 | degree 1: k+1 columns; column 0 is x0, column 1 is the constant 1, column i+1 is x_i for 1 <= i < k |
| Design.QuadraticBaseLayout | multipolyfit.py:63-66 | the degree-2 block: 2k+1 columns; x0^2, x0, 1 first; columns 2i+1 and 2i+2 are x_i^2 and x_i for i >= 1 |
| Design.QuadraticLayout | multipolyfit.py:63-66 | degree 2 without cross terms: 2k+1 columns, laid out as above |
| Design.CrossTermLayout | multipolyfit.py:72-76 | degree 2 with cross terms: the 2k+1 base columns unchanged, then k(k-1)/2 product columns; x_i*x_j sits at column 2k+1+PairIndex(k,i,j) |
| Design.CrossProductsAt | multipolyfit.py:73-76 | after the outer loop has run n times, the product of each pair (i, j) with i < n is at that pair's position |
| Design.PairIndexOrdered | multipolyfit.py:73-74 | the pair positions increase strictly in lexicographic (i outer, j inner) order, so no two pairs share a column |
| Design.PairIndexCovers | multipolyfit.py:73-74 | every position below the pair count belongs to some pair i < j, so the product columns are exactly the pairs |
| Design.PairsBeforeClosedForm | multipolyfit.py:73-75 | the counter after n outer iterations satisfies 2*count = n(2k-n-1) |
| Design.AllPairsCount | multipolyfit.py:72-77 | the nested loops count exactly k(k-1)/2 pairs |
| Design.PairsBeforeMonotone | multipolyfit.py:73-75 | more outer iterations never count fewer pairs |
| Design.CrossFlagIgnoredForLinear | multipolyfit.py:50-56 | under degree 1 the design row is the same whatever the cross-term flag |
| Design.DesignRowsAreLocal | multipolyfit.py:44-82 | row r of A depends only on the predictors of data row r; the response column never enters A |
| PolyFit.HStack | multipolyfit.py:56 | np.hstack keeps every row's old values as a prefix and appends the new columns' values in order |
| PolyFit.LinearColumns | multipolyfit.py:54-56 | the degree-1 loop builds exactly DesignMatrix(data, 1) |
| PolyFit.QuadraticColumns | multipolyfit.py:63-66 | the degree-2 loop builds exactly the degree-2 matrix without cross terms |
| PolyFit.AppendProductsOf | multipolyfit.py:74-76 | the inner loop for i appends x_i*x_j for j = i+1..k-1 and raises counter by k-1-i |
| PolyFit.AppendCrossTerms | multipolyfit.py:72-77 | the nested loops append every cross-term column in order, and counter ends at k(k-1)/2 |
| PolyFit.BuildDesign | multipolyfit.py:44-80 | a degree other than 1 or 2 fails with InvalidDegree and gives no matrix; otherwise A is DesignMatrix and deg_f is the code's count |
| PolyFit.DegreesOfFreedom | multipolyfit.py:52-77 | the code's deg_f is the corrected count plus twice the pair count under degree 2 with cross terms, and equal to it otherwise |
| PolyFit.ResidualDegreesOfFreedom | multipolyfit.py:52-61 | the corrected count is the rows minus ColumnCount(k, deg, cross), the rule lines 52 and 61 follow |
| PolyFit.DegreesOfFreedomPositive | multipolyfit.py:52-82 | with more rows than design columns, the only case in which the solver reports a residual, both counts are positive |
| PolyFit.DegreesOfFreedomVersusColumns | multipolyfit.py:50-77 | deg_f is rows minus the columns of A, except that with cross terms it is higher by twice the pair count |
| PolyFit.CrossTermsRaiseDegreesOfFreedom | multipolyfit.py:77 | with two or more predictors, turning cross terms on adds columns and still raises deg_f |
| PolyFit.DegreesOfFreedomCounterexample | multipolyfit.py:61-88 | two predictors and seven rows give six columns and one degree of freedom, but the code counts deg_f = 3, so chi_sq_red is a third of chi_sq instead of chi_sq itself |
| PolyFit.ResidualDegreesOfFreedomCountsColumns | multipolyfit.py:50-77 | the corrected count equals the rows minus the columns of A, for every degree and flag |
| PolyFit.Divide | multipolyfit.py:85-88 | a quotient is a real exactly when the divisor is a non-zero real, and it times the divisor is the dividend |
| PolyFit.EffectiveSigma | multipolyfit.py:47-48 | a sigma other than 0 and 1 is used as given; 0 and 1 mean "estimate", and the estimate times deg_f is the residual; the result is a real number unless it is estimated with deg_f = 0 |
| PolyFit.ChiSquare | multipolyfit.py:87 | chi_sq is a real number exactly when sigma is a non-zero real, and then chi_sq times sigma squared is the residual |
| PolyFit.ReducedChiSquare | multipolyfit.py:88 | chi_sq_red is a real number exactly when chi_sq is and deg_f is not zero, and then chi_sq_red times deg_f is chi_sq |
| PolyFit.KnownSigma | multipolyfit.py:84-87 | a given sigma other than 0 and 1 is kept as it is; chi_sq is then a real number and does not depend on deg_f |
| PolyFit.EstimatedSigma | multipolyfit.py:84-88 | with sigma 0 or 1, sigma becomes residual/deg_f, chi_sq becomes deg_f^2/residual and chi_sq_red becomes deg_f/residual |
| PolyFit.PerfectFitEstimatedSigma | multipolyfit.py:84-87 | with sigma 0 or 1 and a zero residual, chi_sq is a division of zero by zero (inf or nan) |
| PolyFit.MultiPolyFit | multipolyfit.py:43-89 | the whole sequence in the code's order: a one-row table fails first, then an invalid degree, then a missing residual; otherwise A, deg_f, sigma (0 and 1 both mean "estimate"), chi_sq and chi_sq_red are as the functions above define them, with deg_f positive and sigma a real number |

## Findings

| source | as written | input that shows it | evidently intended | confidence | as-written member | corrected member |
|---|---|---|---|---|---|---|
| multipolyfit.py:77 | `deg_f += counter`: each cross-term column raises the degrees of freedom | degree 2 with cross terms, two predictors, seven rows: A has 6 columns and one degree of freedom is left, yet `deg_f` is 3, so `chi_sq_red` is a third of its value | `deg_f -= counter`, so that deg_f is the rows minus the columns of A (1 here) | high; not executed | PolyFit.DegreesOfFreedomCounterexample | PolyFit.ResidualDegreesOfFreedomCountsColumns |

`PolyFit.DegreesOfFreedom` is the count as written. `BuildDesign` and
`MultiPolyFit` use it, so the statistics are the values the code reports.
`PolyFit.ResidualDegreesOfFreedom` is the corrected count. Without cross terms
the two agree.

## Left out

- File loading (`np.loadtxt` with `skiprows`) is left out. The model takes the parsed table. Inputs that `loadtxt` or `len(data[0])` reject are excluded by `Design.WellFormed`: ragged rows, non-numeric values, a single column. A one-row table is accepted and fails with `NotATable`, as `len(data[0])` at line 44 fails on the flat array `loadtxt` returns for it.
- `np.linalg.lstsq` is a foreign numerical solver. The coefficients are not modelled. What it reports as the residual sum is a parameter of `MultiPolyFit` (`Reported` or `Empty`), not derived from `A`. `MultiPolyFit` requires it to be `Empty` when `A` has no more rows than columns, as the solver's documentation states. The rank of `A` is not modelled, so with more rows than columns either kind of report is accepted.
- `R_sq` and `np.corrcoef` (the `correlate` flag) are floating-point statistics over the data and the solver's residual, so they are left out.
- The `print` of the cross-term note is console output only, so it is left out.
- Floating-point rounding is not modelled. Values are exact reals. `Num` only records that numpy's division by zero gives inf or nan, without telling them apart. So `Divide` of a real by `NonFinite` gives `NonFinite`, where numpy gives 0.0 for a division by inf. No path of `MultiPolyFit` divides by `NonFinite`, because whenever it succeeds sigma and `deg_f` are real numbers.
- `deg` is modelled as an integer and `sigma` as a real. Python would also compare a float `deg` such as `1.0`, or a non-numeric value.
- `chi_sq = residual/sigma**2` is modelled as two divisions by sigma. Over exact reals this is the same value. In floating point the rounding can differ, and rounding is not modelled.
