# Historical-simulation Value-at-Risk, modelled in Dafny

This project models the VaR engine of `var_calculator`: the `ValueAtRiskService` class with its
two public operations, `getTradeVaR` and `getPortfolioVaR`, and its shared private routine
`calculateVaR`. It also models the `Trade` record that the engine consumes.

The engine is pure. It has no fields and changes nothing in place. Every step builds a new
value with streams and immutable `BigDecimal`s. The model is therefore made of datatypes,
functions and lemmas:

- `Trades.Trade` is the record. Its history is `Option<seq<real>>`, because a null list is
  possible. `BigDecimal` arithmetic here is exact (sums, a product, a subtraction), so it is
  modelled as Dafny `real`.
- `ValueAtRisk.CalculateVaR` does what `calculateVaR` does, in the same order. It checks the
  confidence level, then checks the series. It sorts a copy by numeric value
  (`OrderStatistics.SortAscending`). It reads position `floor((1 - c) * n)`
  (`ValueAtRisk.QuantileIndex`). It negates that value and rounds it to four decimals with
  `HALF_UP` (`DecimalRounding.Round4HalfUp`).
- Each exception becomes `Failure(IllegalArgument(message))`, with the code's exact message.
- The result is specified without sorting. `OrderStatistics.IsOrderStatistic` says that `v` is
  the k-th smallest value: at most k values lie below `v`, and more than k lie at or below it.
  The rounding is specified by its distance to the input and its tie rule. It does not repeat
  the formula used to compute it.
- `ValueAtRisk.GetPortfolioVaR` checks for a null or empty portfolio. It then checks whether any
  trade's length differs from the first trade's, as `anyMatch` does. It builds the daily series
  position by position as a left fold from zero (`ColumnSum`, `Aggregate`) and hands it to
  `CalculateVaR`.
- Series are values in the model, so sorting a copy never touches the caller's list. Likewise,
  in the model nothing can write to a `Trade` after it is built. The Java record is only
  shallowly immutable; see "## Left out".

Where the code departs from its error message's wording or from its own tests, the model follows the code:

- The confidence test on line 44 is `compareTo(ONE) >= 1`. `compareTo` returns only -1, 0 or 1,
  so this holds only for `c > 1`, although the message reads "between 0 and 1". A confidence
  of exactly 1 is therefore accepted, and it selects position 0: the negated minimum. See `ValueAtRisk.ConfidenceRejected` and
  `ValueAtRiskScenarios.ConfidenceOneGivesNegatedMinimum`.
- The code negates the selected value (line 60). For the two valued test scenarios it therefore
  yields `-10.0000` and `13.2200`. The tests expect `10` and `-13.22`. `TradeScenario` and
  `PortfolioScenario` state the values the code computes.

## Model

| member | source | states |
|---|---|---|
| Trades.AccessorsReturnComponents | var-app/src/main/java/org/valueatrisk/Trade.java:6-9 | `id()` and `historicalPnL()` return exactly the constructor arguments; the series is kept element by element, in order. |
| OrderStatistics.SortAscending | var-app/src/main/java/org/valueatrisk/ValueAtRiskService.java:52 | The sorted copy is ascending by numeric value and is a permutation of the series (same multiset, same length). |
| OrderStatistics.SortedCopyIsOrderStatistic | var-app/src/main/java/org/valueatrisk/ValueAtRiskService.java:52-60 | Position k of the sorted copy holds the k-th smallest value of the original series, defined by counting. |
| OrderStatistics.OrderStatisticUnique | var-app/src/main/java/org/valueatrisk/ValueAtRiskService.java:52-60 | The k-th smallest value is unique, so the value the engine selects does not depend on how the sort treats equal values. |
| OrderStatistics.OrderStatisticPermutation | var-app/src/main/java/org/valueatrisk/ValueAtRiskService.java:52 | Two series with the same multiset of values have the same k-th smallest value. |
| OrderStatistics.OrderStatistic | var-app/src/main/java/org/valueatrisk/ValueAtRiskService.java:52-60 | For k < n, a k-th smallest value exists: it is in the series, at most k values lie below it and more than k lie at or below it. |
| OrderStatistics.OrderStatisticMonotone | var-app/src/main/java/org/valueatrisk/ValueAtRiskService.java:52-60 | A later rank never holds a smaller value: for i <= j the i-th smallest value is at most the j-th. |
| OrderStatistics.ZerothIsMinimum | var-app/src/main/java/org/valueatrisk/ValueAtRiskService.java:52-60 | The 0-th smallest value is at most every value of the series. |
| DecimalRounding.Round4HalfUp | var-app/src/main/java/org/valueatrisk/ValueAtRiskService.java:61 | `setScale(4, HALF_UP)`: the result has at most four decimals and lies within 1/20000 of the input; when it is exactly 1/20000 away (a tie), it moves away from zero. |
| DecimalRounding.RoundingSpecIsComplete | var-app/src/main/java/org/valueatrisk/ValueAtRiskService.java:61 | Any value meeting Round4HalfUp's contract equals Round4HalfUp's result, so the contract determines the rounding. |
| DecimalRounding.RoundingKeepsScale4 | var-app/src/main/java/org/valueatrisk/ValueAtRiskService.java:61 | A value that already has at most four decimals comes back unchanged. |
| DecimalRounding.RoundingIsOdd | var-app/src/main/java/org/valueatrisk/ValueAtRiskService.java:61 | Rounding a negated value gives the negated rounding: ties go away from zero on both sides. |
| DecimalRounding.RoundingMonotone | var-app/src/main/java/org/valueatrisk/ValueAtRiskService.java:61 | Rounding preserves the order of any two values. |
| ValueAtRisk.CompareTo | var-app/src/main/java/org/valueatrisk/ValueAtRiskService.java:44 | `compareTo` returns only -1, 0 or 1: negative exactly when a < b, zero exactly when a == b. |
| ValueAtRisk.ConfidenceRejected | var-app/src/main/java/org/valueatrisk/ValueAtRiskService.java:44-46 | The confidence test, written with `compareTo` as in the code, rejects exactly `c <= 0` or `c > 1`; `c = 1` passes. |
| ValueAtRisk.QuantileIndex | var-app/src/main/java/org/valueatrisk/ValueAtRiskService.java:53-57 | For accepted c in (0, 1] and n >= 1, the index is the floor of (1 - c) * n and satisfies 0 <= index < n, so the lookup is never out of bounds. |
| ValueAtRisk.QuantileIndexAntitone | var-app/src/main/java/org/valueatrisk/ValueAtRiskService.java:54-57 | A higher confidence never gives a larger index. |
| ValueAtRisk.CalculateVaR | var-app/src/main/java/org/valueatrisk/ValueAtRiskService.java:43-62 | Fails with the confidence message exactly when c <= 0 or c > 1, whatever the series. Otherwise fails with the empty-series message exactly when the series is null or empty. Otherwise succeeds with a four-decimal value equal to the HALF_UP rounding of minus the k-th smallest value, where k = floor((1 - c) * n). |
| ValueAtRisk.VaRDependsOnlyOnValues | var-app/src/main/java/org/valueatrisk/ValueAtRiskService.java:52 | Two series with the same multiset of values give the same result (success or error). |
| ValueAtRisk.VaRMonotoneInConfidence | var-app/src/main/java/org/valueatrisk/ValueAtRiskService.java:54-61 | For a fixed non-empty series, raising the confidence within (0, 1] never decreases the VaR. |
| ValueAtRisk.GetTradeVaR | var-app/src/main/java/org/valueatrisk/ValueAtRiskService.java:11-17 | Fails with the null-trade message exactly when the trade is null, before and regardless of the confidence check; otherwise it is CalculateVaR on the trade's series. |
| ValueAtRisk.MissingSeriesRejectedAtComputation | var-app/src/test/java/org/valueatrisk/ValueAtRiskServiceTest.java:34-74 | A trade built with a null or empty series is a valid record. Computing its VaR fails with the confidence message for a rejected confidence, and with the empty-series message otherwise. |
| ValueAtRisk.Aggregate | var-app/src/main/java/org/valueatrisk/ValueAtRiskService.java:34-38 | The daily portfolio series has the common length n, and position i holds the sum, starting from zero, of every trade's value at i. |
| ValueAtRisk.ColumnSumAppend | var-app/src/main/java/org/valueatrisk/ValueAtRiskService.java:35-37 | Summing position i over two concatenated groups of trades gives the sum of the two groups' sums. |
| ValueAtRisk.ColumnSumRemoveAt | var-app/src/main/java/org/valueatrisk/ValueAtRiskService.java:35-37 | Taking one trade out of the portfolio takes exactly its value at i out of the sum. |
| ValueAtRisk.ColumnSumPermutation | var-app/src/main/java/org/valueatrisk/ValueAtRiskService.java:35-37 | The sum at position i does not depend on the order of the trades. |
| ValueAtRisk.UniformLengthIsFirstLength | var-app/src/main/java/org/valueatrisk/ValueAtRiskService.java:24-26 | "No trade's length differs from the first trade's" is the same as "all trades have pairwise-equal lengths". |
| ValueAtRisk.GetPortfolioVaR | var-app/src/main/java/org/valueatrisk/ValueAtRiskService.java:19-41 | Fails with the empty-portfolio message exactly when the portfolio is null or empty. A non-empty portfolio fails with the length-mismatch message exactly when two trades' lengths differ. Both checks come before any summing or confidence check. Otherwise the result is CalculateVaR of the aggregated series of the common length. |
| ValueAtRisk.PortfolioOrderIrrelevant | var-app/src/main/java/org/valueatrisk/ValueAtRiskService.java:19-41 | Permuting the trades of a portfolio never changes its result, including which error is raised. |
| ValueAtRisk.SingleTradePortfolio | var-app/src/main/java/org/valueatrisk/ValueAtRiskService.java:19-41 | A one-trade portfolio has exactly the trade's own VaR, error cases included. |
| ValueAtRisk.AggregateOfMerged | var-app/src/main/java/org/valueatrisk/ValueAtRiskService.java:34-38 | The daily series of two merged portfolios is the position-wise sum of their daily series. |
| ValueAtRiskScenarios.ConfidenceOneGivesNegatedMinimum | var-app/src/main/java/org/valueatrisk/ValueAtRiskService.java:44-60 | With c = 1 the computation succeeds, and the result is the rounded negation of the series' minimum: at least every rounded negated value, and equal to one of them. |
| ValueAtRiskScenarios.TradeScenario | var-app/src/test/java/org/valueatrisk/ValueAtRiskServiceTest.java:76-86 | Series [0, 10, 1, 10] at confidence 0.5 gives -10 as coded; the test expects +10. |
| ValueAtRiskScenarios.PortfolioScenario | var-app/src/test/java/org/valueatrisk/ValueAtRiskServiceTest.java:122-137 | Series [0, 10, 1, 10] and [22.3, 56.5, -14.22, 3.99] at confidence 0.95 aggregate to [22.3, 66.5, -13.22, 13.99]. Index floor(0.05 * 4) = 0, and the result is 13.22 as coded; the test expects -13.22. |

## Left out

- ValueAtRisk.GetPortfolioVaR: requires every trade of the portfolio to have a non-null series. A null trade or a null series in a portfolio throws `NullPointerException` in the code, at line 24 (the first trade) or at line 26 (inside `anyMatch`); that crash is not modelled. `anyMatch` stops at the first mismatch, so the code would not always reach a later null series, while the model excludes all of them.
- `TradeFileReaderService` (reading and parsing the trades file) is file I/O and parsing through library calls (`Files.readAllLines`, `String.split`, `new BigDecimal(String)`), so it is not part of this model. Trimming the trade identifier happens in that reader too.
- `BigDecimal` scale (for example `10.0000` against `10`) is not modelled. Values are compared by value, as the tests do with `compareTo`. `HasScale4` only says that at most four decimals are significant.
- `intValue()` on the floored index is taken as exact. The index is below the list size, which fits in an `int`, so no 32-bit wrap-around can occur.
- The tests build some inputs with `new BigDecimal(double)` (0.95, 22.3, ...). Those carry binary floating-point error; the scenarios use the exact decimals instead.
- Aliasing of a trade's series is not modelled. The Java record `Trade` (Trade.java:6-9) keeps a reference to the caller's mutable `List`, so it is only shallowly immutable: a caller could still change the list after building the trade. In the model the series is a value. The engine itself only reads the list.
- Other null inputs are not modelled, because `real`, `seq<real>` and `string` cannot be null. A null confidence level throws `NullPointerException` at line 44. In `getTradeVaR`, a null value inside the series throws only after both checks pass: in `sorted()` (line 52) for two or more values, and at `negate()` (line 60) for a single value. In `getPortfolioVaR`, it throws in `add` (line 37), before the confidence is checked. A null trade id is never read by the engine.
- The commented-out `getPorfolioVaR` (lines 64-86) is dead code.
- The stream sort's stability and algorithm are not modelled. Only its result is: the sorted permutation, and the result does not depend on how equal values are ordered (`OrderStatisticUnique`).
