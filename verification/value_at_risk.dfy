/** The historical-simulation Value-at-Risk engine (`ValueAtRiskService`):
    VaR of one trade, VaR of a portfolio, and the shared quantile computation. */
module ValueAtRisk {
  import opened Wrappers
  import opened Trades
  import opened OrderStatistics
  import opened DecimalRounding

  /** The `IllegalArgumentException` every check throws, with its message. */
  datatype VaRError = IllegalArgument(message: string)

  const TradeNullMessage: string := "Trade cannot be null. Please verify input file"
  const ConfidenceMessage: string := "Confidence level input must be between 0 and 1"
  const EmptySeriesMessage: string := "Empty serie of historical PnL values for trade"
  const PortfolioEmptyMessage: string := "Portfolio PnL series cannot be null or empty"
  const LengthMismatchMessage: string := "All trades must have the same number of historical values"

  /** `BigDecimal.compareTo`: -1, 0 or 1 as `a` is below, equal to or above `b`. */
  function CompareTo(a: real, b: real): (r: int)
    ensures r == -1 || r == 0 || r == 1
    ensures r < 0 <==> a < b
    ensures r == 0 <==> a == b
  {
    if a < b then -1 else if a == b then 0 else 1
  }

  /** The confidence test of `calculateVaR`, written with `compareTo` as the
      service writes it. Its upper half `compareTo(ONE) >= 1` only holds above
      one, so a confidence of exactly 1 passes. */
  function ConfidenceRejected(c: real): (rejected: bool)
    ensures rejected <==> c <= 0.0 || c > 1.0
  {
    CompareTo(c, 0.0) <= 0 || CompareTo(c, 1.0) >= 1
  }

  /** The quantile index `floor((1 - c) * n)`, computed exactly. For an accepted
      confidence and a non-empty series it is a valid position. */
  function QuantileIndex(c: real, n: nat): (index: nat)
    requires 0.0 < c <= 1.0 && n >= 1
    ensures index < n
    ensures index as real <= (1.0 - c) * (n as real) < index as real + 1.0
  {
    LossShareBounds(1.0 - c, n);
    ((1.0 - c) * (n as real)).Floor
  }

  /** A share in [0, 1) of n >= 1 observations lies in [0, n). */
  lemma LossShareBounds(share: real, n: nat)
    requires 0.0 <= share < 1.0 && n >= 1
    ensures 0.0 <= share * (n as real) < n as real
  {
    assert n as real - share * (n as real) == (1.0 - share) * (n as real);
    assert (1.0 - share) * (n as real) > 0.0;
  }

  /** A higher confidence never selects a later position. */
  lemma QuantileIndexAntitone(c1: real, c2: real, n: nat)
    requires 0.0 < c1 <= c2 <= 1.0 && n >= 1
    ensures QuantileIndex(c2, n) <= QuantileIndex(c1, n)
  {
    var x1, x2 := (1.0 - c1) * (n as real), (1.0 - c2) * (n as real);
    assert x2 <= x1 by {
      assert x1 - x2 == (c2 - c1) * (n as real);
    }
    FloorMonotone(x2, x1);
  }

  /** `calculateVaR`: check the confidence, then the series; sort a copy, read
      the quantile position, negate it and round it to four digits half-up. */
  function CalculateVaR(c: real, histPnL: Option<seq<real>>): (r: Result<real, VaRError>)
    ensures r == Failure(IllegalArgument(ConfidenceMessage)) <==> c <= 0.0 || c > 1.0
    ensures r == Failure(IllegalArgument(EmptySeriesMessage))
        <==> 0.0 < c <= 1.0 && (histPnL.None? || |histPnL.value| == 0)
    ensures r.Success? <==> 0.0 < c <= 1.0 && histPnL.Some? && |histPnL.value| > 0
    ensures r.Success? ==> HasScale4(r.value)
    ensures r.Success? ==>
      r.value == Round4HalfUp(-OrderStatistic(histPnL.value, QuantileIndex(c, |histPnL.value|)))
  {
    if ConfidenceRejected(c) then
      Failure(IllegalArgument(ConfidenceMessage))
    else if histPnL.None? || |histPnL.value| == 0 then
      Failure(IllegalArgument(EmptySeriesMessage))
    else
      var sorted := SortAscending(histPnL.value);
      var index := QuantileIndex(c, |sorted|);
      SortedCopyIsOrderStatistic(histPnL.value, index);
      OrderStatisticUnique(histPnL.value, index, sorted[index], OrderStatistic(histPnL.value, index));
      Success(Round4HalfUp(-sorted[index]))
  }

  /** The successful VaR of a non-empty series at an accepted confidence. */
  lemma CalculateVaRSucceeds(c: real, s: seq<real>)
    requires 0.0 < c <= 1.0 && |s| > 0
    ensures CalculateVaR(c, Some(s)) == Success(Round4HalfUp(-OrderStatistic(s, QuantileIndex(c, |s|))))
  {
  }

  /** The error a null-free series gets at a rejected confidence or when empty. */
  lemma CalculateVaRFails(c: real, s: seq<real>)
    requires !(0.0 < c <= 1.0) || |s| == 0
    ensures CalculateVaR(c, Some(s)) ==
      if c <= 0.0 || c > 1.0 then Failure(IllegalArgument(ConfidenceMessage))
      else Failure(IllegalArgument(EmptySeriesMessage))
  {
  }

  lemma PermutationSameLength(s: seq<real>, t: seq<real>)
    requires multiset(s) == multiset(t)
    ensures |s| == |t|
  {
    assert |s| == |multiset(s)| == |multiset(t)| == |t|;
  }

  /** Series with the same values select the same k-th smallest value. */
  lemma SameValuesSameSelection(c: real, s: seq<real>, t: seq<real>)
    requires multiset(s) == multiset(t)
    requires 0.0 < c <= 1.0 && |s| > 0 && |t| == |s|
    ensures OrderStatistic(s, QuantileIndex(c, |s|)) == OrderStatistic(t, QuantileIndex(c, |t|))
  {
    var k := QuantileIndex(c, |s|);
    OrderStatisticPermutation(s, t, k, OrderStatistic(s, k));
    OrderStatisticUnique(t, k, OrderStatistic(s, k), OrderStatistic(t, k));
  }

  /** Two series of one length that select the same value have the same VaR. */
  lemma SameSelectionSameVaR(c: real, s: seq<real>, t: seq<real>)
    requires 0.0 < c <= 1.0 && |s| > 0 && |t| == |s|
    requires OrderStatistic(s, QuantileIndex(c, |s|)) == OrderStatistic(t, QuantileIndex(c, |t|))
    ensures CalculateVaR(c, Some(s)) == CalculateVaR(c, Some(t))
  {
    CalculateVaRSucceeds(c, s);
    CalculateVaRSucceeds(c, t);
  }

  /** The VaR depends only on which values the series holds, not on their order. */
  lemma VaRDependsOnlyOnValues(c: real, s: seq<real>, t: seq<real>)
    requires multiset(s) == multiset(t)
    ensures CalculateVaR(c, Some(s)) == CalculateVaR(c, Some(t))
  {
    PermutationSameLength(s, t);
    if 0.0 < c <= 1.0 && |s| > 0 {
      SameValuesSameSelection(c, s, t);
      SameSelectionSameVaR(c, s, t);
    } else {
      CalculateVaRFails(c, s);
      CalculateVaRFails(c, t);
    }
  }

  /** For a fixed series, raising the confidence never lowers the VaR. */
  lemma VaRMonotoneInConfidence(c1: real, c2: real, s: seq<real>)
    requires 0.0 < c1 <= c2 <= 1.0 && |s| > 0
    ensures CalculateVaR(c1, Some(s)).Success? && CalculateVaR(c2, Some(s)).Success?
    ensures CalculateVaR(c1, Some(s)).value <= CalculateVaR(c2, Some(s)).value
  {
    var n := |s|;
    var i1, i2 := QuantileIndex(c1, n), QuantileIndex(c2, n);
    QuantileIndexAntitone(c1, c2, n);
    OrderStatisticMonotone(s, i2, i1);
    RoundingMonotone(-OrderStatistic(s, i1), -OrderStatistic(s, i2));
    CalculateVaRSucceeds(c1, s);
    CalculateVaRSucceeds(c2, s);
  }

  /** `getTradeVaR`: a null trade is refused first, whatever the confidence;
      otherwise the trade's own series goes to CalculateVaR. */
  function GetTradeVaR(c: real, trade: Option<Trade>): (r: Result<real, VaRError>)
    ensures r == Failure(IllegalArgument(TradeNullMessage)) <==> trade.None?
    ensures trade.Some? ==> r == CalculateVaR(c, trade.value.historicalPnL)
  {
    if trade.None? then
      Failure(IllegalArgument(TradeNullMessage))
    else
      CalculateVaR(c, trade.value.historicalPnL)
  }

  /** A trade built with an empty or a null series is accepted as a record and
      only refused here, after the confidence check. */
  lemma MissingSeriesRejectedAtComputation(c: real, id: string, pnl: Option<seq<real>>)
    requires pnl.None? || pnl == Some([])
    ensures GetTradeVaR(c, Some(Trade(id, pnl))) ==
      if c <= 0.0 || c > 1.0 then Failure(IllegalArgument(ConfidenceMessage))
      else Failure(IllegalArgument(EmptySeriesMessage))
  {
  }

  /** Every trade of the portfolio has a (non-null) series. */
  predicate HistoriesPresent(p: seq<Trade>) {
    forall t :: t in p ==> t.historicalPnL.Some?
  }

  /** Every trade of the portfolio has a series of exactly `n` values. */
  predicate AllOfLength(p: seq<Trade>, n: nat) {
    forall t :: t in p ==> t.historicalPnL.Some? && |t.historicalPnL.value| == n
  }

  /** Any two trades of the portfolio have series of the same length. */
  ghost predicate UniformLength(p: seq<Trade>)
    requires HistoriesPresent(p)
  {
    forall i, j :: 0 <= i < |p| && 0 <= j < |p| ==>
      |p[i].historicalPnL.value| == |p[j].historicalPnL.value|
  }

  /** `reduce(ZERO, add)` over the trades' values at position `i`, trade by
      trade from the first: ((0 + p[0][i]) + p[1][i]) + ... */
  function ColumnSum(p: seq<Trade>, i: nat): real
    requires forall t :: t in p ==> t.historicalPnL.Some? && i < |t.historicalPnL.value|
  {
    if p == [] then 0.0
    else ColumnSum(p[..|p| - 1], i) + p[|p| - 1].historicalPnL.value[i]
  }

  /** The daily portfolio series: position `i` holds the sum over all trades. */
  function Aggregate(p: seq<Trade>, n: nat): (agg: seq<real>)
    requires AllOfLength(p, n)
    ensures |agg| == n
    ensures forall i :: 0 <= i < n ==> agg[i] == ColumnSum(p, i)
  {
    seq(n, i requires 0 <= i < n => ColumnSum(p, i))
  }

  /** Summing over two groups of trades is summing each group and adding. */
  lemma {:induction false} ColumnSumAppend(p: seq<Trade>, q: seq<Trade>, i: nat)
    requires forall t :: t in p + q ==> t.historicalPnL.Some? && i < |t.historicalPnL.value|
    ensures ColumnSum(p + q, i) == ColumnSum(p, i) + ColumnSum(q, i)
  {
    if q == [] {
      assert p + q == p;
    } else {
      assert (p + q)[..|p + q| - 1] == p + q[..|q| - 1];
      ColumnSumAppend(p, q[..|q| - 1], i);
    }
  }

  /** Taking one trade out of the portfolio takes its value out of the sum. */
  lemma ColumnSumRemoveAt(q: seq<Trade>, j: nat, i: nat)
    requires j < |q|
    requires forall t :: t in q ==> t.historicalPnL.Some? && i < |t.historicalPnL.value|
    ensures ColumnSum(q, i) == ColumnSum(q[..j] + q[j+1..], i) + q[j].historicalPnL.value[i]
  {
    var left, right := q[..j], q[j+1..];
    assert q == (left + [q[j]]) + right;
    ColumnSumAppend(left + [q[j]], right, i);
    ColumnSumAppend(left, [q[j]], i);
    ColumnSumAppend(left, right, i);
    assert [q[j]][..0] == [];
  }

  /** The sum at a position does not depend on the order of the trades. */
  lemma {:induction false} ColumnSumPermutation(p: seq<Trade>, q: seq<Trade>, i: nat)
    requires multiset(p) == multiset(q)
    requires forall t :: t in p ==> t.historicalPnL.Some? && i < |t.historicalPnL.value|
    ensures forall t :: t in q ==> t.historicalPnL.Some? && i < |t.historicalPnL.value|
    ensures ColumnSum(p, i) == ColumnSum(q, i)
  {
    assert forall t :: t in q ==> t in multiset(p);
    if p != [] {
      var last := p[|p| - 1];
      var front := p[..|p| - 1];
      assert p == front + [last];
      assert multiset(front) == multiset(p) - multiset{last};
      assert last in multiset(q);
      var j :| 0 <= j < |q| && q[j] == last;
      RemoveAtMultiset(q, j);
      ColumnSumPermutation(front, q[..j] + q[j+1..], i);
      ColumnSumRemoveAt(q, j, i);
    } else {
      assert q == [];
    }
  }

  /** Pairwise-equal lengths are the same as every length equal to the first. */
  lemma UniformLengthIsFirstLength(p: seq<Trade>)
    requires HistoriesPresent(p) && |p| > 0
    ensures UniformLength(p) <==> AllOfLength(p, |p[0].historicalPnL.value|)
  {
    if UniformLength(p) {
      forall t | t in p
        ensures |t.historicalPnL.value| == |p[0].historicalPnL.value|
      {
        var j :| 0 <= j < |p| && p[j] == t;
      }
    }
  }

  /** `getPortfolioVaR`: refuse a null or empty portfolio, then a portfolio
      whose series lengths differ from the first trade's, both before the
      confidence is looked at; otherwise aggregate and delegate. */
  function GetPortfolioVaR(c: real, portfolio: Option<seq<Trade>>): (r: Result<real, VaRError>)
    requires portfolio.Some? ==> HistoriesPresent(portfolio.value)
    ensures r == Failure(IllegalArgument(PortfolioEmptyMessage))
        <==> portfolio.None? || |portfolio.value| == 0
    ensures portfolio.Some? && |portfolio.value| > 0 ==>
      (r == Failure(IllegalArgument(LengthMismatchMessage)) <==> !UniformLength(portfolio.value))
    ensures portfolio.Some? && |portfolio.value| > 0 && UniformLength(portfolio.value) ==>
      var n := |portfolio.value[0].historicalPnL.value|;
      AllOfLength(portfolio.value, n) && r == CalculateVaR(c, Some(Aggregate(portfolio.value, n)))
  {
    if portfolio.None? || |portfolio.value| == 0 then
      Failure(IllegalArgument(PortfolioEmptyMessage))
    else
      var p := portfolio.value;
      var numTradeVal := |p[0].historicalPnL.value|;
      var inconsistentData := exists t :: t in p && |t.historicalPnL.value| != numTradeVal;
      if inconsistentData then
        assert !UniformLength(p) by {
          var t :| t in p && |t.historicalPnL.value| != numTradeVal;
          var j :| 0 <= j < |p| && p[j] == t;
        }
        Failure(IllegalArgument(LengthMismatchMessage))
      else
        CalculateVaR(c, Some(Aggregate(p, numTradeVal)))
  }

  /** Reordering the trades of a portfolio does not change its VaR. */
  lemma PortfolioOrderIrrelevant(c: real, p: seq<Trade>, q: seq<Trade>)
    requires HistoriesPresent(p) && multiset(p) == multiset(q)
    ensures HistoriesPresent(q)
    ensures GetPortfolioVaR(c, Some(p)) == GetPortfolioVaR(c, Some(q))
  {
    assert forall t :: t in q <==> t in p by {
      assert forall t :: t in q <==> t in multiset(q);
      assert forall t :: t in p <==> t in multiset(p);
    }
    assert |p| == |multiset(p)| == |q|;
    if |p| > 0 && UniformLength(p) {
      var n := |p[0].historicalPnL.value|;
      UniformLengthIsFirstLength(p);
      assert q[0] in p;
      assert AllOfLength(q, n);
      UniformLengthIsFirstLength(q);
      var ap, aq := Aggregate(p, n), Aggregate(q, n);
      forall i | 0 <= i < n
        ensures ap[i] == aq[i]
      {
        ColumnSumPermutation(p, q, i);
      }
      assert ap == aq;
    } else if |p| > 0 {
      UniformLengthIsFirstLength(p);
      UniformLengthIsFirstLength(q);
      assert p[0] in q && q[0] in p;
    }
  }

  /** A one-trade portfolio has the trade's own VaR. */
  lemma SingleTradePortfolio(c: real, t: Trade)
    requires t.historicalPnL.Some?
    ensures GetPortfolioVaR(c, Some([t])) == GetTradeVaR(c, Some(t))
  {
    var s := t.historicalPnL.value;
    var agg := Aggregate([t], |s|);
    forall i | 0 <= i < |s|
      ensures agg[i] == s[i]
    {
      assert [t][..0] == [];
      assert agg[i] == ColumnSum([t], i) == ColumnSum([], i) + s[i];
    }
    assert agg == s;
  }

  /** Merging two portfolios adds their daily series position by position. */
  lemma AggregateOfMerged(p: seq<Trade>, q: seq<Trade>, n: nat)
    requires AllOfLength(p, n) && AllOfLength(q, n)
    ensures AllOfLength(p + q, n)
    ensures forall i :: 0 <= i < n ==> Aggregate(p + q, n)[i] == Aggregate(p, n)[i] + Aggregate(q, n)[i]
  {
    forall i | 0 <= i < n
      ensures Aggregate(p + q, n)[i] == Aggregate(p, n)[i] + Aggregate(q, n)[i]
    {
      ColumnSumAppend(p, q, i);
    }
  }
}
