/** Worked cases of the VaR engine: the confidence bound of exactly one, and the
    two valued scenarios of the service's tests, with the values the code yields. */
module ValueAtRiskScenarios {
  import opened Wrappers
  import opened Trades
  import opened OrderStatistics
  import opened DecimalRounding
  import opened ValueAtRisk

  /** A confidence of exactly 1 is accepted and selects position 0: the VaR is
      the negated minimum of the series. */
  lemma ConfidenceOneGivesNegatedMinimum(s: seq<real>)
    requires |s| > 0
    ensures CalculateVaR(1.0, Some(s)).Success?
    ensures forall i :: 0 <= i < |s| ==> CalculateVaR(1.0, Some(s)).value >= Round4HalfUp(-s[i])
    ensures exists i :: 0 <= i < |s| && CalculateVaR(1.0, Some(s)).value == Round4HalfUp(-s[i])
  {
    assert QuantileIndex(1.0, |s|) == 0;
    var v := OrderStatistic(s, 0);
    CalculateVaRSucceeds(1.0, s);
    NegatedMinimumRounded(s, v);
  }

  /** Rounding the negated minimum bounds every rounded negated value. */
  lemma NegatedMinimumRounded(s: seq<real>, v: real)
    requires IsOrderStatistic(s, 0, v)
    ensures forall i :: 0 <= i < |s| ==> Round4HalfUp(-v) >= Round4HalfUp(-s[i])
    ensures exists i :: 0 <= i < |s| && Round4HalfUp(-v) == Round4HalfUp(-s[i])
  {
    ZerothIsMinimum(s, v);
    forall i | 0 <= i < |s|
      ensures Round4HalfUp(-s[i]) <= Round4HalfUp(-v)
    {
      RoundingMonotone(-s[i], -v);
    }
    var j :| 0 <= j < |s| && s[j] == v;
  }

  /** The series [0, 10, 1, 10] at confidence 0.5: position floor(0.5 * 4) = 2 of
      [0, 1, 10, 10] holds 10, and the negation gives -10.0000. */
  lemma TradeScenario()
    ensures GetTradeVaR(0.5, Some(Trade("TESLA1", Some([0.0, 10.0, 1.0, 10.0])))) == Success(-10.0)
  {
    var s := [0.0, 10.0, 1.0, 10.0];
    assert QuantileIndex(0.5, 4) == 2;
    assert CountBelow(s, 10.0) == 2 && CountAtMost(s, 10.0) == 4;
    OrderStatisticUnique(s, 2, 10.0, OrderStatistic(s, 2));
    RoundingKeepsScale4(-10.0);
  }

  /** Two trades at confidence 0.95: the daily series is
      [22.3, 66.5, -13.22, 13.99], position floor(0.05 * 4) = 0 holds -13.22,
      and the negation gives 13.2200. */
  lemma PortfolioScenario()
    ensures GetPortfolioVaR(0.95, Some([
      Trade("TESLA1", Some([0.0, 10.0, 1.0, 10.0])),
      Trade("TESLA2", Some([22.3, 56.5, -14.22, 3.99]))])) == Success(13.22)
  {
    var p := [Trade("TESLA1", Some([0.0, 10.0, 1.0, 10.0])), Trade("TESLA2", Some([22.3, 56.5, -14.22, 3.99]))];
    var agg := [22.3, 66.5, -13.22, 13.99];
    ScenarioDailySeries();
    assert AllOfLength(p, |p[0].historicalPnL.value|);
    UniformLengthIsFirstLength(p);
    assert GetPortfolioVaR(0.95, Some(p)) == CalculateVaR(0.95, Some(agg));
    assert QuantileIndex(0.95, 4) == 0;
    ScenarioSmallestDailyValue();
    CalculateVaRSucceeds(0.95, agg);
    RoundedScenarioLoss();
  }

  lemma RoundedScenarioLoss()
    ensures Round4HalfUp(-(-13.22)) == 13.22
  {
    assert (13.22 * Units).Floor == 132200;
    RoundingKeepsScale4(13.22);
  }

  /** The two scenario trades add up, day by day, to [22.3, 66.5, -13.22, 13.99]. */
  lemma ScenarioDailySeries()
    ensures AllOfLength([Trade("TESLA1", Some([0.0, 10.0, 1.0, 10.0])), Trade("TESLA2", Some([22.3, 56.5, -14.22, 3.99]))], 4)
    ensures Aggregate([Trade("TESLA1", Some([0.0, 10.0, 1.0, 10.0])), Trade("TESLA2", Some([22.3, 56.5, -14.22, 3.99]))], 4)
      == [22.3, 66.5, -13.22, 13.99]
  {
    var t1 := Trade("TESLA1", Some([0.0, 10.0, 1.0, 10.0]));
    var t2 := Trade("TESLA2", Some([22.3, 56.5, -14.22, 3.99]));
    var p := [t1, t2];
    var agg := Aggregate(p, 4);
    assert p[..1] == [t1] && [t1][..0] == [];
    forall i | 0 <= i < 4
      ensures agg[i] == [22.3, 66.5, -13.22, 13.99][i]
    {
      assert agg[i] == ColumnSum(p, i) == ColumnSum([t1], i) + t2.historicalPnL.value[i];
      assert ColumnSum([t1], i) == ColumnSum([], i) + t1.historicalPnL.value[i];
    }
  }

  /** The smallest value of the scenario's daily series is -13.22. */
  lemma ScenarioSmallestDailyValue()
    ensures OrderStatistic([22.3, 66.5, -13.22, 13.99], 0) == -13.22
  {
    var agg := [22.3, 66.5, -13.22, 13.99];
    var a3, a2, a1 := [13.99], [-13.22, 13.99], [66.5, -13.22, 13.99];
    assert agg[1..] == a1 && a1[1..] == a2 && a2[1..] == a3 && a3[1..] == [];
    assert CountAtMost(a3, -13.22) == 0 && CountBelow(a3, -13.22) == 0;
    assert CountAtMost(a2, -13.22) == 1 && CountBelow(a2, -13.22) == 0;
    assert CountAtMost(a1, -13.22) == 1 && CountBelow(a1, -13.22) == 0;
    assert CountBelow(agg, -13.22) == 0 && CountAtMost(agg, -13.22) == 1;
    OrderStatisticUnique(agg, 0, -13.22, OrderStatistic(agg, 0));
  }
}
