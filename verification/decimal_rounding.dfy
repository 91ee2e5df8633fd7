/** Rounding an exact decimal to four fractional digits with ties going away
    from zero, as `BigDecimal.setScale(4, RoundingMode.HALF_UP)` does. */
module DecimalRounding {

  /** Ten thousand units make one: four fractional digits. */
  const Units: real := 10000.0

  /** Half of the last kept digit: the largest distance rounding may move a value. */
  const HalfUnit: real := 1.0 / 20000.0

  /** `r` has at most four fractional digits. */
  predicate HasScale4(r: real) {
    (r * Units).Floor as real == r * Units
  }

  /** The value nearest to `x` with four fractional digits; of two equally near
      ones, the one further from zero. */
  function Round4HalfUp(x: real): (r: real)
    ensures HasScale4(r)
    ensures -HalfUnit <= r - x <= HalfUnit
    ensures r - x == HalfUnit ==> x > 0.0
    ensures x - r == HalfUnit ==> x < 0.0
  {
    var scaled := x * Units;
    var units := if scaled >= 0.0 then (scaled + 0.5).Floor else -((-scaled + 0.5).Floor);
    units as real / Units
  }

  /** The contract of Round4HalfUp pins its result down: no other value meets it. */
  lemma RoundingSpecIsComplete(x: real, r: real)
    requires HasScale4(r)
    requires -HalfUnit <= r - x <= HalfUnit
    requires r - x == HalfUnit ==> x > 0.0
    requires x - r == HalfUnit ==> x < 0.0
    ensures r == Round4HalfUp(x)
  {
    var q := Round4HalfUp(x);
    var m, n := (r * Units).Floor, (q * Units).Floor;
    assert r == m as real / Units && q == n as real / Units;
    assert -1.0 <= (m - n) as real <= 1.0;
  }

  /** A value that already has four fractional digits is left as it is. */
  lemma RoundingKeepsScale4(x: real)
    requires HasScale4(x)
    ensures Round4HalfUp(x) == x
  {
    RoundingSpecIsComplete(x, x);
  }

  /** Rounding commutes with negation: ties go away from zero on both sides. */
  lemma RoundingIsOdd(x: real)
    ensures Round4HalfUp(-x) == -Round4HalfUp(x)
  {
    var r := Round4HalfUp(x);
    assert (-r * Units).Floor == -((r * Units).Floor);
    RoundingSpecIsComplete(-x, -r);
  }

  lemma FloorMonotone(a: real, b: real)
    requires a <= b
    ensures a.Floor <= b.Floor
  {
    assert a.Floor as real <= a < a.Floor as real + 1.0;
    assert b.Floor as real <= b < b.Floor as real + 1.0;
  }

  /** Rounding never reverses the order of two values. */
  lemma RoundingMonotone(x: real, y: real)
    requires x <= y
    ensures Round4HalfUp(x) <= Round4HalfUp(y)
  {
    var sx, sy := x * Units, y * Units;
    if sx >= 0.0 {
      FloorMonotone(sx + 0.5, sy + 0.5);
    } else if sy < 0.0 {
      FloorMonotone(-sy + 0.5, -sx + 0.5);
    } else {
      assert 0.0 <= (-sx + 0.5).Floor as real;
      assert 0.0 <= (sy + 0.5).Floor as real;
    }
  }
}
