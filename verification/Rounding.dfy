/** Rounding to four decimals, as PostgreSQL's numeric cast and Python's Decimal.quantize do it. */
module Rounding {

  /** Half away from zero (numeric casts and round()). */
  function RoundHalfAway(x: real): real {
    if x >= 0.0 then (x * 10000.0 + 0.5).Floor as real / 10000.0
    else -((-x * 10000.0 + 0.5).Floor as real / 10000.0)
  }

  /** Half to even (quantize's default). */
  function RoundHalfEven(x: real): real {
    var scaled := x * 10000.0;
    var below := scaled.Floor;
    var rest := scaled - below as real;
    var units := if rest < 0.5 || (rest == 0.5 && below % 2 == 0) then below else below + 1;
    units as real / 10000.0
  }

  ghost predicate Within(a: real, b: real, error: real) { -error <= a - b <= error }

  /** One rounding is off by at most half a unit of the fourth decimal. */
  lemma RoundingError(x: real)
    ensures Within(RoundHalfAway(x), x, 1.0 / 20000.0)
    ensures Within(RoundHalfEven(x), x, 1.0 / 20000.0)
  {
    var scaled := x * 10000.0;
    var below := scaled.Floor;
    assert below as real <= scaled < below as real + 1.0;
    var up := (scaled + 0.5).Floor;
    assert up as real <= scaled + 0.5 < up as real + 1.0;
    var down := (-scaled + 0.5).Floor;
    assert down as real <= -scaled + 0.5 < down as real + 1.0;
    assert -x * 10000.0 == -scaled;
  }

  /** Ties: the cast goes away from zero, quantize to the even neighbour. */
  lemma TiesRound(k: int)
    ensures var tie := (k as real + 0.5) / 10000.0;
      && RoundHalfAway(tie) == (if k >= 0 then k + 1 else k) as real / 10000.0
      && RoundHalfEven(tie) == (if k % 2 == 0 then k else k + 1) as real / 10000.0
  {
    var tie := (k as real + 0.5) / 10000.0;
    assert tie * 10000.0 == k as real + 0.5;
    assert (tie * 10000.0).Floor == k;
    assert (k as real + 1.0).Floor == k + 1;
    assert (-(k as real)).Floor == -k;
  }
}
