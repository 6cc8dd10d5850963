/** Decimal rounding, over exact reals. */
module Rounding {
  function Power(n: nat): (p: real)
    ensures p >= 1.0
  {
    if n == 0 then 1.0 else 10.0 * Power(n - 1)
  }

  /** 10 to the power of `decimals`. */
  function PowerOfTen(decimals: int): (p: real)
    ensures p > 0.0
  {
    if decimals >= 0 then Power(decimals) else 1.0 / Power(-decimals)
  }

  /** Nearest integer, halves away from zero. */
  function RoundHalfAway(x: real): real {
    if x >= 0.0 then (x + 0.5).Floor as real else -((0.5 - x).Floor as real)
  }

  function RoundTo(val: real, pow: real): real
    requires pow > 0.0
  {
    RoundHalfAway(val * pow) / pow
  }

  function Round(val: real, decimals: int): real {
    var pow := PowerOfTen(decimals);
    RoundTo(val, pow)
  }

  /** Half a unit in the last decimal. */
  function HalfUnit(decimals: int): real {
    0.5 / PowerOfTen(decimals)
  }

  lemma RoundHalfAwayIsNear(x: real)
    ensures x - 0.5 <= RoundHalfAway(x) <= x + 0.5
  {
  }

  lemma DivideMonotone(x: real, y: real, p: real)
    requires p > 0.0 && x <= y
    ensures x / p <= y / p
  {
  }

  lemma DivideSplits(x: real, p: real)
    requires p > 0.0
    ensures (x * p - 0.5) / p == x - 0.5 / p && (x * p + 0.5) / p == x + 0.5 / p
  {
  }

  lemma NearAfterScaling(val: real, p: real, scaled: real, rounded: real)
    requires p > 0.0 && scaled == val * p && scaled - 0.5 <= rounded <= scaled + 0.5
    ensures val - 0.5 / p <= rounded / p <= val + 0.5 / p
  {
    DivideMonotone(scaled - 0.5, rounded, p);
    DivideMonotone(rounded, scaled + 0.5, p);
    DivideSplits(val, p);
  }

  lemma RoundToIsNear(val: real, pow: real)
    requires pow > 0.0
    ensures val - 0.5 / pow <= RoundTo(val, pow) <= val + 0.5 / pow
  {
    RoundHalfAwayIsNear(val * pow);
    hide RoundHalfAway;
    NearAfterScaling(val, pow, val * pow, RoundHalfAway(val * pow));
  }

  /** Rounding moves a value by at most half a unit in the last decimal. */
  lemma RoundIsNear(val: real, decimals: int)
    ensures val - HalfUnit(decimals) <= Round(val, decimals) <= val + HalfUnit(decimals)
  {
    hide PowerOfTen, RoundTo;
    RoundToIsNear(val, PowerOfTen(decimals));
  }

  lemma TenOverTen(p: real, q: real)
    requires p > 0.0 && q == 10.0 * p
    ensures 1.0 / p == 10.0 * (1.0 / q)
  {
  }

  /** The values go up by a factor of ten for each decimal. */
  lemma PowersOfTen(decimals: int)
    ensures PowerOfTen(0) == 1.0 && PowerOfTen(decimals + 1) == 10.0 * PowerOfTen(decimals)
  {
    if decimals < 0 {
      TenOverTen(Power(-decimals - 1), Power(-decimals));
    }
  }

  /** A nearest whole number; of two equally near ones, the one farther from
      zero. */
  lemma RoundHalfAwayIsNearest(x: real) returns (k: int)
    ensures RoundHalfAway(x) == k as real
    ensures -0.5 <= k as real - x <= 0.5
    ensures k as real - x == 0.5 ==> x > 0.0
    ensures k as real - x == -0.5 ==> x < 0.0
  {
    k := if x >= 0.0 then (x + 0.5).Floor else -(0.5 - x).Floor;
  }

  lemma RoundToIsWhole(val: real, pow: real) returns (k: int)
    requires pow > 0.0
    ensures RoundTo(val, pow) == k as real / pow
  {
    k := RoundHalfAwayIsNearest(val * pow);
  }

  /** A rounded value is a whole number of units in the last decimal. */
  lemma RoundIsWhole(val: real, decimals: int) returns (k: int)
    ensures Round(val, decimals) == k as real / PowerOfTen(decimals)
  {
    hide PowerOfTen, RoundTo;
    k := RoundToIsWhole(val, PowerOfTen(decimals));
  }
}
