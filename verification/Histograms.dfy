/** The cost histogram: usage per date and category, running totals per date,
    and the rounded cost shares exported from them. */
module Histograms {
  import opened RealSums
  import opened Rounding

  /** One call of Add. */
  datatype Sample = Sample(date: string, category: string, usage: real, factor: real, excluded: bool)

  datatype Measure = Usage | Requests

  datatype AnalyticsTDO = AnalyticsTDO(stack: string, usage: real, date: string)

  datatype Pricing = Pricing(billingCategory: string, costModel: string, decimals: int)

  function RealAt(m: map<string, real>, k: string): real {
    if k in m then m[k] else 0.0
  }

  function RequestsOf(usage: real, factor: real): real {
    if factor > 0.0 then usage / factor else 0.0
  }

  function Amount(m: Measure, s: Sample): real {
    if m.Usage? then s.usage else RequestsOf(s.usage, s.factor)
  }

  predicate CountsOn(s: Sample, date: string) {
    s.usage > 0.0 && s.date == date
  }

  lemma AmountNonNegative(m: Measure, s: Sample)
    requires s.usage > 0.0
    ensures Amount(m, s) >= 0.0
  {
    if s.factor > 0.0 {
      DivideMonotone(0.0, s.usage, s.factor);
    }
  }

  /** What is on record for a date after the calls in `log`: the last amount of
      each category. */
  function Latest(m: Measure, log: seq<Sample>, date: string): map<string, real> {
    if log == [] then map[] else
      var rest, s := log[..|log| - 1], log[|log| - 1];
      if CountsOn(s, date) then Latest(m, rest, date)[s.category := Amount(m, s)] else Latest(m, rest, date)
  }

  /** Everything ever added to the total of a date. */
  function Total(m: Measure, log: seq<Sample>, date: string): real {
    if log == [] then 0.0 else
      var rest, s := log[..|log| - 1], log[|log| - 1];
      Total(m, rest, date) + (if CountsOn(s, date) && !s.excluded then Amount(m, s) else 0.0)
  }

  /** The part of the total that later calls for the same category replaced. */
  function Overwritten(m: Measure, log: seq<Sample>, date: string): real {
    if log == [] then 0.0 else
      var rest, s := log[..|log| - 1], log[|log| - 1];
      Overwritten(m, rest, date)
      + (if CountsOn(s, date) && !s.excluded then RealAt(Latest(m, rest, date), s.category) else 0.0)
  }

  lemma Appended(m: Measure, log: seq<Sample>, s: Sample, date: string)
    ensures Latest(m, log + [s], date)
      == if CountsOn(s, date) then Latest(m, log, date)[s.category := Amount(m, s)] else Latest(m, log, date)
    ensures Total(m, log + [s], date)
      == Total(m, log, date) + (if CountsOn(s, date) && !s.excluded then Amount(m, s) else 0.0)
  {
    assert (log + [s])[..|log|] == log;
  }

  lemma {:induction false} SameCategories(log: seq<Sample>, date: string)
    ensures Latest(Usage, log, date).Keys == Latest(Requests, log, date).Keys
  {
    if log != [] {
      SameCategories(log[..|log| - 1], date);
    }
  }

  lemma {:induction false} LatestComesFromLog(m: Measure, log: seq<Sample>, date: string, category: string)
    requires category in Latest(m, log, date)
    ensures exists s :: s in log && CountsOn(s, date) && s.category == category
                        && Latest(m, log, date)[category] == Amount(m, s)
  {
    var rest, s := log[..|log| - 1], log[|log| - 1];
    if !(CountsOn(s, date) && s.category == category) {
      LatestComesFromLog(m, rest, date, category);
    }
  }

  lemma {:induction false} CountedIsOnRecord(m: Measure, log: seq<Sample>, date: string, s: Sample)
    requires s in log && CountsOn(s, date)
    ensures s.category in Latest(m, log, date)
  {
    if s != log[|log| - 1] {
      CountedIsOnRecord(m, log[..|log| - 1], date, s);
    }
  }

  ghost function AmountOf(recorded: map<string, real>): string -> real {
    (c: string) => RealAt(recorded, c)
  }

  /** The sum, over the categories other than billing, of what is on record. */
  ghost function Recorded(m: Measure, log: seq<Sample>, date: string, billing: string): real {
    RealSum(Latest(m, log, date).Keys - {billing}, AmountOf(Latest(m, log, date)))
  }

  /** The caller leaves exactly the billing category out of the totals. */
  ghost predicate ExcludesBilling(log: seq<Sample>, billing: string) {
    forall s :: s in log ==> (s.excluded <==> s.category == billing)
  }

  /** No category but billing counts twice on the date. */
  ghost predicate AddedOnce(log: seq<Sample>, date: string, billing: string) {
    forall i, j :: 0 <= i < j < |log| && CountsOn(log[i], date) && CountsOn(log[j], date) && log[i].category != billing
      ==> log[i].category != log[j].category
  }

  lemma RecordedAfter(before: map<string, real>, c: string, amount: real, billing: string)
    ensures RealSum(before[c := amount].Keys - {billing}, AmountOf(before[c := amount]))
         == RealSum(before.Keys - {billing}, AmountOf(before))
           + (if c == billing then 0.0 else amount - RealAt(before, c))
  {
    var after := before[c := amount];
    var f, g := AmountOf(before), AmountOf(after);
    var s, t := before.Keys - {billing}, after.Keys - {billing};
    if c == billing {
      assert s == t;
      RealSumExt(s, f, g);
    } else {
      RealSumPick(t, g, c);
      RealSumExt(t - {c}, f, g);
      if c in before {
        assert s == t;
        RealSumPick(s, f, c);
      } else {
        assert s == t - {c};
      }
    }
  }

  /** A total is what is on record plus what was overwritten. */
  lemma {:induction false} TotalSplits(m: Measure, log: seq<Sample>, date: string, billing: string)
    requires ExcludesBilling(log, billing)
    ensures Total(m, log, date) == Recorded(m, log, date, billing) + Overwritten(m, log, date)
  {
    if log != [] {
      var rest, s := log[..|log| - 1], log[|log| - 1];
      TotalSplits(m, rest, date, billing);
      RecordedAfter(Latest(m, rest, date), s.category, Amount(m, s), billing);
    }
  }

  lemma {:induction false} OverwrittenNonNegative(m: Measure, log: seq<Sample>, date: string)
    ensures Overwritten(m, log, date) >= 0.0
    ensures forall c :: c in Latest(m, log, date) ==> Latest(m, log, date)[c] >= 0.0
    ensures m.Usage? ==> forall c :: c in Latest(m, log, date) ==> Latest(m, log, date)[c] > 0.0
  {
    if log != [] {
      var rest, s := log[..|log| - 1], log[|log| - 1];
      OverwrittenNonNegative(m, rest, date);
      if CountsOn(s, date) {
        AmountNonNegative(m, s);
      }
    }
  }

  /** The latest amount is that of the last call that counts. */
  lemma {:induction false} LatestIsLast(m: Measure, log: seq<Sample>, date: string, category: string) returns (k: nat)
    requires category in Latest(m, log, date)
    ensures k < |log| && CountsOn(log[k], date) && log[k].category == category
    ensures Latest(m, log, date)[category] == Amount(m, log[k])
    ensures forall i :: k < i < |log| ==> !(CountsOn(log[i], date) && log[i].category == category)
  {
    var n := |log| - 1;
    if CountsOn(log[n], date) && log[n].category == category {
      k := n;
    } else {
      k := LatestIsLast(m, log[..n], date, category);
    }
  }

  /** Call `j` counts and replaces what call `i` had put on record. */
  predicate Replaces(log: seq<Sample>, i: nat, j: nat, date: string)
    requires i < j < |log|
  {
    && CountsOn(log[i], date) && CountsOn(log[j], date)
    && !log[j].excluded && log[i].category == log[j].category
  }

  /** Every call that a later one for the same category replaces had amount 0. */
  ghost predicate ReplacesNothing(m: Measure, log: seq<Sample>, date: string) {
    forall i, j :: 0 <= i < j < |log| && Replaces(log, i, j, date) ==> Amount(m, log[i]) == 0.0
  }

  lemma ReplacedBefore(m: Measure, log: seq<Sample>, date: string, i: nat)
    requires ReplacesNothing(m, log, date) && i < |log| && CountsOn(log[i], date) && !log[i].excluded
    ensures RealAt(Latest(m, log[..i], date), log[i].category) == 0.0
  {
    if log[i].category in Latest(m, log[..i], date) {
      var k := LatestIsLast(m, log[..i], date, log[i].category);
      assert log[k] == log[..i][k] && Replaces(log, k, i, date);
    }
  }

  /** The call just replaced determines all the others of its category. */
  lemma NothingReplacedBefore(m: Measure, log: seq<Sample>, date: string, billing: string, n: nat, i: nat)
    requires ExcludesBilling(log, billing) && i < n < |log| && Replaces(log, i, n, date)
    requires ReplacesNothing(m, log[..n], date) && RealAt(Latest(m, log[..n], date), log[n].category) == 0.0
    ensures Amount(m, log[i]) == 0.0
  {
    var rest := log[..n];
    assert rest[i] == log[i];
    CountedIsOnRecord(m, rest, date, log[i]);
    var k := LatestIsLast(m, rest, date, log[n].category);
    assert rest[k] == log[k];
    if i < k {
      assert log[k] in log && log[n] in log;
      assert Replaces(rest, i, k, date);
    }
  }

  lemma {:induction false} OverwrittenZeroIff(m: Measure, log: seq<Sample>, date: string, billing: string)
    requires ExcludesBilling(log, billing)
    ensures Overwritten(m, log, date) == 0.0 <==> ReplacesNothing(m, log, date)
  {
    if log != [] {
      var n := |log| - 1;
      var rest, s := log[..n], log[n];
      OverwrittenZeroIff(m, rest, date, billing);
      OverwrittenNonNegative(m, rest, date);
      if ReplacesNothing(m, log, date) {
        assert ReplacesNothing(m, rest, date) by {
          forall i, j | 0 <= i < j < |rest| && Replaces(rest, i, j, date) ensures Amount(m, rest[i]) == 0.0 {
            assert Replaces(log, i, j, date);
          }
        }
        if CountsOn(s, date) && !s.excluded {
          ReplacedBefore(m, log, date, n);
        }
      }
      if Overwritten(m, log, date) == 0.0 {
        forall i, j | 0 <= i < j < |log| && Replaces(log, i, j, date) ensures Amount(m, log[i]) == 0.0 {
          if j < n {
            assert Replaces(rest, i, j, date);
          } else {
            NothingReplacedBefore(m, log, date, billing, n, i);
          }
        }
      }
    }
  }

  /** The exact condition, for usages and for requests: a total equals the sum of
      the amounts on record if and only if whatever was replaced had amount 0.
      It is never less. */
  lemma TotalsMatchIff(m: Measure, log: seq<Sample>, date: string, billing: string)
    requires ExcludesBilling(log, billing)
    ensures Total(m, log, date) == Recorded(m, log, date, billing) <==> ReplacesNothing(m, log, date)
    ensures Total(m, log, date) >= Recorded(m, log, date, billing)
  {
    hide *;
    TotalSplits(m, log, date, billing);
    OverwrittenNonNegative(m, log, date);
    OverwrittenZeroIff(m, log, date, billing);
  }

  lemma OnceReplacesNothing(m: Measure, log: seq<Sample>, date: string, billing: string)
    requires ExcludesBilling(log, billing) && AddedOnce(log, date, billing)
    ensures ReplacesNothing(m, log, date)
  {
    forall i, j | 0 <= i < j < |log| ensures !Replaces(log, i, j, date) {
      assert log[j] in log;
    }
  }

  /** For usages, which are positive, that means that no category but billing
      counts twice. */
  lemma UsageMatchesIff(log: seq<Sample>, date: string, billing: string)
    requires ExcludesBilling(log, billing)
    ensures Total(Usage, log, date) == Recorded(Usage, log, date, billing) <==> AddedOnce(log, date, billing)
  {
    TotalsMatchIff(Usage, log, date, billing);
    if AddedOnce(log, date, billing) {
      OnceReplacesNothing(Usage, log, date, billing);
    } else {
      var i, j :| 0 <= i < j < |log| && CountsOn(log[i], date) && CountsOn(log[j], date)
        && log[i].category != billing && log[i].category == log[j].category;
      assert log[j] in log && Replaces(log, i, j, date);
      assert Amount(Usage, log[i]) > 0.0;
    }
  }

  lemma TotalsMatch(m: Measure, log: seq<Sample>, date: string, billing: string)
    requires ExcludesBilling(log, billing) && AddedOnce(log, date, billing)
    ensures Total(m, log, date) == Recorded(m, log, date, billing)
  {
    TotalsMatchIff(m, log, date, billing);
    OnceReplacesNothing(m, log, date, billing);
  }

  /** A namespace whose usage is added twice: the records hold 1, the total 2. */
  lemma RepeatDoublesTheTotal()
    ensures var s := Sample("20260101", "ns", 1.0, 0.0, false);
            Total(Usage, [s, s], "20260101") == 2.0 && Latest(Usage, [s, s], "20260101") == map["ns" := 1.0]
  {
    var s := Sample("20260101", "ns", 1.0, 0.0, false);
    Appended(Usage, [], s, "20260101");
    Appended(Usage, [s], s, "20260101");
    assert [] + [s] == [s] && [s] + [s] == [s, s];
    assert map["ns" := 1.0]["ns" := 1.0] == map["ns" := 1.0];
  }

  // ------------------------------------------------------------- cost shares

  predicate IsShareModel(costModel: string) {
    costModel == "RATIO" || costModel == "CHARGE_BACK"
  }

  function RoundedShare(ratio: real, whole: real, decimals: int): real {
    Round(ratio * whole, decimals)
  }

  function CalculateHistogramCost(value: real, total: real, billingRate: real, costModel: string, decimals: int): real {
    if costModel != "RATIO" && costModel != "CHARGE_BACK" then Round(value, decimals)
    else if total <= 0.0 then 0.0
    else
      var ratio := value / total;
      if costModel == "CHARGE_BACK" then RoundedShare(ratio, billingRate, decimals)
      else RoundedShare(ratio, 100.0, decimals)
  }

  /** What all the shares of a date are to add up to. */
  function Target(total: real, billingRate: real, costModel: string): real {
    if !IsShareModel(costModel) then total
    else if total <= 0.0 then 0.0
    else if costModel == "CHARGE_BACK" then billingRate
    else 100.0
  }

  /** The exact price of one unit. */
  function UnitPrice(total: real, billingRate: real, costModel: string): real {
    if !IsShareModel(costModel) then 1.0
    else if total <= 0.0 then 0.0
    else Target(total, billingRate, costModel) / total
  }

  lemma DivideThenTimes(value: real, total: real, rate: real)
    requires total > 0.0
    ensures rate / total * value == value / total * rate
    ensures rate / total * total == rate
  {
  }

  lemma HalfUnitPositive(decimals: int)
    ensures HalfUnit(decimals) > 0.0
  {
  }

  lemma RoundedShareOf(ratio: real, whole: real, decimals: int, exact: real)
    requires exact == ratio * whole
    ensures RoundedShare(ratio, whole, decimals) == Round(exact, decimals)
  {
  }

  /** A cost is the exact price, rounded. */
  lemma CostIsRounded(value: real, total: real, billingRate: real, costModel: string, decimals: int, exact: real)
    requires exact == UnitPrice(total, billingRate, costModel) * value
    requires !IsShareModel(costModel) || total > 0.0
    ensures CalculateHistogramCost(value, total, billingRate, costModel, decimals) == Round(exact, decimals)
  {
    hide Round;
    if IsShareModel(costModel) {
      var whole := Target(total, billingRate, costModel);
      DivideThenTimes(value, total, whole);
      RoundedShareOf(value / total, whole, decimals, exact);
      hide RoundedShare;
    }
  }

  lemma CostIsNear(value: real, total: real, billingRate: real, costModel: string, decimals: int)
    ensures var exact := UnitPrice(total, billingRate, costModel) * value;
            exact - HalfUnit(decimals) <= CalculateHistogramCost(value, total, billingRate, costModel, decimals)
            <= exact + HalfUnit(decimals)
  {
    hide Round, HalfUnit;
    HalfUnitPositive(decimals);
    if !IsShareModel(costModel) || total > 0.0 {
      hide *;
      var exact := UnitPrice(total, billingRate, costModel) * value;
      CostIsRounded(value, total, billingRate, costModel, decimals, exact);
      RoundIsNear(exact, decimals);
    }
  }

  /** The requests of a call are what its usage is the given part of. */
  lemma RequestsTimesFactor(usage: real, factor: real)
    ensures factor > 0.0 ==> RequestsOf(usage, factor) * factor == usage
    ensures factor <= 0.0 ==> RequestsOf(usage, factor) == 0.0
  {
  }

  /** The three cost models: a share of 100, a share of the billing rate, and for
      all other models the value itself. */
  lemma CostByModel(value: real, total: real, billingRate: real, costModel: string, decimals: int)
    ensures var half := HalfUnit(decimals);
            var cost := CalculateHistogramCost(value, total, billingRate, costModel, decimals);
            && (costModel != "RATIO" && costModel != "CHARGE_BACK" ==> value - half <= cost <= value + half)
            && (costModel in {"RATIO", "CHARGE_BACK"} && total <= 0.0 ==> cost == 0.0)
            && (costModel == "RATIO" && total > 0.0 ==>
                  100.0 / total * value - half <= cost <= 100.0 / total * value + half)
            && (costModel == "CHARGE_BACK" && total > 0.0 ==>
                  billingRate / total * value - half <= cost <= billingRate / total * value + half)
  {
    hide HalfUnit, Round;
    CostIsNear(value, total, billingRate, costModel, decimals);
  }

  lemma RoundedShareIsWhole(ratio: real, whole: real, decimals: int) returns (k: int)
    ensures RoundedShare(ratio, whole, decimals) == k as real / PowerOfTen(decimals)
  {
    hide Round, PowerOfTen;
    k := RoundIsWhole(ratio * whole, decimals);
  }

  /** A cost is a whole number of units in the last decimal. */
  lemma CostIsWhole(value: real, total: real, billingRate: real, costModel: string, decimals: int) returns (k: int)
    ensures CalculateHistogramCost(value, total, billingRate, costModel, decimals) == k as real / PowerOfTen(decimals)
  {
    hide Round, RoundedShare, PowerOfTen;
    if !IsShareModel(costModel) {
      k := RoundIsWhole(value, decimals);
    } else if total <= 0.0 {
      k := 0;
    } else if costModel == "CHARGE_BACK" {
      k := RoundedShareIsWhole(value / total, billingRate, decimals);
    } else {
      k := RoundedShareIsWhole(value / total, 100.0, decimals);
    }
  }

  lemma PriceOfTotal(total: real, billingRate: real, costModel: string)
    ensures UnitPrice(total, billingRate, costModel) * total == Target(total, billingRate, costModel)
  {
    if total > 0.0 {
      DivideThenTimes(total, total, Target(total, billingRate, costModel));
    }
  }

  lemma SpreadOver(price: real, x: real, y: real, n: real, half: real)
    ensures price * (x + y) == price * x + price * y && (n + 1.0) * half == n * half + half
  {
  }

  /** Rounding errors add up to at most one half unit for each share. */
  lemma {:induction false} SharesAddUp(xs: seq<string>, cost: string -> real, value: string -> real, price: real,
                                       half: real)
    requires forall x :: price * value(x) - half <= cost(x) <= price * value(x) + half
    ensures price * SeqSum(xs, value) - |xs| as real * half <= SeqSum(xs, cost)
      <= price * SeqSum(xs, value) + |xs| as real * half
  {
    if xs != [] {
      var rest, x := xs[..|xs| - 1], xs[|xs| - 1];
      SharesAddUp(rest, cost, value, price, half);
      SpreadOver(price, SeqSum(rest, value), value(x), |rest| as real, half);
    }
  }
}
