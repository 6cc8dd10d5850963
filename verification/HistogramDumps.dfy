/** From the readings of all categories to the exported cost shares. */
module HistogramDumps {
  import opened GoMaps
  import opened Histograms
  import opened HistogramExports

  /** The data read for one category: usage and request factor by date. */
  datatype Reading = Reading(category: string, usage: map<string, real>, factors: map<string, real>)

  ghost predicate DistinctCategories(readings: seq<Reading>) {
    forall i, j :: 0 <= i < j < |readings| ==> readings[i].category != readings[j].category
  }

  function SampleOf(r: Reading, date: string, billing: string): Sample {
    Sample(date, r.category, RealAt(r.usage, date), RealAt(r.factors, date), r.category == billing)
  }

  /** The calls for one reading. */
  function ReadingSamples(r: Reading, dates: set<string>, billing: string): set<Sample> {
    set d | d in dates :: SampleOf(r, d, billing)
  }

  /** The calls for all readings, with their number. */
  function SamplesOf(readings: seq<Reading>, billing: string): multiset<Sample> {
    if readings == [] then multiset{}
    else
      var r := readings[|readings| - 1];
      SamplesOf(readings[..|readings| - 1], billing) + multiset(ReadingSamples(r, r.usage.Keys, billing))
  }

  ghost predicate IsSampleOf(readings: seq<Reading>, billing: string, s: Sample) {
    exists r :: r in readings && s.date in r.usage && s == SampleOf(r, s.date, billing)
  }

  /** What one reading adds to the total of a date. */
  function Contribution(m: Measure, r: Reading, billing: string, date: string): real {
    var usage := RealAt(r.usage, date);
    if r.category == billing || usage <= 0.0 then 0.0
    else if m.Usage? then usage
    else if RealAt(r.factors, date) > 0.0 then usage / RealAt(r.factors, date)
    else 0.0
  }

  function ReadTotal(m: Measure, readings: seq<Reading>, billing: string, date: string): real {
    if readings == [] then 0.0
    else
      var n := |readings| - 1;
      ReadTotal(m, readings[..n], billing, date) + Contribution(m, readings[n], billing, date)
  }

  ghost predicate OneEach(log: seq<Sample>) {
    forall i, j :: 0 <= i < j < |log| ==> !(log[i].date == log[j].date && log[i].category == log[j].category)
  }

  /** The calls made are those for the readings, one for each of their dates;
      with distinct categories no two agree in date and category. */
  ghost predicate IsCollected(log: seq<Sample>, readings: seq<Reading>, billing: string) {
    && multiset(log) == SamplesOf(readings, billing)
    && (forall m: Measure, date :: Total(m, log, date) == ReadTotal(m, readings, billing, date))
    && (forall s :: s in log <==> IsSampleOf(readings, billing, s))
    && (DistinctCategories(readings) ==> OneEach(log))
  }

  ghost predicate HasCalls(log: seq<Sample>, readings: seq<Reading>, billing: string, r: Reading, dates: seq<string>) {
    multiset(log) == SamplesOf(readings, billing) + multiset(ReadingSamples(r, (set d | d in dates), billing))
  }

  ghost predicate HasTotal(m: Measure, log: seq<Sample>, readings: seq<Reading>, billing: string, r: Reading,
                           dates: seq<string>, date: string) {
    Total(m, log, date)
      == ReadTotal(m, readings, billing, date) + if date in dates then Contribution(m, r, billing, date) else 0.0
  }

  ghost predicate HasMember(log: seq<Sample>, readings: seq<Reading>, billing: string, r: Reading, dates: seq<string>,
                            s: Sample) {
    s in log <==> IsSampleOf(readings, billing, s) || (s.date in dates && s == SampleOf(r, s.date, billing))
  }

  /** In the middle of one more reading, with some of its dates done. */
  ghost predicate IsCollecting(log: seq<Sample>, readings: seq<Reading>, billing: string, r: Reading,
                               dates: seq<string>) {
    && HasCalls(log, readings, billing, r, dates)
    && (forall m: Measure, date :: HasTotal(m, log, readings, billing, r, dates, date))
    && (forall s :: HasMember(log, readings, billing, r, dates, s))
    && (DistinctCategories(readings + [r]) ==> OneEach(log))
  }

  lemma ReadingStarted(log: seq<Sample>, readings: seq<Reading>, billing: string, r: Reading)
    requires IsCollected(log, readings, billing)
    ensures IsCollecting(log, readings, billing, r, [])
  {
    assert ReadingSamples(r, (set d: string | d in []), billing) == {};
    if DistinctCategories(readings + [r]) {
      forall i, j | 0 <= i < j < |readings| ensures readings[i].category != readings[j].category {
        assert (readings + [r])[i] == readings[i] && (readings + [r])[j] == readings[j];
      }
    }
  }

  lemma SampleAdded(log: seq<Sample>, readings: seq<Reading>, billing: string, r: Reading, dates: seq<string>,
                    date: string)
    requires date !in dates && HasCalls(log, readings, billing, r, dates)
    ensures HasCalls(log + [SampleOf(r, date, billing)], readings, billing, r, dates + [date])
  {
    var s := SampleOf(r, date, billing);
    var done := ReadingSamples(r, (set d | d in dates), billing);
    assert forall d :: d in dates ==> SampleOf(r, d, billing).date == d;
    assert s !in done;
    assert ReadingSamples(r, (set d | d in dates + [date]), billing) == done + {s};
    assert multiset(log + [s]) == multiset(log) + multiset{s};
  }

  lemma ContributionAdded(m: Measure, log: seq<Sample>, readings: seq<Reading>, billing: string, r: Reading,
                          dates: seq<string>, date: string, d: string)
    requires date !in dates && HasTotal(m, log, readings, billing, r, dates, d)
    ensures HasTotal(m, log + [SampleOf(r, date, billing)], readings, billing, r, dates + [date], d)
  {
    Appended(m, log, SampleOf(r, date, billing), d);
  }

  lemma MemberAdded(log: seq<Sample>, readings: seq<Reading>, billing: string, r: Reading, dates: seq<string>,
                    date: string, s: Sample)
    requires HasMember(log, readings, billing, r, dates, s)
    ensures HasMember(log + [SampleOf(r, date, billing)], readings, billing, r, dates + [date], s)
  {
    hide IsSampleOf;
  }

  lemma StillOneEach(log: seq<Sample>, readings: seq<Reading>, billing: string, r: Reading, dates: seq<string>,
                     date: string)
    requires DistinctCategories(readings + [r]) && OneEach(log) && date !in dates
    requires forall s :: HasMember(log, readings, billing, r, dates, s)
    ensures OneEach(log + [SampleOf(r, date, billing)])
  {
    forall i | 0 <= i < |log|
      ensures !(log[i].date == date && log[i].category == r.category)
    {
      var s := log[i];
      assert s in log && HasMember(log, readings, billing, r, dates, s);
      if IsSampleOf(readings, billing, s) {
        var r' :| r' in readings && s == SampleOf(r', s.date, billing);
        var k :| 0 <= k < |readings| && readings[k] == r';
        var all := readings + [r];
        assert all[k].category != all[|readings|].category;
        assert all[k] == r' && all[|readings|] == r;
        assert SampleOf(r', s.date, billing).category == r'.category;
        assert log[i].category == r'.category;
      } else {
        assert s.date in dates;
      }
    }
  }

  lemma DateDone(log: seq<Sample>, readings: seq<Reading>, billing: string, r: Reading, dates: seq<string>,
                 date: string)
    requires IsCollecting(log, readings, billing, r, dates) && date !in dates
    ensures IsCollecting(log + [SampleOf(r, date, billing)], readings, billing, r, dates + [date])
  {
    hide HasCalls, HasTotal, HasMember, DistinctCategories, OneEach, SampleOf;
    var log', dates' := log + [SampleOf(r, date, billing)], dates + [date];
    SampleAdded(log, readings, billing, r, dates, date);
    forall m: Measure, d ensures HasTotal(m, log', readings, billing, r, dates', d) {
      ContributionAdded(m, log, readings, billing, r, dates, date, d);
    }
    forall s ensures HasMember(log', readings, billing, r, dates', s) {
      MemberAdded(log, readings, billing, r, dates, date, s);
    }
    if DistinctCategories(readings + [r]) {
      StillOneEach(log, readings, billing, r, dates, date);
    }
  }

  lemma ReadingFinished(log: seq<Sample>, readings: seq<Reading>, billing: string, r: Reading, dates: seq<string>)
    requires IsCollecting(log, readings, billing, r, dates)
    requires forall d :: d in dates <==> d in r.usage
    ensures IsCollected(log, readings + [r], billing)
  {
    assert (set d | d in dates) == r.usage.Keys;
    assert (readings + [r])[..|readings|] == readings;
    forall m: Measure, date ensures Total(m, log, date) == ReadTotal(m, readings + [r], billing, date) {
      assert HasTotal(m, log, readings, billing, r, dates, date);
    }
    hide Total, ReadTotal, Contribution;
    forall s
      ensures s in log <==> IsSampleOf(readings + [r], billing, s)
    {
      assert HasMember(log, readings, billing, r, dates, s);
      if IsSampleOf(readings, billing, s) {
        var r' :| r' in readings && s.date in r'.usage && s == SampleOf(r', s.date, billing);
        assert r' in readings + [r];
      }
      if s in log && !IsSampleOf(readings, billing, s) {
        assert r in readings + [r];
      }
    }
  }

  /** The inner loop: the calls for one more category. */
  method CollectReading(metrics: HistogramMetrics, ghost readings: seq<Reading>, r: Reading, billing: string)
    requires metrics.Valid() && IsCollected(metrics.log, readings, billing)
    modifies metrics
    ensures metrics.Valid() && IsCollected(metrics.log, readings + [r], billing)
  {
    var excludeFromTotals := r.category == billing;
    var dates := ListOf(r.usage.Keys);
    ReadingStarted(metrics.log, readings, billing, r);
    ListingSteps(dates, r.usage.Keys);
    hide IsCollected, IsCollecting;
    for j := 0 to |dates|
      invariant metrics.Valid()
      invariant IsCollecting(metrics.log, readings, billing, r, dates[..j])
    {
      DateDone(metrics.log, readings, billing, r, dates[..j], dates[j]);
      metrics.Add(dates[j], r.category, RealAt(r.usage, dates[j]), RealAt(r.factors, dates[j]), excludeFromTotals);
    }
    ReadingFinished(metrics.log, readings, billing, r, dates);
  }

  method Collect(readings: seq<Reading>, billing: string) returns (metrics: HistogramMetrics)
    ensures fresh(metrics) && metrics.Valid()
    ensures IsCollected(metrics.log, readings, billing)
  {
    metrics := new HistogramMetrics();
    assert IsCollected(metrics.log, [], billing);
    hide *;
    for k := 0 to |readings|
      invariant fresh(metrics) && metrics.Valid()
      invariant IsCollected(metrics.log, readings[..k], billing)
    {
      CollectReading(metrics, readings[..k], readings[k], billing);
      assert readings[..k + 1] == readings[..k] + [readings[k]];
    }
    assert readings[..|readings|] == readings;
  }

  /** The billing category's reading for the date, if it counts. */
  ghost function BillingRate(readings: seq<Reading>, billing: string, date: string): real {
    if readings == [] then 0.0 else
      var r := readings[|readings| - 1];
      if r.category == billing && RealAt(r.usage, date) > 0.0 then r.usage[date]
      else BillingRate(readings[..|readings| - 1], billing, date)
  }

  /** What the shares of a date are to add up to under a share model. */
  ghost function Whole(readings: seq<Reading>, p: Pricing, date: string): real {
    if p.costModel == "CHARGE_BACK" then BillingRate(readings, p.billingCategory, date) else 100.0
  }

  /** A date that has any usage row hands out the whole: 100, or the billing rate. */
  ghost predicate UsageMeetsTarget(readings: seq<Reading>, p: Pricing, rows: seq<AnalyticsTDO>, date: string) {
    IsShareModel(p.costModel) && RowCount(rows, date) > 0 ==>
      Within(DateTotal(rows, date), Whole(readings, p, date), RowCount(rows, date), p.decimals)
  }

  /** The requests of the category are known: a positive usage and factor. */
  ghost predicate HasRequests(readings: seq<Reading>, billing: string, date: string) {
    exists r :: r in readings && r.category != billing && RealAt(r.usage, date) > 0.0 && RealAt(r.factors, date) > 0.0
  }

  /** The request shares hand out the whole if any request is known, and nothing otherwise. */
  ghost predicate RequestsMeetTarget(readings: seq<Reading>, p: Pricing, rows: seq<AnalyticsTDO>, date: string) {
    IsShareModel(p.costModel) ==>
      Within(DateTotal(rows, date),
             if HasRequests(readings, p.billingCategory, date) then Whole(readings, p, date) else 0.0,
             RowCount(rows, date), p.decimals)
  }

  /** With one call for each date and category, what is on record is what was read. */
  lemma OnRecord(m: Measure, log: seq<Sample>, date: string, s: Sample)
    requires OneEach(log) && s in log && CountsOn(s, date)
    ensures s.category in Latest(m, log, date) && Latest(m, log, date)[s.category] == Amount(m, s)
  {
    CountedIsOnRecord(m, log, date, s);
    LatestComesFromLog(m, log, date, s.category);
  }

  lemma {:induction false} BillingRateIsRead(readings: seq<Reading>, billing: string, date: string)
    ensures BillingRate(readings, billing, date) == 0.0 ==>
              forall r :: r in readings && r.category == billing ==> RealAt(r.usage, date) <= 0.0
    ensures BillingRate(readings, billing, date) != 0.0 ==>
              exists r :: r in readings && r.category == billing && RealAt(r.usage, date) > 0.0
                          && RealAt(r.usage, date) == BillingRate(readings, billing, date)
  {
    if readings != [] {
      BillingRateIsRead(readings[..|readings| - 1], billing, date);
    }
  }

  lemma RateIsBillingRate(readings: seq<Reading>, p: Pricing, log: seq<Sample>, date: string)
    requires IsCollected(log, readings, p.billingCategory) && DistinctCategories(readings)
    ensures Rate(log, p, date) == BillingRate(readings, p.billingCategory, date)
  {
    var billing := p.billingCategory;
    BillingRateIsRead(readings, billing, date);
    if BillingRate(readings, billing, date) != 0.0 {
      var r :| r in readings && r.category == billing && RealAt(r.usage, date) > 0.0
               && RealAt(r.usage, date) == BillingRate(readings, billing, date);
      var s := SampleOf(r, date, billing);
      assert IsSampleOf(readings, billing, s);
      OnRecord(Usage, log, date, s);
    } else if billing in Latest(Usage, log, date) {
      LatestComesFromLog(Usage, log, date, billing);
      assert false;
    }
  }

  lemma {:induction false} TotalNonNegative(m: Measure, log: seq<Sample>, date: string)
    ensures Total(m, log, date) >= 0.0
  {
    if log != [] {
      TotalNonNegative(m, log[..|log| - 1], date);
      var s := log[|log| - 1];
      if s.usage > 0.0 {
        AmountNonNegative(m, s);
      }
    }
  }

  lemma {:induction false} TotalPositive(m: Measure, log: seq<Sample>, date: string, s: Sample)
    requires s in log && CountsOn(s, date) && !s.excluded && Amount(m, s) > 0.0
    ensures Total(m, log, date) > 0.0
  {
    var rest, last := log[..|log| - 1], log[|log| - 1];
    if s in rest {
      TotalPositive(m, rest, date, s);
      if last.usage > 0.0 {
        AmountNonNegative(m, last);
      }
    } else {
      TotalNonNegative(m, rest, date);
    }
  }

  lemma {:induction false} TotalZero(m: Measure, log: seq<Sample>, date: string)
    requires forall s :: s in log && CountsOn(s, date) && !s.excluded ==> Amount(m, s) == 0.0
    ensures Total(m, log, date) == 0.0
  {
    if log != [] {
      TotalZero(m, log[..|log| - 1], date);
    }
  }

  lemma RequestsPositive(s: Sample)
    requires s.usage > 0.0 && s.factor > 0.0
    ensures Amount(Requests, s) > 0.0
  {
  }

  lemma TotalsOfReadings(readings: seq<Reading>, p: Pricing, log: seq<Sample>, pairs: seq<(string, string)>,
                         date: string)
    requires IsCollected(log, readings, p.billingCategory) && IsExported(log, p, pairs)
    ensures RowCount(Rows(Usage, log, p, pairs), date) > 0 ==> Total(Usage, log, date) > 0.0
    ensures if HasRequests(readings, p.billingCategory, date) then Total(Requests, log, date) > 0.0
            else Total(Requests, log, date) == 0.0
  {
    var billing := p.billingCategory;
    if RowCount(Rows(Usage, log, p, pairs), date) > 0 {
      RowsOnDate(Usage, log, p, pairs, date);
      CategoriesListed(pairs, date);
      var c := CategoriesOn(pairs, date)[0];
      assert (date, c) in pairs;
      LatestComesFromLog(Usage, log, date, c);
      var s :| s in log && CountsOn(s, date) && s.category == c;
      assert IsSampleOf(readings, billing, s);
      TotalPositive(Usage, log, date, s);
    }
    if HasRequests(readings, billing, date) {
      var r :| r in readings && r.category != billing && RealAt(r.usage, date) > 0.0 && RealAt(r.factors, date) > 0.0;
      var s := SampleOf(r, date, billing);
      assert IsSampleOf(readings, billing, s);
      RequestsPositive(s);
      TotalPositive(Requests, log, date, s);
    } else {
      forall s | s in log && CountsOn(s, date) && !s.excluded
        ensures Amount(Requests, s) == 0.0
      {
        assert IsSampleOf(readings, billing, s);
      }
      TotalZero(Requests, log, date);
    }
  }

  lemma CollectedTotals(readings: seq<Reading>, log: seq<Sample>, date: string, billing: string)
    requires IsCollected(log, readings, billing) && DistinctCategories(readings)
    ensures ExcludesBilling(log, billing) && AddedOnce(log, date, billing)
  {
    forall s | s in log
      ensures s.excluded <==> s.category == billing
    {
      assert IsSampleOf(readings, billing, s);
    }
  }

  ghost predicate IsCostOf(m: Measure, readings: seq<Reading>, p: Pricing, r: Reading, e: AnalyticsTDO) {
    && r.category == e.stack && e.stack != p.billingCategory && RealAt(r.usage, e.date) > 0.0
    && e.usage == CalculateHistogramCost(Contribution(m, r, p.billingCategory, e.date),
                                         ReadTotal(m, readings, p.billingCategory, e.date),
                                         BillingRate(readings, p.billingCategory, e.date), p.costModel, p.decimals)
  }

  /** The row is the cost of a reading: its usage or requests, against everything
      read for the date. */
  ghost predicate IsReadingCost(m: Measure, readings: seq<Reading>, p: Pricing, e: AnalyticsTDO) {
    exists r :: r in readings && IsCostOf(m, readings, p, r, e)
  }

  lemma ReadingIsOnRecord(m: Measure, readings: seq<Reading>, p: Pricing, log: seq<Sample>, r: Reading, date: string)
    requires IsCollected(log, readings, p.billingCategory) && DistinctCategories(readings) && r in readings
    requires r.category != p.billingCategory && RealAt(r.usage, date) > 0.0
    ensures r.category in Latest(m, log, date)
    ensures Latest(m, log, date)[r.category] == Contribution(m, r, p.billingCategory, date)
  {
    var s := SampleOf(r, date, p.billingCategory);
    assert IsSampleOf(readings, p.billingCategory, s);
    OnRecord(m, log, date, s);
  }

  lemma RecordIsRead(readings: seq<Reading>, p: Pricing, log: seq<Sample>, date: string, category: string)
    returns (r: Reading)
    requires IsCollected(log, readings, p.billingCategory) && category in Latest(Usage, log, date)
    ensures r in readings && r.category == category && RealAt(r.usage, date) > 0.0
  {
    LatestComesFromLog(Usage, log, date, category);
    var s :| s in log && CountsOn(s, date) && s.category == category;
    assert IsSampleOf(readings, p.billingCategory, s);
    r :| r in readings && s.date in r.usage && s == SampleOf(r, s.date, p.billingCategory);
  }

  lemma RowsAreReadingCosts(m: Measure, readings: seq<Reading>, p: Pricing, log: seq<Sample>,
                            pairs: seq<(string, string)>, e: AnalyticsTDO)
    requires IsCollected(log, readings, p.billingCategory) && DistinctCategories(readings)
    requires IsExported(log, p, pairs)
    ensures e in Rows(m, log, p, pairs) <==> IsReadingCost(m, readings, p, e)
  {
    RowsAreCosts(m, log, p, pairs);
    RateIsBillingRate(readings, p, log, e.date);
    assert IsPriced(log, p, (e.date, e.stack)) <==> (e.date, e.stack) in pairs;
    assert Total(m, log, e.date) == ReadTotal(m, readings, p.billingCategory, e.date);
    hide CalculateHistogramCost, Latest, Total, ReadTotal, Contribution, BillingRate, Rows, IsExported;
    if IsPriced(log, p, (e.date, e.stack)) {
      var r := RecordIsRead(readings, p, log, e.date, e.stack);
      ReadingIsOnRecord(m, readings, p, log, r, e.date);
      assert e in Rows(m, log, p, pairs) <==> IsCostOf(m, readings, p, r, e);
    }
    if r :| r in readings && IsCostOf(m, readings, p, r, e) {
      ReadingIsOnRecord(m, readings, p, log, r, e.date);
      ReadingIsOnRecord(Usage, readings, p, log, r, e.date);
      assert IsPriced(log, p, (e.date, e.stack));
    }
  }

  /** Categories read once each: every date's shares add up to the whole. */
  lemma DumpMeetsTarget(readings: seq<Reading>, p: Pricing, log: seq<Sample>, pairs: seq<(string, string)>,
                        date: string)
    requires IsCollected(log, readings, p.billingCategory) && DistinctCategories(readings)
    requires IsExported(log, p, pairs)
    ensures UsageMeetsTarget(readings, p, Rows(Usage, log, p, pairs), date)
    ensures RequestsMeetTarget(readings, p, Rows(Requests, log, p, pairs), date)
  {
    hide IsCollected, DistinctCategories, IsExported, Rows, Rate, BillingRate, DateTotal, RowCount,
      Total, HasRequests, Within, IsShareModel, ExcludesBilling, AddedOnce;
    CollectedTotals(readings, log, date, p.billingCategory);
    TotalsOfReadings(readings, p, log, pairs, date);
    RateIsBillingRate(readings, p, log, date);
    ExportMeetsTarget(Usage, log, p, pairs, date);
    ExportMeetsTarget(Requests, log, p, pairs, date);
  }

  /** Collect everything, then export. */
  method DumpHistogram(readings: seq<Reading>, p: Pricing)
    returns (usageExport: seq<AnalyticsTDO>, requestsExport: seq<AnalyticsTDO>)
    ensures exists log :: IsCollected(log, readings, p.billingCategory)
                          && AreExports(usageExport, requestsExport, log, p)
    ensures DistinctCategories(readings) ==>
              forall e :: e in usageExport <==> IsReadingCost(Usage, readings, p, e)
    ensures DistinctCategories(readings) ==>
              forall e :: e in requestsExport <==> IsReadingCost(Requests, readings, p, e)
    ensures DistinctCategories(readings) ==> forall date :: UsageMeetsTarget(readings, p, usageExport, date)
    ensures DistinctCategories(readings) ==> forall date :: RequestsMeetTarget(readings, p, requestsExport, date)
  {
    var metrics := Collect(readings, p.billingCategory);
    ghost var log := metrics.log;
    usageExport, requestsExport := metrics.ExportResource(p);
    ghost var pairs :| IsExported(log, p, pairs)
                       && usageExport == Rows(Usage, log, p, pairs) && requestsExport == Rows(Requests, log, p, pairs);
    hide *;
    if DistinctCategories(readings) {
      forall e
        ensures e in usageExport <==> IsReadingCost(Usage, readings, p, e)
        ensures e in requestsExport <==> IsReadingCost(Requests, readings, p, e)
      {
        RowsAreReadingCosts(Usage, readings, p, log, pairs, e);
        RowsAreReadingCosts(Requests, readings, p, log, pairs, e);
      }
      forall date
        ensures UsageMeetsTarget(readings, p, usageExport, date)
        ensures RequestsMeetTarget(readings, p, requestsExport, date)
      {
        DumpMeetsTarget(readings, p, log, pairs, date);
      }
    }
  }
}
