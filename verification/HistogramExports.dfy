/** Collecting the readings of all categories and exporting their cost shares. */
module HistogramExports {
  import opened GoMaps
  import opened RealSums
  import opened Rounding
  import opened Histograms

  ghost predicate NoRepeats<T(!new)>(xs: seq<T>) {
    forall i, j :: 0 <= i < j < |xs| ==> xs[i] != xs[j]
  }

  /** The pair of date and category gets a row. */
  ghost predicate IsPriced(log: seq<Sample>, p: Pricing, q: (string, string)) {
    q.1 in Latest(Usage, log, q.0) && q.1 != p.billingCategory
  }

  /** The rows of the dates in `done`. */
  ghost predicate IsExportedFor(log: seq<Sample>, p: Pricing, done: seq<string>, pairs: seq<(string, string)>) {
    && NoRepeats(pairs)
    && forall q :: q in pairs <==> q.0 in done && IsPriced(log, p, q)
  }

  ghost function Rate(log: seq<Sample>, p: Pricing, date: string): real {
    RealAt(Latest(Usage, log, date), p.billingCategory)
  }

  ghost function CostOn(m: Measure, log: seq<Sample>, p: Pricing, date: string): string -> real {
    (c: string) => CalculateHistogramCost(RealAt(Latest(m, log, date), c), Total(m, log, date),
                                         Rate(log, p, date), p.costModel, p.decimals)
  }

  ghost function Rows(m: Measure, log: seq<Sample>, p: Pricing, pairs: seq<(string, string)>): seq<AnalyticsTDO> {
    if pairs == [] then [] else
      var q := pairs[|pairs| - 1];
      Rows(m, log, p, pairs[..|pairs| - 1]) + [AnalyticsTDO(q.1, CostOn(m, log, p, q.0)(q.1), q.0)]
  }

  ghost predicate IsProgress(usageExport: seq<AnalyticsTDO>, requestsExport: seq<AnalyticsTDO>, log: seq<Sample>,
                             p: Pricing,
                             done: seq<string>, pairs: seq<(string, string)>) {
    && IsExportedFor(log, p, done, pairs)
    && usageExport == Rows(Usage, log, p, pairs) && requestsExport == Rows(Requests, log, p, pairs)
  }

  lemma NothingExported(log: seq<Sample>, p: Pricing)
    ensures IsProgress([], [], log, p, [], [])
  {
  }

  ghost predicate HoldsOn(byDate: map<string, map<string, real>>, totals: map<string, real>, m: Measure,
                          log: seq<Sample>, d: string) {
    && (d in byDate <==> Latest(m, log, d) != map[])
    && (d in byDate ==> byDate[d] == Latest(m, log, d))
    && RealAt(totals, d) == Total(m, log, d)
  }

  /** The maps hold what the calls in `log` add up to. */
  ghost predicate Holds(byDate: map<string, map<string, real>>, totals: map<string, real>, m: Measure,
                        log: seq<Sample>) {
    forall d :: HoldsOn(byDate, totals, m, log, d)
  }

  ghost predicate IsExported(log: seq<Sample>, p: Pricing, pairs: seq<(string, string)>) {
    && NoRepeats(pairs)
    && forall q :: q in pairs <==> IsPriced(log, p, q)
  }

  /** The two exports have the same rows in the same order, and these are the
      rows there should be. */
  ghost predicate AreExports(usageExport: seq<AnalyticsTDO>, requestsExport: seq<AnalyticsTDO>, log: seq<Sample>,
                             p: Pricing) {
    exists pairs :: IsExported(log, p, pairs)
                    && usageExport == Rows(Usage, log, p, pairs) && requestsExport == Rows(Requests, log, p, pairs)
  }

  lemma AllDatesDone(byDate: map<string, map<string, real>>, totals: map<string, real>, log: seq<Sample>, p: Pricing,
                     dates: seq<string>, pairs: seq<(string, string)>,
                     usageExport: seq<AnalyticsTDO>, requestsExport: seq<AnalyticsTDO>)
    requires Holds(byDate, totals, Usage, log) && IsListing(dates, byDate.Keys)
    requires IsProgress(usageExport, requestsExport, log, p, dates, pairs)
    ensures AreExports(usageExport, requestsExport, log, p)
    ensures IsExported(log, p, pairs)
    ensures usageExport == Rows(Usage, log, p, pairs) && requestsExport == Rows(Requests, log, p, pairs)
  {
    hide Latest, Total, Rows;
    forall q
      ensures q in pairs <==> IsPriced(log, p, q)
    {
      assert HoldsOn(byDate, totals, Usage, log, q.0);
    }
    assert IsExported(log, p, pairs);
  }

  /** The rows `before` and those of some categories of one more date. */
  ghost predicate IsExtended(p: Pricing, date: string, before: seq<(string, string)>, categories: seq<string>,
                             pairs: seq<(string, string)>) {
    && NoRepeats(pairs)
    && forall q :: q in pairs <==> q in before || (q.0 == date && q.1 in categories && q.1 != p.billingCategory)
  }

  lemma DateStarted(p: Pricing, date: string, before: seq<(string, string)>, categories: seq<string>)
    requires NoRepeats(before)
    ensures IsExtended(p, date, before, categories[..0], before)
  {
  }

  lemma CategoryDone(p: Pricing, date: string, before: seq<(string, string)>, categories: seq<string>, j: nat,
                     pairs: seq<(string, string)>)
    requires j < |categories| && categories[j] !in categories[..j] && forall c :: (date, c) !in before
    requires IsExtended(p, date, before, categories[..j], pairs)
    ensures IsExtended(p, date, before, categories[..j + 1],
                       if categories[j] == p.billingCategory then pairs else pairs + [(date, categories[j])])
  {
    assert categories[..j + 1] == categories[..j] + [categories[j]];
  }

  lemma DateFinished(log: seq<Sample>, p: Pricing, date: string, done: seq<string>, before: seq<(string, string)>,
                     categories: seq<string>, pairs: seq<(string, string)>)
    requires IsExportedFor(log, p, done, before) && IsExtended(p, date, before, categories, pairs)
    requires forall c :: c in categories <==> c in Latest(Usage, log, date)
    ensures IsExportedFor(log, p, done + [date], pairs)
  {
    hide Latest;
  }

  ghost function Put(byDate: map<string, map<string, real>>, date: string, category: string,
                     amount: real): map<string, map<string, real>> {
    byDate[date := (if date in byDate then byDate[date] else map[])[category := amount]]
  }

  /** One entry is set and no other entry changed. */
  ghost predicate IsPut(before: map<string, map<string, real>>, after: map<string, map<string, real>>, date: string,
                        category: string, amount: real) {
    && after.Keys == before.Keys + {date}
    && category in after[date] && after[date][category] == amount
    && (forall c :: c != category && c in after[date] <==> c != category && date in before && c in before[date])
    && (forall c :: c != category && c in after[date] ==> after[date][c] == before[date][c])
    && (forall d :: d != date && d in before ==> after[d] == before[d])
  }

  lemma PutIntoDate(before: map<string, map<string, real>>, byDate: map<string, map<string, real>>, date: string,
                    category: string, amount: real)
    requires byDate == if date in before then before else before[date := map[]]
    ensures byDate[date := byDate[date][category := amount]] == Put(before, date, category, amount)
    ensures IsPut(before, byDate[date := byDate[date][category := amount]], date, category, amount)
  {
  }

  lemma HoldsAfter(byDate: map<string, map<string, real>>, totals: map<string, real>, m: Measure, log: seq<Sample>,
                   s: Sample)
    requires Holds(byDate, totals, m, log)
    ensures s.usage <= 0.0 ==> Holds(byDate, totals, m, log + [s])
    ensures s.usage > 0.0 ==>
              Holds(Put(byDate, s.date, s.category, Amount(m, s)),
                    if s.excluded then totals else totals[s.date := RealAt(totals, s.date) + Amount(m, s)],
                    m, log + [s])
  {
    hide Latest, Total, Amount;
    var byDate' := if s.usage > 0.0 then Put(byDate, s.date, s.category, Amount(m, s)) else byDate;
    var totals' := if s.usage > 0.0 && !s.excluded then totals[s.date := RealAt(totals, s.date) + Amount(m, s)]
      else totals;
    forall d
      ensures HoldsOn(byDate', totals', m, log + [s], d)
    {
      assert HoldsOn(byDate, totals, m, log, d);
      Appended(m, log, s, d);
      if CountsOn(s, d) {
        assert s.category in Latest(m, log + [s], d);
      }
    }
  }

  lemma SameDates(usage: map<string, map<string, real>>, totalUsage: map<string, real>,
                  requests: map<string, map<string, real>>, totalRequests: map<string, real>,
                  log: seq<Sample>, d: string)
    requires Holds(usage, totalUsage, Usage, log) && Holds(requests, totalRequests, Requests, log)
    ensures d in usage <==> d in requests
    ensures d in usage ==> usage[d].Keys == requests[d].Keys
  {
    hide Latest, Total;
    assert HoldsOn(usage, totalUsage, Usage, log, d) && HoldsOn(requests, totalRequests, Requests, log, d);
    SameCategories(log, d);
    var u, r := Latest(Usage, log, d), Latest(Requests, log, d);
    assert u == map[] <==> u.Keys == {};
    assert r == map[] <==> r.Keys == {};
  }

  lemma RowAppended(m: Measure, log: seq<Sample>, p: Pricing, pairs: seq<(string, string)>, date: string,
                    category: string, cost: real)
    requires cost == CalculateHistogramCost(RealAt(Latest(m, log, date), category), Total(m, log, date),
                                             Rate(log, p, date), p.costModel, p.decimals)
    ensures Rows(m, log, p, pairs + [(date, category)]) == Rows(m, log, p, pairs) + [AnalyticsTDO(category, cost, date)]
  {
    assert (pairs + [(date, category)])[..|pairs|] == pairs;
  }

  lemma {:induction false} RowAt(m: Measure, log: seq<Sample>, p: Pricing, pairs: seq<(string, string)>, i: nat)
    requires i < |pairs|
    ensures |Rows(m, log, p, pairs)| == |pairs|
    ensures Rows(m, log, p, pairs)[i] == AnalyticsTDO(pairs[i].1, CostOn(m, log, p, pairs[i].0)(pairs[i].1), pairs[i].0)
  {
    hide CostOn;
    var n := |pairs| - 1;
    if i < n {
      RowAt(m, log, p, pairs[..n], i);
    } else if n > 0 {
      RowAt(m, log, p, pairs[..n], 0);
    }
  }

  ghost predicate IsCostRow(e: AnalyticsTDO, usage: map<string, map<string, real>>,
                            amounts: map<string, map<string, real>>, totals: map<string, real>, p: Pricing) {
    && e.date in usage && e.stack in usage[e.date] && e.stack != p.billingCategory
    && e.date in amounts && e.stack in amounts[e.date]
    && e.usage == CalculateHistogramCost(amounts[e.date][e.stack], RealAt(totals, e.date),
                                         RealAt(usage[e.date], p.billingCategory), p.costModel, p.decimals)
  }

  /** The rows are, for every date and category but billing, the cost of the amount
      on record, each once. */
  ghost predicate ListsCosts(rows: seq<AnalyticsTDO>, usage: map<string, map<string, real>>,
                             amounts: map<string, map<string, real>>, totals: map<string, real>, p: Pricing) {
    && (forall e :: e in rows <==> IsCostRow(e, usage, amounts, totals, p))
    && (forall i, j :: 0 <= i < j < |rows| ==> !(rows[i].date == rows[j].date && rows[i].stack == rows[j].stack))
  }

  lemma RowIsCost(m: Measure, log: seq<Sample>, p: Pricing, pairs: seq<(string, string)>, e: AnalyticsTDO,
                  usage: map<string, map<string, real>>, usageTotals: map<string, real>,
                  amounts: map<string, map<string, real>>, totals: map<string, real>)
    requires IsExported(log, p, pairs)
    requires Holds(usage, usageTotals, Usage, log) && Holds(amounts, totals, m, log)
    ensures IsCostRow(e, usage, amounts, totals, p)
       <==> (e.date, e.stack) in pairs && e.usage == CostOn(m, log, p, e.date)(e.stack)
  {
    hide Latest, Total, CalculateHistogramCost;
    assert HoldsOn(usage, usageTotals, Usage, log, e.date) && HoldsOn(amounts, totals, m, log, e.date);
    SameCategories(log, e.date);
    assert (e.date, e.stack) in pairs <==> IsPriced(log, p, (e.date, e.stack));
    assert e.stack in Latest(Usage, log, e.date) <==> e.stack in Latest(m, log, e.date);
  }

  lemma NoRows(m: Measure, log: seq<Sample>, p: Pricing)
    ensures Rows(m, log, p, []) == []
  {
  }

  lemma RowsAreCosts(m: Measure, log: seq<Sample>, p: Pricing, pairs: seq<(string, string)>)
    requires NoRepeats(pairs)
    ensures var rows := Rows(m, log, p, pairs);
            && (forall e :: e in rows <==> (e.date, e.stack) in pairs && e.usage == CostOn(m, log, p, e.date)(e.stack))
            && (forall i, j :: 0 <= i < j < |rows| ==>
                  !(rows[i].date == rows[j].date && rows[i].stack == rows[j].stack))
  {
    hide CostOn, Rows;
    var rows := Rows(m, log, p, pairs);
    assert |rows| == |pairs| by {
      if pairs == [] {
        NoRows(m, log, p);
      } else {
        RowAt(m, log, p, pairs, 0);
      }
    }
    forall i | 0 <= i < |rows|
      ensures rows[i] == AnalyticsTDO(pairs[i].1, CostOn(m, log, p, pairs[i].0)(pairs[i].1), pairs[i].0)
    {
      RowAt(m, log, p, pairs, i);
    }
    forall e ensures e in rows <==> (e.date, e.stack) in pairs && e.usage == CostOn(m, log, p, e.date)(e.stack) {
      if (e.date, e.stack) in pairs && e.usage == CostOn(m, log, p, e.date)(e.stack) {
        var i :| 0 <= i < |pairs| && pairs[i] == (e.date, e.stack);
        assert rows[i] == e;
      }
      if e in rows {
        var i :| 0 <= i < |rows| && rows[i] == e;
        assert pairs[i] == (e.date, e.stack) && pairs[i] in pairs;
      }
    }
    forall i, j | 0 <= i < j < |rows| ensures !(rows[i].date == rows[j].date && rows[i].stack == rows[j].stack) {
      assert pairs[i] != pairs[j];
    }
  }

  lemma RowsListCosts(m: Measure, log: seq<Sample>, p: Pricing, pairs: seq<(string, string)>,
                      usage: map<string, map<string, real>>, usageTotals: map<string, real>,
                      amounts: map<string, map<string, real>>, totals: map<string, real>)
    requires IsExported(log, p, pairs)
    requires Holds(usage, usageTotals, Usage, log) && Holds(amounts, totals, m, log)
    ensures ListsCosts(Rows(m, log, p, pairs), usage, amounts, totals, p)
  {
    assert NoRepeats(pairs);
    hide IsExported, Holds, IsCostRow, CostOn, Rows, NoRepeats;
    RowsAreCosts(m, log, p, pairs);
    forall e ensures e in Rows(m, log, p, pairs) <==> IsCostRow(e, usage, amounts, totals, p) {
      RowIsCost(m, log, p, pairs, e, usage, usageTotals, amounts, totals);
    }
  }

  class HistogramMetrics {
    var usageByDate: map<string, map<string, real>>
    var requestsByDate: map<string, map<string, real>>
    var totalUsage: map<string, real>
    var totalRequests: map<string, real>
    /** The calls of Add so far. */
    ghost var log: seq<Sample>

    ghost predicate Valid()
      reads this
    {
      && Holds(usageByDate, totalUsage, Usage, log)
      && Holds(requestsByDate, totalRequests, Requests, log)
    }

    constructor ()
      ensures Valid() && log == []
    {
      usageByDate, requestsByDate, totalUsage, totalRequests := map[], map[], map[], map[];
      log := [];
    }

    method Add(date: string, category: string, usage: real, requestFactor: real, excludeFromTotals: bool)
      requires Valid()
      modifies this
      ensures Valid()
      ensures log == old(log) + [Sample(date, category, usage, requestFactor, excludeFromTotals)]
      ensures usage <= 0.0 ==>
                && usageByDate == old(usageByDate) && requestsByDate == old(requestsByDate)
                && totalUsage == old(totalUsage) && totalRequests == old(totalRequests)
      ensures usage > 0.0 ==>
                var requests := if requestFactor > 0.0 then usage / requestFactor else 0.0;
                && IsPut(old(usageByDate), usageByDate, date, category, usage)
                && IsPut(old(requestsByDate), requestsByDate, date, category, requests)
                && totalUsage == (if excludeFromTotals then old(totalUsage)
                                  else old(totalUsage)[date := RealAt(old(totalUsage), date) + usage])
                && totalRequests == (if excludeFromTotals then old(totalRequests)
                                     else old(totalRequests)[date := RealAt(old(totalRequests), date) + requests])
    {
      hide Holds, HoldsOn, Put, IsPut, RealAt, Latest, Total, CountsOn;
      ghost var s := Sample(date, category, usage, requestFactor, excludeFromTotals);
      HoldsAfter(usageByDate, totalUsage, Usage, log, s);
      HoldsAfter(requestsByDate, totalRequests, Requests, log, s);
      SameDates(usageByDate, totalUsage, requestsByDate, totalRequests, log, date);
      log := log + [s];
      if usage <= 0.0 {
        return;
      }
      var requests := 0.0;
      if requestFactor > 0.0 {
        requests := usage / requestFactor;
      }
      Record(date, category, usage, requests);
      if !excludeFromTotals {
        totalUsage := totalUsage[date := RealAt(totalUsage, date) + usage];
        totalRequests := totalRequests[date := RealAt(totalRequests, date) + requests];
      }
    }

    /** The part of Add that replaces what is on record for the category. */
    method Record(date: string, category: string, usage: real, requests: real)
      requires date in usageByDate <==> date in requestsByDate
      modifies this`usageByDate, this`requestsByDate
      ensures usageByDate == Put(old(usageByDate), date, category, usage)
      ensures requestsByDate == Put(old(requestsByDate), date, category, requests)
      ensures IsPut(old(usageByDate), usageByDate, date, category, usage)
      ensures IsPut(old(requestsByDate), requestsByDate, date, category, requests)
    {
      if date !in usageByDate {
        usageByDate := usageByDate[date := map[]];
        requestsByDate := requestsByDate[date := map[]];
      }
      PutIntoDate(old(usageByDate), usageByDate, date, category, usage);
      PutIntoDate(old(requestsByDate), requestsByDate, date, category, requests);
      usageByDate := usageByDate[date := usageByDate[date][category := usage]];
      requestsByDate := requestsByDate[date := requestsByDate[date][category := requests]];
    }

    /** One row for every category but billing on every date, in the maps' order. */
    method ExportResource(p: Pricing) returns (usageExport: seq<AnalyticsTDO>, requestsExport: seq<AnalyticsTDO>)
      requires Valid()
      ensures AreExports(usageExport, requestsExport, log, p)
      ensures ListsCosts(usageExport, usageByDate, usageByDate, totalUsage, p)
      ensures ListsCosts(requestsExport, usageByDate, requestsByDate, totalRequests, p)
    {
      usageExport, requestsExport := [], [];
      ghost var pairs: seq<(string, string)> := [];
      var dates := ListOf(usageByDate.Keys);
      ListingSteps(dates, usageByDate.Keys);
      NothingExported(log, p);
      ghost var byDate, totals := usageByDate, totalUsage;
      ghost var requests, requestTotals := requestsByDate, totalRequests;
      assert Holds(byDate, totals, Usage, log) && Holds(requests, requestTotals, Requests, log);
      hide *;
      for i := 0 to |dates|
        invariant IsProgress(usageExport, requestsExport, log, p, dates[..i], pairs)
      {
        usageExport, requestsExport, pairs := ExportDate(p, dates[i], usageExport, requestsExport, pairs, dates[..i]);
      }
      AllDatesDone(byDate, totals, log, p, dates, pairs, usageExport, requestsExport);
      RowsListCosts(Usage, log, p, pairs, byDate, totals, byDate, totals);
      RowsListCosts(Requests, log, p, pairs, byDate, totals, requests, requestTotals);
    }

    /** The inner loop: the rows of one date, appended. */
    method ExportDate(p: Pricing, date: string, usageBefore: seq<AnalyticsTDO>, requestsBefore: seq<AnalyticsTDO>,
                      ghost before: seq<(string, string)>, ghost done: seq<string>)
      returns (usageExport: seq<AnalyticsTDO>, requestsExport: seq<AnalyticsTDO>, ghost pairs: seq<(string, string)>)
      requires Valid() && date in usageByDate && date !in done
      requires IsProgress(usageBefore, requestsBefore, log, p, done, before)
      ensures IsProgress(usageExport, requestsExport, log, p, done + [date], pairs)
    {
      usageExport, requestsExport, pairs := usageBefore, requestsBefore, before;
      var categoriesByDate := usageByDate[date];
      var billingRate := RealAt(categoriesByDate, p.billingCategory);
      SameDates(usageByDate, totalUsage, requestsByDate, totalRequests, log, date);
      assert HoldsOn(usageByDate, totalUsage, Usage, log, date);
      assert HoldsOn(requestsByDate, totalRequests, Requests, log, date);
      assert billingRate == Rate(log, p, date);
      var categories := ListOf(categoriesByDate.Keys);
      DateStarted(p, date, before, categories);
      forall ps | IsExtended(p, date, before, categories, ps)
        ensures IsExportedFor(log, p, done + [date], ps)
      {
        DateFinished(log, p, date, done, before, categories, ps);
      }
      hide Latest, Total, Rows, Rate, CalculateHistogramCost, IsExportedFor, IsExtended, Holds, HoldsOn;
      for j := 0 to |categories|
        invariant IsExtended(p, date, before, categories[..j], pairs)
        invariant usageExport == Rows(Usage, log, p, pairs)
        invariant requestsExport == Rows(Requests, log, p, pairs)
      {
        var category := categories[j];
        CategoryDone(p, date, before, categories, j, pairs);
        if category == p.billingCategory {
          continue;
        }
        var usageCost := CalculateHistogramCost(categoriesByDate[category], RealAt(totalUsage, date), billingRate,
                                                 p.costModel, p.decimals);
        var requestCost := CalculateHistogramCost(requestsByDate[date][category], RealAt(totalRequests, date),
                                                  billingRate, p.costModel, p.decimals);
        usageExport := usageExport + [AnalyticsTDO(category, usageCost, date)];
        requestsExport := requestsExport + [AnalyticsTDO(category, requestCost, date)];
        RowAppended(Usage, log, p, pairs, date, category, usageCost);
        RowAppended(Requests, log, p, pairs, date, category, requestCost);
        pairs := pairs + [(date, category)];
      }
      assert categories[..|categories|] == categories;
    }
  }

  // -------------------------------------------------- what a date's rows add up to

  ghost function DateTotal(rows: seq<AnalyticsTDO>, date: string): real {
    if rows == [] then 0.0 else
      var rest, row := rows[..|rows| - 1], rows[|rows| - 1];
      DateTotal(rest, date) + (if row.date == date then row.usage else 0.0)
  }

  ghost function RowCount(rows: seq<AnalyticsTDO>, date: string): nat {
    if rows == [] then 0 else
      var rest, row := rows[..|rows| - 1], rows[|rows| - 1];
      RowCount(rest, date) + (if row.date == date then 1 else 0)
  }

  ghost function CategoriesOn(pairs: seq<(string, string)>, date: string): seq<string> {
    if pairs == [] then [] else
      var rest, q := pairs[..|pairs| - 1], pairs[|pairs| - 1];
      if q.0 == date then CategoriesOn(rest, date) + [q.1] else CategoriesOn(rest, date)
  }

  lemma {:induction false} CategoriesListed(pairs: seq<(string, string)>, date: string)
    requires NoRepeats(pairs)
    ensures NoRepeats(CategoriesOn(pairs, date))
    ensures forall c :: c in CategoriesOn(pairs, date) <==> (date, c) in pairs
  {
    if pairs != [] {
      var rest, q := pairs[..|pairs| - 1], pairs[|pairs| - 1];
      assert pairs == rest + [q];
      CategoriesListed(rest, date);
    }
  }

  lemma {:induction false} RowsOnDate(m: Measure, log: seq<Sample>, p: Pricing, pairs: seq<(string, string)>,
                                      date: string)
    ensures DateTotal(Rows(m, log, p, pairs), date) == SeqSum(CategoriesOn(pairs, date), CostOn(m, log, p, date))
    ensures RowCount(Rows(m, log, p, pairs), date) == |CategoriesOn(pairs, date)|
  {
    if pairs != [] {
      var rest, q := pairs[..|pairs| - 1], pairs[|pairs| - 1];
      RowsOnDate(m, log, p, rest, date);
      var rows := Rows(m, log, p, rest);
      assert Rows(m, log, p, pairs)[..|rows|] == rows;
      assert q.0 == date ==> CategoriesOn(pairs, date)[..|CategoriesOn(rest, date)|] == CategoriesOn(rest, date);
    }
  }

  ghost predicate Within(x: real, exact: real, n: nat, decimals: int) {
    exact - n as real * HalfUnit(decimals) <= x <= exact + n as real * HalfUnit(decimals)
  }

  /** Whatever the order of the maps, the rows of a date add up to the unit price
      times what is on record, give or take half a unit in the last decimal for
      each row. */
  lemma ExportAddsUp(m: Measure, log: seq<Sample>, p: Pricing, pairs: seq<(string, string)>, date: string, exact: real)
    requires IsExported(log, p, pairs)
    requires exact == UnitPrice(Total(m, log, date), Rate(log, p, date), p.costModel)
                   * Recorded(m, log, date, p.billingCategory)
    ensures var rows := Rows(m, log, p, pairs);
            Within(DateTotal(rows, date), exact, RowCount(rows, date), p.decimals)
  {
    hide Latest, Total, SeqSum, RealSum, UnitPrice, HalfUnit, CalculateHistogramCost,
      Rows, DateTotal, RowCount, CategoriesOn;
    var cs := CategoriesOn(pairs, date);
    var total, rate := Total(m, log, date), Rate(log, p, date);
    var cost, value := CostOn(m, log, p, date), AmountOf(Latest(m, log, date));
    CategoriesListed(pairs, date);
    SameCategories(log, date);
    assert forall c :: c in cs <==> IsPriced(log, p, (date, c));
    ListingTotal(cs, Latest(m, log, date).Keys - {p.billingCategory}, value);
    RowsOnDate(m, log, p, pairs, date);
    forall c ensures UnitPrice(total, rate, p.costModel) * value(c) - HalfUnit(p.decimals) <= cost(c)
                  <= UnitPrice(total, rate, p.costModel) * value(c) + HalfUnit(p.decimals)
    {
      CostIsNear(value(c), total, rate, p.costModel, p.decimals);
    }
    SharesAddUp(cs, cost, value, UnitPrice(total, rate, p.costModel), HalfUnit(p.decimals));
    assert exact == UnitPrice(total, rate, p.costModel) * SeqSum(cs, value);
  }

  /** With every category added once, the rows of a date add up to the target:
      100, the billing rate, or the total. */
  lemma ExportMeetsTarget(m: Measure, log: seq<Sample>, p: Pricing, pairs: seq<(string, string)>, date: string)
    requires IsExported(log, p, pairs)
    requires ExcludesBilling(log, p.billingCategory) && AddedOnce(log, date, p.billingCategory)
    ensures var rows := Rows(m, log, p, pairs);
            Within(DateTotal(rows, date), Target(Total(m, log, date), Rate(log, p, date), p.costModel),
                   RowCount(rows, date), p.decimals)
  {
    hide *;
    var total := Total(m, log, date);
    TotalsMatch(m, log, date, p.billingCategory);
    PriceOfTotal(total, Rate(log, p, date), p.costModel);
    ExportAddsUp(m, log, p, pairs, date, Target(total, Rate(log, p, date), p.costModel));
  }
}
