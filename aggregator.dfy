/**
 * Aggregation of per-country records: `aggregateByYear` sums the emissions of
 * each year, `calculateYearlyVariation` adds the percentage change from the
 * preceding entry.
 */
module Aggregator {

  import opened Wrappers
  import opened JsValue
  import opened JsArray
  import opened Records

  /** The years that occur in data. */
  function YearsOf(data: seq<Rec>): set<int>
  {
    if data == [] then {}
    else YearsOf(data[..|data| - 1]) + {data[|data| - 1].year}
  }

  /** YearsOf holds exactly the years some record carries. */
  lemma {:induction false} YearsOfMembers(data: seq<Rec>, y: int)
    ensures y in YearsOf(data) <==> exists i :: 0 <= i < |data| && data[i].year == y
  {
    if data != [] {
      var init := data[..|data| - 1];
      YearsOfMembers(init, y);
      assert forall i :: 0 <= i < |init| ==> init[i] == data[i];
    }
  }

  /** The sum of the emissions of data's records of year y, added in data's order. */
  function TotalFor(data: seq<Rec>, y: int): real {
    if data == [] then 0.0
    else
      var last := data[|data| - 1];
      TotalFor(data[..|data| - 1], y) + (if last.year == y then last.emissions else 0.0)
  }

  /** A year that does not occur contributes nothing. */
  lemma {:induction false} TotalForAbsentYear(data: seq<Rec>, y: int)
    requires y !in YearsOf(data)
    ensures TotalFor(data, y) == 0.0
  {
    if data != [] {
      TotalForAbsentYear(data[..|data| - 1], y);
    }
  }

  /** The total of a concatenation is the sum of the totals. */
  lemma {:induction false} TotalForAppend(a: seq<Rec>, b: seq<Rec>, y: int)
    ensures TotalFor(a + b, y) == TotalFor(a, y) + TotalFor(b, y)
    decreases |b|
  {
    if b != [] {
      assert (a + b)[..|a + b| - 1] == a + b[..|b| - 1];
      TotalForAppend(a, b[..|b| - 1], y);
    } else {
      assert a + b == a;
    }
  }

  /** Taking out the record at index k takes its emissions out of the total. */
  lemma TotalForRemove(b: seq<Rec>, k: nat, y: int)
    requires k < |b|
    ensures TotalFor(b, y) == TotalFor(b[..k] + b[k + 1..], y) + (if b[k].year == y then b[k].emissions else 0.0)
  {
    assert b == (b[..k] + [b[k]]) + b[k + 1..];
    TotalForAppend(b[..k] + [b[k]], b[k + 1..], y);
    TotalForAppend(b[..k], [b[k]], y);
    TotalForAppend(b[..k], b[k + 1..], y);
    assert [b[k]][..0] == [];
  }

  /** Taking out the element at index k takes one occurrence out of the multiset. */
  lemma MultisetRemove<T>(b: seq<T>, k: nat)
    requires k < |b|
    ensures multiset(b[..k] + b[k + 1..]) == multiset(b) - multiset{b[k]}
  {
    assert b == b[..k] + [b[k]] + b[k + 1..];
  }

  /** The totals do not depend on the order of the records (exact arithmetic). */
  lemma {:induction false} TotalForPermutation(a: seq<Rec>, b: seq<Rec>, y: int)
    requires multiset(a) == multiset(b)
    ensures TotalFor(a, y) == TotalFor(b, y)
    decreases |a|
  {
    if a != [] {
      var x := a[|a| - 1];
      assert x in multiset(b);
      var k :| 0 <= k < |b| && b[k] == x;
      MultisetRemove(a, |a| - 1);
      MultisetRemove(b, k);
      assert a[..|a| - 1] + a[|a|..] == a[..|a| - 1];
      TotalForPermutation(a[..|a| - 1], b[..k] + b[k + 1..], y);
      TotalForRemove(b, k, y);
    }
  }

  /** `yearly` and `keys` hold exactly the years of `prefix`, with their totals, keys once each. */
  ghost predicate Summed(prefix: seq<Rec>, yearly: map<int, real>, keys: seq<int>)
  {
    && yearly.Keys == YearsOf(prefix)
    && (forall y :: y in yearly ==> yearly[y] == TotalFor(prefix, y))
    && (forall y :: y in yearly <==> y in keys)
    && (forall i, j :: 0 <= i < j < |keys| ==> keys[i] != keys[j])
  }

  /** One more record adds its emissions to its year's entry, creating it (and its key) when new. */
  lemma SummedStep(data: seq<Rec>, n: nat, yearly: map<int, real>, keys: seq<int>,
                   yearly': map<int, real>, keys': seq<int>)
    requires n < |data| && Summed(data[..n], yearly, keys)
    requires yearly' == yearly[data[n].year := (if data[n].year in yearly then yearly[data[n].year] else 0.0) + data[n].emissions]
    requires keys' == if data[n].year in yearly then keys else keys + [data[n].year]
    ensures Summed(data[..n + 1], yearly', keys')
  {
    assert data[..n + 1][..n] == data[..n];
    if data[n].year !in yearly {
      TotalForAbsentYear(data[..n], data[n].year);
    }
  }

  /**
   * The `forEach` loop of lines 202-207 on the object `yearlyAggregation`: the
   * dictionary ends up holding every year's total, and `keys` lists its keys
   * once each, in the order they were first set.
   */
  method SumByYear(data: seq<Rec>) returns (yearly: map<int, real>, keys: seq<int>)
    ensures yearly.Keys == YearsOf(data)
    ensures forall y :: y in yearly ==> yearly[y] == TotalFor(data, y)
    ensures forall y :: y in yearly <==> y in keys
    ensures forall i, j :: 0 <= i < j < |keys| ==> keys[i] != keys[j]
  {
    yearly, keys := map[], [];
    var n := 0;
    while n < |data|
      invariant 0 <= n <= |data|
      invariant Summed(data[..n], yearly, keys)
    {
      var item := data[n];
      ghost var before, keysBefore := yearly, keys;
      if item.year !in yearly || yearly[item.year] == 0.0 {
        if item.year !in yearly {
          keys := keys + [item.year];
        }
        yearly := yearly[item.year := 0.0];
      }
      ghost var base := if item.year in before then before[item.year] else 0.0;
      assert yearly == before[item.year := base];
      yearly := yearly[item.year := yearly[item.year] + item.emissions];
      SummedStep(data, n, before, keysBefore, yearly, keys);
      n := n + 1;
    }
    assert data[..n] == data;
  }

  /** `Object.entries(yearlyAggregation).map(...)`, lines 209-212, with the keys in `keys` order. */
  function Entries(yearly: map<int, real>, keys: seq<int>): (entries: seq<YearTotal>)
    requires forall i :: 0 <= i < |keys| ==> keys[i] in yearly
    ensures |entries| == |keys|
    ensures forall i :: 0 <= i < |keys| ==> entries[i].year == keys[i] && entries[i].totalEmissions == yearly[keys[i]]
  {
    seq(|keys|, i requires 0 <= i < |keys| => YearTotal(keys[i], yearly[keys[i]]))
  }

  /** The entries built from SumByYear's keys: one per year, with that year's total. */
  lemma EntriesFacts(data: seq<Rec>, yearly: map<int, real>, keys: seq<int>)
    requires yearly.Keys == YearsOf(data)
    requires forall y :: y in yearly ==> yearly[y] == TotalFor(data, y)
    requires forall y :: y in yearly <==> y in keys
    requires forall i, j :: 0 <= i < j < |keys| ==> keys[i] != keys[j]
    ensures forall i :: 0 <= i < |keys| ==> keys[i] in yearly
    ensures var entries := Entries(yearly, keys);
            (forall i, j :: 0 <= i < j < |entries| ==> entries[i].year != entries[j].year) &&
            (forall x :: x in entries ==> x.year in YearsOf(data) && x.totalEmissions == TotalFor(data, x.year)) &&
            (forall y :: y in YearsOf(data) ==> exists k :: 0 <= k < |entries| && entries[k].year == y)
  {
    assert forall i :: 0 <= i < |keys| ==> keys[i] in keys;
    var entries := Entries(yearly, keys);
    forall y | y in YearsOf(data) ensures exists k :: 0 <= k < |entries| && entries[k].year == y {
      var k :| 0 <= k < |keys| && keys[k] == y;
      assert entries[k].year == y;
    }
  }

  /** Sorting entries with distinct years orders them strictly and keeps every entry. */
  lemma SortedEntries(data: seq<Rec>, entries: seq<YearTotal>)
    requires forall i, j :: 0 <= i < j < |entries| ==> entries[i].year != entries[j].year
    requires forall x :: x in entries ==> x.year in YearsOf(data) && x.totalEmissions == TotalFor(data, x.year)
    requires forall y :: y in YearsOf(data) ==> exists k :: 0 <= k < |entries| && entries[k].year == y
    ensures var totals := SortBy(entries, TotalYear);
            (forall i, j :: 0 <= i < j < |totals| ==> totals[i].year < totals[j].year) &&
            (forall i :: 0 <= i < |totals| ==>
               totals[i].year in YearsOf(data) && totals[i].totalEmissions == TotalFor(data, totals[i].year)) &&
            (forall y :: y in YearsOf(data) ==> exists i :: 0 <= i < |totals| && totals[i].year == y)
  {
    SortByDistinctKeys(entries, TotalYear);
    SortByMembers(entries, TotalYear);
    var totals := SortBy(entries, TotalYear);
    forall y | y in YearsOf(data) ensures exists i :: 0 <= i < |totals| && totals[i].year == y {
      var k :| 0 <= k < |entries| && entries[k].year == y;
      assert entries[k] in totals;
    }
    forall i | 0 <= i < |totals|
      ensures totals[i].year in YearsOf(data) && totals[i].totalEmissions == TotalFor(data, totals[i].year)
    {
      assert totals[i] in entries;
    }
  }

  /**
   * `aggregateByYear(data)`, lines 199-215: one entry per distinct year,
   * strictly ascending, each holding the sum of that year's emissions.
   */
  method AggregateByYear(data: seq<Rec>) returns (totals: seq<YearTotal>)
    ensures forall i, j :: 0 <= i < j < |totals| ==> totals[i].year < totals[j].year
    ensures forall i :: 0 <= i < |totals| ==>
              totals[i].year in YearsOf(data) && totals[i].totalEmissions == TotalFor(data, totals[i].year)
    ensures forall y :: y in YearsOf(data) ==> exists i :: 0 <= i < |totals| && totals[i].year == y
    ensures data == [] ==> totals == []
  {
    var yearly, keys := SumByYear(data);
    EntriesFacts(data, yearly, keys);
    // `Object.entries(yearlyAggregation).map(([year, emissions]) => ({year, totalEmissions}))`
    var entries := Entries(yearly, keys);
    // `.sort((a, b) => a.year - b.year)`
    SortedEntries(data, entries);
    totals := SortBy(entries, TotalYear);
  }

  /** `prev > 0 ? (cur - prev) / prev * 100 : 0`, before rounding (lines 224-226 and 133-135). */
  function PercentChange(previous: real, current: real): real {
    if previous > 0.0 then (current - previous) / previous * 100.0 else 0.0
  }

  /** The change applied to a positive previous total gives back the current total. */
  lemma PercentChangeRoundTrip(previous: real, current: real)
    requires previous > 0.0
    ensures previous + previous * PercentChange(previous, current) / 100.0 == current
  {
    var q := (current - previous) / previous;
    assert q * previous == current - previous;
  }

  /** The sign of the change follows the direction of the totals; a non-negative total never falls by more than 100%. */
  lemma PercentChangeSign(previous: real, current: real)
    requires previous > 0.0
    ensures current > previous ==> PercentChange(previous, current) > 0.0
    ensures current < previous ==> PercentChange(previous, current) < 0.0
    ensures current == previous ==> PercentChange(previous, current) == 0.0
    ensures current >= 0.0 ==> PercentChange(previous, current) >= -100.0
  {
    var q := (current - previous) / previous;
    assert q * previous == current - previous;
  }

  /** The entry at index i of the `map` callback of lines 220-232. */
  function VariationAt(totals: seq<YearTotal>, i: nat): YearVariation
    requires i < |totals|
  {
    var current := totals[i];
    if i == 0 then YearVariation(current.year, current.totalEmissions, 0.0)
    else
      var previous := totals[i - 1];
      YearVariation(current.year, current.totalEmissions,
                    ToFixed2(PercentChange(previous.totalEmissions, current.totalEmissions)))
  }

  /**
   * `calculateYearlyVariation(aggregatedData)`, lines 217-233: null and empty
   * give []; otherwise each entry keeps its year and total and gains the
   * rounded percentage change from the entry before it (0 for the first entry
   * and whenever the previous total is not positive).
   */
  function CalculateYearlyVariation(aggregated: Option<seq<YearTotal>>): (r: seq<YearVariation>)
    ensures aggregated.None? ==> r == []
    ensures aggregated.Some? ==> |r| == |aggregated.value|
    ensures aggregated.Some? ==> forall i :: 0 <= i < |r| ==>
              r[i].year == aggregated.value[i].year && r[i].totalEmissions == aggregated.value[i].totalEmissions
    ensures |r| > 0 ==> r[0].variation == 0.0
    ensures aggregated.Some? ==> forall i :: 0 < i < |r| && aggregated.value[i - 1].totalEmissions <= 0.0 ==>
              r[i].variation == 0.0
    ensures aggregated.Some? ==> forall i :: 0 < i < |r| ==>
              r[i].variation == ToFixed2(PercentChange(aggregated.value[i - 1].totalEmissions, aggregated.value[i].totalEmissions))
  {
    match aggregated
    case None => []
    case Some(totals) =>
      if |totals| == 0 then []
      else seq(|totals|, i requires 0 <= i < |totals| => VariationAt(totals, i))
  }

  /** A rising total never shows a negative variation, a falling one never a positive one. */
  lemma VariationFollowsTotals(aggregated: seq<YearTotal>, i: nat)
    requires 0 < i < |aggregated| && aggregated[i - 1].totalEmissions > 0.0
    ensures var v := CalculateYearlyVariation(Some(aggregated))[i].variation;
            && (aggregated[i].totalEmissions >= aggregated[i - 1].totalEmissions ==> v >= 0.0)
            && (aggregated[i].totalEmissions <= aggregated[i - 1].totalEmissions ==> v <= 0.0)
            && (aggregated[i].totalEmissions >= 0.0 ==> v >= -100.0)
  {
    var prev, cur := aggregated[i - 1].totalEmissions, aggregated[i].totalEmissions;
    PercentChangeSign(prev, cur);
    if cur >= 0.0 {
      ToFixed2Monotonic(-100.0, PercentChange(prev, cur));
      ToFixed2OfHundredths(-10000);
    }
  }

  /** Lines 217-233 on the series 100, 150, 0: variations 0, 50, -100. */
  lemma VariationExample()
    ensures var r := CalculateYearlyVariation(Some([YearTotal(1990, 100.0), YearTotal(1991, 150.0), YearTotal(1992, 0.0)]));
            |r| == 3 && r[0].variation == 0.0 && r[1].variation == 50.0 && r[2].variation == -100.0
  {
    ToFixed2OfHundredths(5000);
    ToFixed2OfHundredths(-10000);
  }

  /** A zero previous total gives variation 0, not a division by zero. */
  lemma VariationAfterZeroTotal()
    ensures var r := CalculateYearlyVariation(Some([YearTotal(1990, 0.0), YearTotal(1991, 50.0)]));
            |r| == 2 && r[0].variation == 0.0 && r[1].variation == 0.0
  {
  }

}
