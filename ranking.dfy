/**
 * The rankings of the dashboard: one country's figures with its growth and
 * place in the year's ranking, the top countries of a year, the most polluted
 * years of the world series, and the single most polluted year.
 */
module Ranking {

  import opened Wrappers
  import opened JsValue
  import opened JsArray
  import opened Records
  import opened Aggregator

  /** `item => item.entity === countryName && item.year === year` */
  function RecordOf(countryName: Value, year: int): Rec -> bool {
    (r: Rec) => r.entity == countryName && r.year == year
  }

  /**
   * `data.filter(item => item.year === year).sort((a, b) => b.emissions - a.emissions)`
   * (lines 137-138 and 164-166): one year's records, most emissions first,
   * ties in data's order.
   */
  function RankedForYear(data: seq<Rec>, year: int): (r: seq<Rec>)
    ensures multiset(r) == multiset(Filter(data, YearIs(year)))
    ensures |r| == |Filter(data, YearIs(year))|
    ensures forall i, j :: 0 <= i < j < |r| ==> r[i].emissions >= r[j].emissions
    ensures forall i :: 0 <= i < |r| ==> r[i].year == year && r[i] in data
    ensures forall x :: x in data && x.year == year ==> x in r
  {
    RankedMembers(data, year);
    SortBy(Filter(data, YearIs(year)), RecNegEmissions)
  }

  /** The ranking holds the year's records of data and all of them. */
  lemma RankedMembers(data: seq<Rec>, year: int)
    ensures var r := SortBy(Filter(data, YearIs(year)), RecNegEmissions);
            (forall i :: 0 <= i < |r| ==> r[i].year == year && r[i] in data) &&
            (forall x :: x in data && x.year == year ==> x in r)
  {
    var yearData := Filter(data, YearIs(year));
    var r := SortBy(yearData, RecNegEmissions);
    SortByMembers(yearData, RecNegEmissions);
    assert forall i :: 0 <= i < |r| ==> r[i] in yearData;
    forall x | x in data && x.year == year ensures x in r {
      FilterMember(data, YearIs(year), x);
    }
  }

  /** Whether data holds a record of that country and year. */
  predicate HasRecord(data: seq<Rec>, countryName: Value, year: int) {
    exists i :: 0 <= i < |data| && data[i].entity == countryName && data[i].year == year
  }

  /** In a ranking by descending emissions, every entry with more emissions than entry n comes before it. */
  lemma RankedAhead(ranked: seq<Rec>, n: nat)
    requires n < |ranked|
    requires forall i, j :: 0 <= i < j < |ranked| ==> ranked[i].emissions >= ranked[j].emissions
    ensures forall j :: 0 <= j < |ranked| && ranked[j].emissions > ranked[n].emissions ==> j < n
  {
  }

  /** The country has a record that year exactly when it appears in the year's ranking. */
  lemma RankedHasCountry(data: seq<Rec>, countryName: Value, year: int)
    ensures HasRecord(data, countryName, year) <==> FindIndex(RankedForYear(data, year), EntityIs(countryName)) >= 0
  {
    var ranked := RankedForYear(data, year);
    var k := FindIndex(ranked, EntityIs(countryName));
    if HasRecord(data, countryName, year) {
      var i :| 0 <= i < |data| && data[i].entity == countryName && data[i].year == year;
      assert data[i] in ranked;
      var j :| 0 <= j < |ranked| && ranked[j] == data[i];
      assert EntityIs(countryName)(ranked[j]);
    }
    if k >= 0 {
      assert ranked[k] in data;
      var i :| 0 <= i < |data| && data[i] == ranked[k];
      assert data[i].entity == countryName && data[i].year == year;
    }
  }

  /** The facts GlobalRank promises, about the 1-based index of the country's first ranked entry. */
  lemma RankFacts(data: seq<Rec>, countryName: Value, year: int)
    ensures var ranked := RankedForYear(data, year);
            var k := FindIndex(ranked, EntityIs(countryName)) + 1;
            0 <= k <= |ranked| &&
            (k == 0 <==> !HasRecord(data, countryName, year)) &&
            (k > 0 ==> ranked[k - 1].entity == countryName &&
                       (forall j :: 0 <= j < k - 1 ==> ranked[j].entity != countryName) &&
                       (forall j :: 0 <= j < |ranked| && ranked[j].emissions > ranked[k - 1].emissions ==> j < k - 1))
  {
    var ranked := RankedForYear(data, year);
    var k := FindIndex(ranked, EntityIs(countryName)) + 1;
    RankedHasCountry(data, countryName, year);
    if k > 0 {
      RankedAhead(ranked, k - 1);
    }
  }

  /**
   * `sortedByEmissions.findIndex(item => item.entity === countryName) + 1`,
   * lines 137-139: the 1-based place of the country's first entry in the
   * year's ranking, 0 when the country has no record that year. Every entry
   * with strictly more emissions is placed ahead of it.
   */
  function GlobalRank(data: seq<Rec>, countryName: Value, year: int): (k: int)
    ensures 0 <= k <= |RankedForYear(data, year)|
    ensures k == 0 <==> !HasRecord(data, countryName, year)
    ensures k > 0 ==> var ranked := RankedForYear(data, year);
              ranked[k - 1].entity == countryName &&
              (forall j :: 0 <= j < k - 1 ==> ranked[j].entity != countryName) &&
              (forall j :: 0 <= j < |ranked| && ranked[j].emissions > ranked[k - 1].emissions ==> j < k - 1)
  {
    RankFacts(data, countryName, year);
    FindIndex(RankedForYear(data, year), EntityIs(countryName)) + 1
  }

  /**
   * `parseFloat(growth.toFixed(2))` with the growth of lines 132-134: the change
   * from the first record of the year before, in percent and rounded to
   * hundredths; 0 when there is no such record or its emissions are not positive.
   */
  function Growth(data: seq<Rec>, countryName: Value, year: int, current: real): (g: real)
    ensures var prev := Find(data, RecordOf(countryName, year - 1));
            prev.Some? ==> g == ToFixed2(PercentChange(prev.value.emissions, current))
    ensures !HasRecord(data, countryName, year - 1) ==> g == 0.0
    ensures var prev := Find(data, RecordOf(countryName, year - 1));
            prev.Some? && prev.value.emissions > 0.0 ==>
              (current >= prev.value.emissions ==> g >= 0.0) && (g < 0.0 ==> current < prev.value.emissions)
  {
    var previous := Find(data, RecordOf(countryName, year - 1));
    var growth := if previous.Some? then PercentChange(previous.value.emissions, current) else 0.0;
    assert previous.Some? && previous.value.emissions > 0.0 ==>
             (current >= previous.value.emissions ==> growth >= 0.0) && (growth < 0.0 ==> current < previous.value.emissions) by {
      if previous.Some? && previous.value.emissions > 0.0 {
        PercentChangeSign(previous.value.emissions, current);
      }
    }
    assert !HasRecord(data, countryName, year - 1) ==> previous.None?;
    ToFixed2(growth)
  }

  /**
   * `getCountryWithGrowth(data, countryName, year)`, lines 126-147: null when
   * the country has no record that year; otherwise its first such record, with
   * the growth and its place in the year's ranking.
   */
  function CountryWithGrowth(data: seq<Rec>, countryName: Value, year: int): (r: Option<CountryGrowth>)
    ensures r.None? <==> !HasRecord(data, countryName, year)
    ensures r.Some? ==> r.value.record.entity == countryName && r.value.record.year == year
    ensures r.Some? ==> exists k :: 0 <= k < |data| && data[k] == r.value.record &&
                                   forall j :: 0 <= j < k ==> !(data[j].entity == countryName && data[j].year == year)
    ensures r.Some? ==> r.value.growth == Growth(data, countryName, year, r.value.record.emissions)
    ensures r.Some? ==> r.value.globalRank == Some(GlobalRank(data, countryName, year)) &&
                        r.value.globalRank.value > 0
  {
    var current := Find(data, RecordOf(countryName, year));
    if current.None? then
      assert !HasRecord(data, countryName, year) by {
        forall i | 0 <= i < |data| ensures !(data[i].entity == countryName && data[i].year == year) {
          assert !RecordOf(countryName, year)(data[i]);
        }
      }
      None
    else
      var globalRank := GlobalRank(data, countryName, year);
      Some(CountryGrowth(current.value, Growth(data, countryName, year, current.value.emissions),
                         if globalRank > 0 then Some(globalRank) else None))
  }

  /** `{country: item.entity, emissions: item.emissions, code: item.code}` (lines 168-172). */
  function ToCountryRank(item: Rec): CountryRank {
    CountryRank(item.entity, item.emissions, item.code)
  }

  /** The records a listing of year `year` was built from. */
  function CountrySources(r: seq<CountryRank>, year: int): (s: seq<Rec>)
    ensures |s| == |r|
    ensures forall i :: 0 <= i < |r| ==> s[i] == Rec(r[i].country, r[i].code, year, r[i].emissions)
  {
    seq(|r|, i requires 0 <= i < |r| => Rec(r[i].country, r[i].code, year, r[i].emissions))
  }

  /** One year's records are a sub-multiset of the data. */
  lemma YearDataSubMultiset(data: seq<Rec>, year: int)
    ensures multiset(Filter(data, YearIs(year))) <= multiset(data)
  {
    FilterCount(data, YearIs(year));
  }

  /**
   * The single-country mode of getTopCountries, lines 151-160: the country's
   * entry with growth and rank, or nothing when it has no record that year.
   */
  function SingleCountryEntry(data: seq<Rec>, year: int, specificCountry: Value): (r: seq<CountryRank>)
    ensures r == [] <==> !HasRecord(data, specificCountry, year)
    ensures r != [] ==>
              var c := CountryWithGrowth(data, specificCountry, year).value;
              |r| == 1 && r[0].CountryRankWithGrowth? && r[0].country == specificCountry &&
              r[0].emissions == c.record.emissions && r[0].code == c.record.code &&
              r[0].growth == c.growth && r[0].globalRank == c.globalRank
  {
    match CountryWithGrowth(data, specificCountry, year)
    case None => []
    case Some(c) => [CountryRankWithGrowth(c.record.entity, c.record.emissions, c.record.code, c.growth, c.globalRank)]
  }

  /** The ranked prefix of one year's records: of that year, drawn from data, and nothing larger left out. */
  lemma TopOfYear(data: seq<Rec>, year: int, limit: int)
    ensures var top := TopBy(Filter(data, YearIs(year)), RecNegEmissions, limit);
            (forall i :: 0 <= i < |top| ==> top[i].year == year) &&
            multiset(top) <= multiset(data) &&
            forall x :: x in data && x.year == year && |top| > 0 && x.emissions > top[|top| - 1].emissions ==> x in top
  {
    var yearData := Filter(data, YearIs(year));
    var top := TopBy(yearData, RecNegEmissions, limit);
    YearDataSubMultiset(data, year);
    forall i | 0 <= i < |top| ensures top[i].year == year {
      assert top[i] in multiset(yearData);
      assert YearIs(year)(top[i]);
    }
    forall x | x in data && x.year == year
      ensures x in yearData
    {
      FilterMember(data, YearIs(year), x);
    }
  }

  /** `.map(item => ({country, emissions, code}))` over a ranked prefix. */
  function ToCountryRanks(top: seq<Rec>): (r: seq<CountryRank>)
    ensures |r| == |top|
    ensures forall i :: 0 <= i < |r| ==> r[i] == ToCountryRank(top[i])
  {
    seq(|top|, i requires 0 <= i < |top| => ToCountryRank(top[i]))
  }

  /** The listing of a year's ranked prefix gives back that prefix, in descending order. */
  lemma ListingOfYear(data: seq<Rec>, year: int, limit: int)
    ensures var top := TopBy(Filter(data, YearIs(year)), RecNegEmissions, limit);
            var r := ToCountryRanks(top);
            CountrySources(r, year) == top &&
            forall i, j :: 0 <= i < j < |r| ==> r[i].emissions >= r[j].emissions
  {
    var top := TopBy(Filter(data, YearIs(year)), RecNegEmissions, limit);
    var r := ToCountryRanks(top);
    TopOfYear(data, year, limit);
    var sources := CountrySources(r, year);
    forall i | 0 <= i < |top| ensures sources[i] == top[i] {
      assert r[i] == ToCountryRank(top[i]);
    }
    forall i, j | 0 <= i < j < |r| ensures r[i].emissions >= r[j].emissions {
      assert RecNegEmissions(top[i]) <= RecNegEmissions(top[j]);
    }
  }

  /**
   * The listing mode of getTopCountries, lines 162-173: the year's records by
   * descending emissions, cut by `slice(0, limit)`, drawn from data, and no
   * record of that year left out has more emissions than the last one listed.
   */
  function TopCountriesOfYear(data: seq<Rec>, year: int, limit: int): (r: seq<CountryRank>)
    ensures |r| == SliceLength(|Filter(data, YearIs(year))|, limit)
    ensures forall i :: 0 <= i < |r| ==> r[i].CountryRank?
    ensures forall i, j :: 0 <= i < j < |r| ==> r[i].emissions >= r[j].emissions
    ensures multiset(CountrySources(r, year)) <= multiset(data)
    ensures forall x :: x in data && x.year == year && |r| > 0 && x.emissions > r[|r| - 1].emissions ==>
              x in CountrySources(r, year)
    ensures CountrySources(r, year) == TopBy(Filter(data, YearIs(year)), RecNegEmissions, limit)
  {
    TopOfYear(data, year, limit);
    ListingOfYear(data, year, limit);
    ToCountryRanks(TopBy(Filter(data, YearIs(year)), RecNegEmissions, limit))
  }

  /**
   * `getTopCountries(data, year, limit, specificCountry)`, lines 150-174: the
   * single-country entry when specificCountry is truthy, the year's listing otherwise.
   */
  function TopCountries(data: seq<Rec>, year: int, limit: int, specificCountry: Value): (r: seq<CountryRank>)
    ensures Truthy(specificCountry) ==> r == SingleCountryEntry(data, year, specificCountry)
    ensures !Truthy(specificCountry) ==> r == TopCountriesOfYear(data, year, limit)
  {
    if Truthy(specificCountry) then SingleCountryEntry(data, year, specificCountry)
    else TopCountriesOfYear(data, year, limit)
  }

  /** The first k entries of the year's listing are the first k of the year's ranking. */
  lemma ListingIsRankedPrefix(data: seq<Rec>, year: int, k: nat)
    requires k <= |RankedForYear(data, year)|
    ensures var top := TopCountries(data, year, k, Null);
            var ranked := RankedForYear(data, year);
            |top| == k && forall j :: 0 <= j < k ==> top[j].country == ranked[j].entity
  {
    var ranked := RankedForYear(data, year);
    var yearData := Filter(data, YearIs(year));
    assert ranked == SortBy(yearData, RecNegEmissions);
    var top := TopCountriesOfYear(data, year, k);
    var sources := CountrySources(top, year);
    assert sources == ranked[..k];
    forall j | 0 <= j < k ensures top[j].country == ranked[j].entity {
      assert sources[j] == ranked[j];
    }
  }

  /**
   * The rank the single-country mode reports is the place of the country in
   * the listing of that many entries: the lookup and the listing rank alike.
   */
  lemma GlobalRankAgreesWithTopList(data: seq<Rec>, countryName: Value, year: int)
    requires HasRecord(data, countryName, year)
    ensures var k := GlobalRank(data, countryName, year);
            var top := TopCountries(data, year, k, Null);
            |top| == k && top[k - 1].country == countryName &&
            forall j :: 0 <= j < k - 1 ==> top[j].country != countryName
  {
    ListingIsRankedPrefix(data, year, GlobalRank(data, countryName, year));
  }

  /** `{rank: index + 1, year, emissions, entity}` (lines 181-186) over the ranked prefix. */
  function RankYears(top: seq<GlobalRec>): (r: seq<ContaminatedYear>)
    ensures |r| == |top|
    ensures forall i :: 0 <= i < |r| ==>
              r[i] == ContaminatedYear(i + 1, top[i].year, top[i].emissions, top[i].entity)
  {
    seq(|top|, i requires 0 <= i < |top| => ContaminatedYear(i + 1, top[i].year, top[i].emissions, top[i].entity))
  }

  /** The world rows a listing of years was built from. */
  function YearSources(r: seq<ContaminatedYear>): (s: seq<GlobalRec>)
    ensures |s| == |r|
    ensures forall i :: 0 <= i < |r| ==> s[i] == GlobalRec(r[i].entity, r[i].year, r[i].emissions)
  {
    seq(|r|, i requires 0 <= i < |r| => GlobalRec(r[i].entity, r[i].year, r[i].emissions))
  }

  /**
   * `getTopContaminatedYears(globalData, limit)`, lines 177-187: the world rows
   * by descending emissions, cut by `slice(0, limit)` and ranked 1, 2, ...;
   * drawn from the input, and no row left out has more emissions than the last one listed.
   */
  function TopContaminatedYears(globalData: seq<GlobalRec>, limit: int): (r: seq<ContaminatedYear>)
    ensures |r| == SliceLength(|globalData|, limit)
    ensures forall i :: 0 <= i < |r| ==> r[i].rank == i + 1
    ensures forall i, j :: 0 <= i < j < |r| ==> r[i].emissions >= r[j].emissions
    ensures multiset(YearSources(r)) <= multiset(globalData)
    ensures forall x :: x in globalData && |r| > 0 && x.emissions > r[|r| - 1].emissions ==> x in YearSources(r)
  {
    var top := TopBy(globalData, GlobalNegEmissions, limit);
    var r := RankYears(top);
    assert YearSources(r) == top;
    r
  }

  /**
   * `globalData.reduce((max, current) => current.emissions > max.emissions ? current : max)`
   * on a non-empty array: a left fold that replaces the maximum only on a strictly larger value.
   */
  function ReduceMax(s: seq<GlobalRec>): (m: GlobalRec)
    requires |s| > 0
    ensures exists k :: 0 <= k < |s| && s[k] == m && forall j :: 0 <= j < k ==> s[j].emissions < m.emissions
    ensures forall i :: 0 <= i < |s| ==> s[i].emissions <= m.emissions
  {
    if |s| == 1 then s[0]
    else
      var max := ReduceMax(s[..|s| - 1]);
      var current := s[|s| - 1];
      assert forall i :: 0 <= i < |s| - 1 ==> s[..|s| - 1][i] == s[i];
      if current.emissions > max.emissions then current else max
  }

  /**
   * `getMostContaminatedYear(globalData)`, lines 190-196: null for a missing or
   * empty series; otherwise the first row with the largest emissions.
   */
  function MostContaminatedYear(globalData: Option<seq<GlobalRec>>): (r: Option<GlobalRec>)
    ensures r.None? <==> globalData.None? || globalData.value == []
    ensures r.Some? ==> var g := globalData.value;
              (forall i :: 0 <= i < |g| ==> g[i].emissions <= r.value.emissions) &&
              exists k :: 0 <= k < |g| && g[k] == r.value && forall j :: 0 <= j < k ==> g[j].emissions < r.value.emissions
  {
    if globalData.None? || |globalData.value| == 0 then None
    else Some(ReduceMax(globalData.value))
  }

  function GlobalEmissionsAre(e: real): GlobalRec -> bool {
    (g: GlobalRec) => g.emissions == e
  }

  /** The stable descending sort puts the row the fold reports first. */
  lemma {:induction false} SortedHeadIsFirstMax(globalData: seq<GlobalRec>)
    requires |globalData| > 0
    ensures |SortBy(globalData, GlobalNegEmissions)| > 0
    ensures SortBy(globalData, GlobalNegEmissions)[0] == ReduceMax(globalData)
  {
    var m := ReduceMax(globalData);
    var p := GlobalEmissionsAre(m.emissions);
    var sorted := SortBy(globalData, GlobalNegEmissions);
    SortByStable(globalData, GlobalNegEmissions, p);
    var k :| 0 <= k < |globalData| && globalData[k] == m && forall j :: 0 <= j < k ==> globalData[j].emissions < m.emissions;
    FilterHead(globalData, p, k);
    assert sorted[0].emissions <= m.emissions by {
      assert sorted[0] in multiset(globalData);
      var i :| 0 <= i < |globalData| && globalData[i] == sorted[0];
    }
    assert sorted[0].emissions >= m.emissions by {
      assert m in multiset(sorted);
      var j :| 0 <= j < |sorted| && sorted[j] == m;
      assert GlobalNegEmissions(sorted[0]) <= GlobalNegEmissions(sorted[j]);
    }
    assert p(sorted[0]);
    FilterHead(sorted, p, 0);
  }

  /** The first of the most polluted years is the most polluted year. */
  lemma TopYearIsMostContaminated(globalData: seq<GlobalRec>, limit: int)
    requires |globalData| > 0 && limit > 0
    ensures var top := TopContaminatedYears(globalData, limit);
            var m := MostContaminatedYear(Some(globalData)).value;
            |top| > 0 && top[0] == ContaminatedYear(1, m.year, m.emissions, m.entity)
  {
    SortedHeadIsFirstMax(globalData);
    var sorted := SortBy(globalData, GlobalNegEmissions);
    var top := TopBy(globalData, GlobalNegEmissions, limit);
    assert top == sorted[..|top|];
    assert TopContaminatedYears(globalData, limit) == RankYears(top);
  }

  /** The ranking of two records of one year, larger emitter first. */
  lemma RankedOfTwo(a: Rec, b: Rec)
    requires a.year == b.year && a.emissions < b.emissions
    ensures TopBy(Filter([a, b], YearIs(a.year)), RecNegEmissions, 2) == [b, a]
  {
    FilterKeepsAll([a, b], YearIs(a.year));
    SortOfTwo(a, b);
  }

  /** Sorting two records larger emitter first swaps them when the second is larger. */
  lemma SortOfTwo(a: Rec, b: Rec)
    requires a.emissions < b.emissions
    ensures SortBy([a, b], RecNegEmissions) == [b, a]
  {
    assert [a, b][1..] == [b] && [b][1..] == [];
    assert SortBy([b], RecNegEmissions) == [b];
    assert InsertBy(a, [b], RecNegEmissions) == [b] + InsertBy(a, [], RecNegEmissions) == [b, a];
  }

  /** Two records of a year are listed larger emitter first. */
  lemma TopCountriesOfTwo(a: Rec, b: Rec)
    requires a.year == b.year && a.emissions < b.emissions
    ensures TopCountries([a, b], a.year, 2, Null) == [ToCountryRank(b), ToCountryRank(a)]
  {
    RankedOfTwo(a, b);
    var r := ToCountryRanks([b, a]);
    assert r == [ToCountryRank(b), ToCountryRank(a)];
    assert TopCountriesOfYear([a, b], a.year, 2) == r;
  }

  /** Of two equally polluted years the earlier row is reported. */
  lemma MostContaminatedYearExample()
    ensures MostContaminatedYear(Some([GlobalRec(Str("World"), 1950, 5.0),
                                      GlobalRec(Str("World"), 2019, 100.0),
                                      GlobalRec(Str("World"), 2020, 100.0)]))
         == Some(GlobalRec(Str("World"), 2019, 100.0))
  {
    var g := [GlobalRec(Str("World"), 1950, 5.0), GlobalRec(Str("World"), 2019, 100.0), GlobalRec(Str("World"), 2020, 100.0)];
    assert g[..2][..1] == [g[0]];
    assert ReduceMax(g[..2]) == g[1];
  }

  /** A year with a single record ranks just that record. */
  lemma RankedOfOne(previous: Rec, current: Rec)
    requires previous.year != current.year
    ensures RankedForYear([previous, current], current.year) == [current]
  {
    assert [previous, current][1..] == [current];
    assert Filter([previous, current], YearIs(current.year)) == [current];
  }

  /** A country that went from 200 to 250 has grown 25% and leads its year alone. */
  lemma CountryWithGrowthOfTwo(previous: Rec, current: Rec)
    requires previous.entity == current.entity && previous.year == current.year - 1
    requires previous.emissions == 200.0 && current.emissions == 250.0
    ensures CountryWithGrowth([previous, current], current.entity, current.year)
         == Some(CountryGrowth(current, 25.0, Some(1)))
  {
    var data := [previous, current];
    assert Find(data, RecordOf(current.entity, current.year - 1)) == Some(previous);
    assert Growth(data, current.entity, current.year, 250.0) == 25.0 by {
      ToFixed2OfHundredths(2500);
    }
    assert GlobalRank(data, current.entity, current.year) == 1 by {
      RankedOfOne(previous, current);
    }
  }

}
