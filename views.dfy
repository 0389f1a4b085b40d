/**
 * The simple views the dashboard takes of the cleaned records: a year range,
 * one country's series, one year's records, and display names matched to the map.
 */
module Views {

  import opened JsValue
  import opened JsArray
  import opened Records

  function YearBetween(startYear: int, endYear: int): Rec -> bool {
    (r: Rec) => startYear <= r.year <= endYear
  }

  /**
   * `filterByYearRange(data, startYear, endYear)`, lines 235-237: the records
   * with a year in the closed range, each as often as in data, in data's order.
   */
  function FilterByYearRange(data: seq<Rec>, startYear: int, endYear: int): (r: seq<Rec>)
    ensures IsSubsequence(r, data)
    ensures forall i :: 0 <= i < |r| ==> startYear <= r[i].year <= endYear
    ensures forall x :: x in data ==> multiset(r)[x] == if startYear <= x.year <= endYear then multiset(data)[x] else 0
    ensures startYear > endYear ==> r == []
  {
    FilterCount(data, YearBetween(startYear, endYear));
    FilterIsSubsequence(data, YearBetween(startYear, endYear));
    Filter(data, YearBetween(startYear, endYear))
  }

  /** A range that spans every year of the data gives back the data unchanged. */
  lemma FilterByYearRangeIdentity(data: seq<Rec>, startYear: int, endYear: int)
    requires forall i :: 0 <= i < |data| ==> startYear <= data[i].year <= endYear
    ensures FilterByYearRange(data, startYear, endYear) == data
  {
    FilterKeepsAll(data, YearBetween(startYear, endYear));
  }

  /** Filtering twice by ranges is filtering once by their intersection. */
  lemma FilterByYearRangeTwice(data: seq<Rec>, a: int, b: int, c: int, d: int)
    ensures FilterByYearRange(FilterByYearRange(data, a, b), c, d)
         == FilterByYearRange(data, if a < c then c else a, if b < d then b else d)
  {
    FilterBetweenTwice(data, a, b, c, d);
  }

  lemma {:induction false} FilterBetweenTwice(data: seq<Rec>, a: int, b: int, c: int, d: int)
    ensures Filter(Filter(data, YearBetween(a, b)), YearBetween(c, d))
         == Filter(data, YearBetween(if a < c then c else a, if b < d then b else d))
  {
    if data != [] {
      FilterBetweenTwice(data[1..], a, b, c, d);
    }
  }

  /**
   * `getDataForYear(data, year)`, lines 246-248: the records of that year,
   * each as often as in data, in data's order.
   */
  function DataForYear(data: seq<Rec>, year: int): (r: seq<Rec>)
    ensures IsSubsequence(r, data)
    ensures forall i :: 0 <= i < |r| ==> r[i].year == year
    ensures forall x :: x in data ==> multiset(r)[x] == if x.year == year then multiset(data)[x] else 0
  {
    FilterCount(data, YearIs(year));
    FilterIsSubsequence(data, YearIs(year));
    Filter(data, YearIs(year))
  }

  /** One year's records are the year range from that year to itself. */
  lemma DataForYearIsSingleYearRange(data: seq<Rec>, year: int)
    ensures DataForYear(data, year) == FilterByYearRange(data, year, year)
  {
    FilterExtensional(data, YearIs(year), YearBetween(year, year));
  }

  /**
   * `getCountryData(data, countryName)`, lines 239-243: that entity's records,
   * each as often as in data, ascending by year.
   */
  function CountryData(data: seq<Rec>, countryName: Value): (r: seq<Rec>)
    ensures forall i :: 0 <= i < |r| ==> r[i].entity == countryName
    ensures forall i, j :: 0 <= i < j < |r| ==> r[i].year <= r[j].year
    ensures forall x :: x in data ==> multiset(r)[x] == if x.entity == countryName then multiset(data)[x] else 0
  {
    var own := Filter(data, EntityIs(countryName));
    FilterCount(data, EntityIs(countryName));
    assert forall x :: x in own ==> x.entity == countryName;
    SortByMembers(own, RecYear);
    var r := SortBy(own, RecYear);
    assert forall i :: 0 <= i < |r| ==> r[i] in own;
    r
  }

  /** Within one year, a country's records keep the order they have in data. */
  lemma CountryDataKeepsYearOrder(data: seq<Rec>, countryName: Value, year: int)
    ensures Filter(CountryData(data, countryName), YearIs(year)) == Filter(Filter(data, EntityIs(countryName)), YearIs(year))
  {
    SortByStable(Filter(data, EntityIs(countryName)), RecYear, YearIs(year));
  }

  /** The name table of normalizeCountryNames (lines 252-260). */
  const NameMappings: map<string, string> := map[
    "United States" := "United States of America",
    "Russia" := "Russian Federation",
    "Iran" := "Iran (Islamic Republic of)",
    "South Korea" := "Korea, Republic of",
    "North Korea" := "Korea, Democratic People's Republic of",
    "Vietnam" := "Viet Nam"
  ]

  /** `nameMappings[entity] || entity`: every mapped name is a non-empty string. */
  function CanonicalName(entity: Value): (r: Value)
    ensures entity.Str? && entity.s in NameMappings ==> r == Str(NameMappings[entity.s])
    ensures !(entity.Str? && entity.s in NameMappings) ==> r == entity
  {
    match entity
    case Str(s) => if s in NameMappings then Or(Str(NameMappings[s]), entity) else entity
    case _ => entity
  }

  /**
   * `normalizeCountryNames(data)`, lines 251-266: each record with its entity
   * renamed when the table lists it, every other field and the order unchanged.
   */
  function NormalizeCountryNames(data: seq<Rec>): (r: seq<Rec>)
    ensures |r| == |data|
    ensures forall i :: 0 <= i < |r| ==> r[i].code == data[i].code && r[i].year == data[i].year &&
                                         r[i].emissions == data[i].emissions
    ensures forall i :: 0 <= i < |r| ==> r[i].entity == CanonicalName(data[i].entity)
  {
    seq(|data|, i requires 0 <= i < |data| => data[i].(entity := CanonicalName(data[i].entity)))
  }

  /** No canonical name is itself in the table, so renaming twice renames once. */
  lemma NormalizeCountryNamesIdempotent(data: seq<Rec>)
    ensures NormalizeCountryNames(NormalizeCountryNames(data)) == NormalizeCountryNames(data)
  {
    assert forall s :: s in NameMappings ==> NameMappings[s] !in NameMappings;
  }

}
