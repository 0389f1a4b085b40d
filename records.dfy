/** The record shapes the data-cleaning functions produce and consume. */
module Records {

  import opened Wrappers
  import opened JsValue

  /** A cleaned per-country row: `{entity, code, year, emissions}`. Exact reals stand for doubles. */
  datatype Rec = Rec(entity: Value, code: Value, year: int, emissions: real)

  /** A cleaned world-aggregate row: `{entity, year, emissions}`. */
  datatype GlobalRec = GlobalRec(entity: Value, year: int, emissions: real)

  /** One entry of the yearly aggregation: `{year, totalEmissions}`. */
  datatype YearTotal = YearTotal(year: int, totalEmissions: real)

  /** A yearly total with its percentage change from the preceding entry. */
  datatype YearVariation = YearVariation(year: int, totalEmissions: real, variation: real)

  /** The `{...currentYearData, growth, globalRank}` object of the single-country lookup. */
  datatype CountryGrowth = CountryGrowth(record: Rec, growth: real, globalRank: Option<int>)

  /** An entry of the top-countries listing; only the single-country mode adds growth and rank. */
  datatype CountryRank =
    | CountryRank(country: Value, emissions: real, code: Value)
    | CountryRankWithGrowth(country: Value, emissions: real, code: Value, growth: real, globalRank: Option<int>)

  /** An entry of the most-polluted-years listing: `{rank, year, emissions, entity}`. */
  datatype ContaminatedYear = ContaminatedYear(rank: int, year: int, emissions: real, entity: Value)

  /** Sort keys: the comparator `a.year - b.year` sorts by year ... */
  function RecYear(r: Rec): real { r.year as real }
  function GlobalYear(g: GlobalRec): real { g.year as real }
  function TotalYear(t: YearTotal): real { t.year as real }

  /** ... and the comparator `b.emissions - a.emissions` by the negated emissions. */
  function RecNegEmissions(r: Rec): real { -r.emissions }
  function GlobalNegEmissions(g: GlobalRec): real { -g.emissions }

  /** Selection predicates, named so that every use denotes the same function. */
  function YearIs(year: int): Rec -> bool { (r: Rec) => r.year == year }
  function GlobalYearIs(year: int): GlobalRec -> bool { (g: GlobalRec) => g.year == year }
  function EntityIs(name: Value): Rec -> bool { (r: Rec) => r.entity == name }

}
