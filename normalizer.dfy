/**
 * Row normalisation: `cleanCountryData` and `getGlobalData` turn parsed CSV
 * rows, whose columns may carry any of several header names, into cleaned
 * records, dropping the rows that lack a field or hold an invalid value.
 */
module Normalizer {

  import opened Wrappers
  import opened JsValue
  import opened JsArray
  import opened Records

  /**
   * One parsed CSV row: the cell under each header name the cleaning code reads
   * (`Undefined` when the column is absent). AnnualCO2Emissions is the column
   * headed 'Annual CO₂ emissions'.
   */
  datatype RawRow = RawRow(
    Entity: Value, country: Value, entity: Value,
    Year: Value, year: Value,
    AnnualCO2Emissions: Value, emissions: Value, co2: Value,
    Code: Value, code: Value, iso_code: Value)

  /** The argument: an array of rows, or anything else (null, undefined, a non-array object). */
  datatype RawData = NotAnArray | Rows(rows: seq<RawRow>)

  /** `parseInt` and `parseFloat` on one cell; `None` stands for NaN. */
  datatype Parsers = Parsers(parseInt: Value -> Option<int>, parseFloat: Value -> Option<real>)

  /** The alias chains: `item.Entity || item.country || item.entity` and its siblings. */
  function EntityChain(row: RawRow): Value { Or(Or(row.Entity, row.country), row.entity) }
  function YearChain(row: RawRow): Value { Or(row.Year, row.year) }
  function EmissionsChain(row: RawRow): Value { Or(Or(row.AnnualCO2Emissions, row.emissions), row.co2) }
  function CodeAliases(row: RawRow): Value { Or(Or(row.Code, row.code), row.iso_code) }

  /** What parseInt reads for the year. */
  function ParsedYear(row: RawRow, p: Parsers): Option<int> {
    p.parseInt(YearChain(row))
  }

  /** What parseFloat reads for the emissions: the chain's value, or 0 when it is falsy. */
  function ParsedEmissions(row: RawRow, p: Parsers): Option<real> {
    p.parseFloat(if Truthy(EmissionsChain(row)) then EmissionsChain(row) else Num(0.0))
  }

  /** A parsed year and emissions that pass the validity test of cleanCountryData. */
  predicate ValidCountryValues(row: RawRow, p: Parsers) {
    && ParsedYear(row, p).Some? && ParsedYear(row, p).value >= 1750
    && ParsedEmissions(row, p).Some? && ParsedEmissions(row, p).value >= 0.0
  }

  /** The first filter of cleanCountryData: entity and year present, emissions not null or undefined. */
  predicate HasCountryFields(row: RawRow) {
    Truthy(EntityChain(row)) && Truthy(YearChain(row)) && !IsNullish(EmissionsChain(row))
  }

  /**
   * One row through cleanCountryData's filter, map and validity filter.
   * The 'Unknown' entity default can never be taken: an admitted row has a truthy entity chain.
   */
  function CleanRow(row: RawRow, p: Parsers): (r: Option<Rec>)
    ensures r.Some? <==> HasCountryFields(row) && ValidCountryValues(row, p)
    ensures r.Some? ==> r.value == Rec(EntityChain(row),
                                       if Truthy(CodeAliases(row)) then CodeAliases(row) else Str(""),
                                       ParsedYear(row, p).value, ParsedEmissions(row, p).value)
    ensures r.Some? ==> Truthy(r.value.entity) && r.value.year >= 1750 && r.value.emissions >= 0.0
  {
    if !HasCountryFields(row) then None
    else
      var entity := Or(Or(Or(row.Entity, row.country), row.entity), Str("Unknown"));
      var year := p.parseInt(Or(row.Year, row.year));
      var emissions := p.parseFloat(Or(Or(Or(row.AnnualCO2Emissions, row.emissions), row.co2), Num(0.0)));
      var code := Or(Or(Or(row.Code, row.code), row.iso_code), Str(""));
      if year.Some? && emissions.Some? && emissions.value >= 0.0 && year.value >= 1750
      then Some(Rec(entity, code, year.value, emissions.value))
      else None
  }

  /** The world-aggregate entities getGlobalData keeps (line 106), compared exactly. */
  predicate IsWorld(entity: Value) {
    entity == Str("World") || entity == Str("OWID_WRL")
  }

  /** The first filter of getGlobalData. */
  predicate HasWorldFields(row: RawRow) {
    IsWorld(Or(Or(Or(row.Entity, row.country), row.entity), Str(""))) &&
    Truthy(YearChain(row)) && !IsNullish(EmissionsChain(row))
  }

  /** One row through getGlobalData's filter, map and validity filter: no year floor here. */
  function GlobalRow(row: RawRow, p: Parsers): (r: Option<GlobalRec>)
    ensures r.Some? <==> IsWorld(EntityChain(row)) && Truthy(YearChain(row)) && !IsNullish(EmissionsChain(row))
                         && ParsedYear(row, p).Some?
                         && ParsedEmissions(row, p).Some? && ParsedEmissions(row, p).value >= 0.0
    ensures r.Some? ==> r.value == GlobalRec(EntityChain(row), ParsedYear(row, p).value, ParsedEmissions(row, p).value)
  {
    if !HasWorldFields(row) then None
    else
      var entity := Or(Or(row.Entity, row.country), row.entity);
      var year := p.parseInt(Or(row.Year, row.year));
      var emissions := p.parseFloat(Or(Or(Or(row.AnnualCO2Emissions, row.emissions), row.co2), Num(0.0)));
      if year.Some? && emissions.Some? && emissions.value >= 0.0
      then Some(GlobalRec(entity, year.value, emissions.value))
      else None
  }

  /** The rows that a cleaner turns into x. */
  function CleansTo<R(==)>(clean: RawRow -> Option<R>, x: R): RawRow -> bool {
    (row: RawRow) => clean(row) == Some(x)
  }

  /** The rows a per-row cleaner keeps, in input order. */
  function KeepCleaned<R(==)>(rows: seq<RawRow>, clean: RawRow -> Option<R>): (r: seq<R>)
    ensures |r| <= |rows|
    ensures forall i :: 0 <= i < |r| ==> exists k :: 0 <= k < |rows| && clean(rows[k]) == Some(r[i])
    ensures forall k :: 0 <= k < |rows| && clean(rows[k]).Some? ==> clean(rows[k]).value in r
  {
    if rows == [] then []
    else
      var rest := KeepCleaned(rows[1..], clean);
      var head := match clean(rows[0]) case Some(x) => [x] case None => [];
      assert forall k :: 1 <= k < |rows| ==> rows[k] == rows[1..][k - 1];
      head + rest
  }

  /** Every record is kept exactly as often as there are rows that clean to it. */
  lemma {:induction false} KeepCleanedCount<R>(rows: seq<RawRow>, clean: RawRow -> Option<R>, x: R)
    ensures multiset(KeepCleaned(rows, clean))[x] == |Filter(rows, CleansTo(clean, x))|
  {
    if rows != [] {
      KeepCleanedCount(rows[1..], clean, x);
      var head := match clean(rows[0]) case Some(y) => [y] case None => [];
      assert KeepCleaned(rows, clean) == head + KeepCleaned(rows[1..], clean);
      assert multiset(head + KeepCleaned(rows[1..], clean)) == multiset(head) + multiset(KeepCleaned(rows[1..], clean));
    }
  }

  /** Sorting the kept records keeps every record's count. */
  lemma SortedKeepCount<R(!new)>(rows: seq<RawRow>, clean: RawRow -> Option<R>, key: R -> real)
    ensures forall x :: multiset(SortBy(KeepCleaned(rows, clean), key))[x] == |Filter(rows, CleansTo(clean, x))|
  {
    forall x ensures multiset(SortBy(KeepCleaned(rows, clean), key))[x] == |Filter(rows, CleansTo(clean, x))| {
      KeepCleanedCount(rows, clean, x);
    }
  }

  function CountryCleaner(p: Parsers): RawRow -> Option<Rec> { (row: RawRow) => CleanRow(row, p) }
  function GlobalCleaner(p: Parsers): RawRow -> Option<GlobalRec> { (row: RawRow) => GlobalRow(row, p) }

  /** What the country cleaner keeps, characterised row by row. */
  lemma KeptCountryRows(rows: seq<RawRow>, p: Parsers)
    ensures forall x :: x in KeepCleaned(rows, CountryCleaner(p)) <==>
                        exists k :: 0 <= k < |rows| && CleanRow(rows[k], p) == Some(x)
    ensures forall x :: x in KeepCleaned(rows, CountryCleaner(p)) ==>
                        Truthy(x.entity) && x.year >= 1750 && x.emissions >= 0.0
  {
    var kept := KeepCleaned(rows, CountryCleaner(p));
    forall x | x in kept
      ensures exists k :: 0 <= k < |rows| && CleanRow(rows[k], p) == Some(x)
    {
      var i :| 0 <= i < |kept| && kept[i] == x;
      var k :| 0 <= k < |rows| && CountryCleaner(p)(rows[k]) == Some(kept[i]);
      assert CleanRow(rows[k], p) == Some(x);
    }
    forall x | exists k :: 0 <= k < |rows| && CleanRow(rows[k], p) == Some(x)
      ensures x in kept
    {
      var k :| 0 <= k < |rows| && CleanRow(rows[k], p) == Some(x);
      assert CountryCleaner(p)(rows[k]) == Some(x);
    }
  }

  /** `cleanCountryData(rawData)`, lines 64-93. */
  function CleanCountryData(raw: RawData, p: Parsers): (r: seq<Rec>)
    ensures raw.NotAnArray? ==> r == []
    ensures forall i, j :: 0 <= i < j < |r| ==> r[i].year <= r[j].year
    ensures forall i :: 0 <= i < |r| ==> Truthy(r[i].entity) && r[i].year >= 1750 && r[i].emissions >= 0.0
    ensures raw.Rows? ==> |r| <= |raw.rows|
    ensures raw.Rows? ==> forall x :: x in r <==> exists k :: 0 <= k < |raw.rows| && CleanRow(raw.rows[k], p) == Some(x)
    ensures raw.Rows? ==> forall x :: multiset(r)[x] == |Filter(raw.rows, CleansTo(CountryCleaner(p), x))|
  {
    match raw
    case NotAnArray => []
    case Rows(rows) =>
      KeptCountryRows(rows, p);
      SortedKeepCount(rows, CountryCleaner(p), RecYear);
      SortByMembers(KeepCleaned(rows, CountryCleaner(p)), RecYear);
      SortBy(KeepCleaned(rows, CountryCleaner(p)), RecYear)
  }

  /** Records that share a year leave cleanCountryData in their input order. */
  lemma CleanCountryDataKeepsYearOrder(rows: seq<RawRow>, p: Parsers, year: int)
    ensures Filter(CleanCountryData(Rows(rows), p), YearIs(year)) == Filter(KeepCleaned(rows, CountryCleaner(p)), YearIs(year))
  {
    SortByStable(KeepCleaned(rows, CountryCleaner(p)), RecYear, YearIs(year));
  }

  /** What the world cleaner keeps, characterised row by row. */
  lemma KeptWorldRows(rows: seq<RawRow>, p: Parsers)
    ensures forall x :: x in KeepCleaned(rows, GlobalCleaner(p)) <==>
                        exists k :: 0 <= k < |rows| && GlobalRow(rows[k], p) == Some(x)
    ensures forall x :: x in KeepCleaned(rows, GlobalCleaner(p)) ==> IsWorld(x.entity) && x.emissions >= 0.0
  {
    var kept := KeepCleaned(rows, GlobalCleaner(p));
    forall x | x in kept
      ensures exists k :: 0 <= k < |rows| && GlobalRow(rows[k], p) == Some(x)
    {
      var i :| 0 <= i < |kept| && kept[i] == x;
      var k :| 0 <= k < |rows| && GlobalCleaner(p)(rows[k]) == Some(kept[i]);
      assert GlobalRow(rows[k], p) == Some(x);
    }
    forall x | exists k :: 0 <= k < |rows| && GlobalRow(rows[k], p) == Some(x)
      ensures x in kept
    {
      var k :| 0 <= k < |rows| && GlobalRow(rows[k], p) == Some(x);
      assert GlobalCleaner(p)(rows[k]) == Some(x);
    }
  }

  /** `getGlobalData(rawData)`, lines 96-124. */
  function GetGlobalData(raw: RawData, p: Parsers): (r: seq<GlobalRec>)
    ensures raw.NotAnArray? ==> r == []
    ensures forall i, j :: 0 <= i < j < |r| ==> r[i].year <= r[j].year
    ensures forall i :: 0 <= i < |r| ==> IsWorld(r[i].entity) && r[i].emissions >= 0.0
    ensures raw.Rows? ==> |r| <= |raw.rows|
    ensures raw.Rows? ==> forall x :: x in r <==> exists k :: 0 <= k < |raw.rows| && GlobalRow(raw.rows[k], p) == Some(x)
    ensures raw.Rows? ==> forall x :: multiset(r)[x] == |Filter(raw.rows, CleansTo(GlobalCleaner(p), x))|
  {
    match raw
    case NotAnArray => []
    case Rows(rows) =>
      KeptWorldRows(rows, p);
      SortedKeepCount(rows, GlobalCleaner(p), GlobalYear);
      SortByMembers(KeepCleaned(rows, GlobalCleaner(p)), GlobalYear);
      SortBy(KeepCleaned(rows, GlobalCleaner(p)), GlobalYear)
  }

  /** World records that share a year leave getGlobalData in their input order. */
  lemma GetGlobalDataKeepsYearOrder(rows: seq<RawRow>, p: Parsers, year: int)
    ensures Filter(GetGlobalData(Rows(rows), p), GlobalYearIs(year)) == Filter(KeepCleaned(rows, GlobalCleaner(p)), GlobalYearIs(year))
  {
    SortByStable(KeepCleaned(rows, GlobalCleaner(p)), GlobalYear, GlobalYearIs(year));
  }

  /** A single row comes out of cleanCountryData as its cleaned record, or not at all. */
  lemma CleanOneRow(row: RawRow, p: Parsers)
    ensures CleanCountryData(Rows([row]), p) == match CleanRow(row, p) case Some(x) => [x] case None => []
  {
    assert [row][1..] == [];
    match CleanRow(row, p)
    case Some(x) => SortBySingleton(x, RecYear);
    case None =>
  }

  /** A single row comes out of getGlobalData as its cleaned record, or not at all. */
  lemma GlobalOneRow(row: RawRow, p: Parsers)
    ensures GetGlobalData(Rows([row]), p) == match GlobalRow(row, p) case Some(x) => [x] case None => []
  {
    assert [row][1..] == [];
    match GlobalRow(row, p)
    case Some(x) => SortBySingleton(x, GlobalYear);
    case None =>
  }

  /**
   * The two cleaners differ on the year floor: a World row dated 1700 is kept by
   * getGlobalData and dropped by cleanCountryData.
   */
  lemma WorldRowBefore1750(p: Parsers)
    requires p.parseInt(Num(1700.0)) == Some(1700) && p.parseFloat(Num(5.0)) == Some(5.0)
    ensures var row := RawRow(Str("World"), Undefined, Undefined, Num(1700.0), Undefined,
                              Num(5.0), Undefined, Undefined, Str("OWID_WRL"), Undefined, Undefined);
            GetGlobalData(Rows([row]), p) == [GlobalRec(Str("World"), 1700, 5.0)] &&
            CleanCountryData(Rows([row]), p) == []
  {
    var row := RawRow(Str("World"), Undefined, Undefined, Num(1700.0), Undefined,
                      Num(5.0), Undefined, Undefined, Str("OWID_WRL"), Undefined, Undefined);
    assert GlobalRow(row, p) == Some(GlobalRec(Str("World"), 1700, 5.0));
    assert CleanRow(row, p) == None;
    GlobalOneRow(row, p);
    CleanOneRow(row, p);
  }

  // A zero emission count in the first emissions column, as PapaParse's dynamic
  // typing delivers it (the number 0), is falsy: the `||` chain of line 72 then
  // falls through to the absent later columns and yields undefined, so the
  // `!== null && !== undefined` test, written to admit present but falsy
  // values, rejects the row.

  /** The input that shows it: a valid row with emissions 0 is dropped. */
  lemma ZeroEmissionsRowDropped(p: Parsers)
    requires p.parseInt(Num(1990.0)) == Some(1990) && p.parseFloat(Num(0.0)) == Some(0.0)
    ensures var row := RawRow(Str("Tuvalu"), Undefined, Undefined, Num(1990.0), Undefined,
                              Num(0.0), Undefined, Undefined, Str("TUV"), Undefined, Undefined);
            ValidCountryValues(row, p) && !HasCountryFields(row) &&
            CleanCountryData(Rows([row]), p) == []
  {
    var row := RawRow(Str("Tuvalu"), Undefined, Undefined, Num(1990.0), Undefined,
                      Num(0.0), Undefined, Undefined, Str("TUV"), Undefined, Undefined);
    assert CleanRow(row, p) == None;
    CleanOneRow(row, p);
  }

  /** The first emissions cell that is present: `item['Annual CO₂ emissions'] ?? item.emissions ?? item.co2`. */
  function PresentEmissions(row: RawRow): Value {
    Coalesce(Coalesce(row.AnnualCO2Emissions, row.emissions), row.co2)
  }

  /**
   * The row cleaner as evidently intended: the emissions alias resolves to the
   * first cell that is present (`??`), so a present zero is admitted and parsed.
   */
  function CleanRowIntended(row: RawRow, p: Parsers): (r: Option<Rec>)
    ensures r.Some? <==> && Truthy(EntityChain(row)) && Truthy(YearChain(row))
                         && !IsNullish(PresentEmissions(row))
                         && ParsedYear(row, p).Some? && ParsedYear(row, p).value >= 1750
                         && p.parseFloat(PresentEmissions(row)).Some?
                         && p.parseFloat(PresentEmissions(row)).value >= 0.0
    ensures r.Some? ==> r.value.entity == EntityChain(row) && r.value.year == ParsedYear(row, p).value
                        && r.value.emissions == p.parseFloat(PresentEmissions(row)).value
  {
    var emissionsCell := PresentEmissions(row);
    if !(Truthy(EntityChain(row)) && Truthy(YearChain(row)) && !IsNullish(emissionsCell)) then None
    else
      var year := p.parseInt(YearChain(row));
      var emissions := p.parseFloat(emissionsCell);
      var code := Or(Or(Or(row.Code, row.code), row.iso_code), Str(""));
      if year.Some? && emissions.Some? && emissions.value >= 0.0 && year.value >= 1750
      then Some(Rec(EntityChain(row), code, year.value, emissions.value))
      else None
  }

  function IntendedCleaner(p: Parsers): RawRow -> Option<Rec> { (row: RawRow) => CleanRowIntended(row, p) }

  /** cleanCountryData with the intended emissions resolution: sorted, and every kept record valid. */
  function CleanCountryDataIntended(raw: RawData, p: Parsers): (r: seq<Rec>)
    ensures raw.NotAnArray? ==> r == []
    ensures forall i, j :: 0 <= i < j < |r| ==> r[i].year <= r[j].year
    ensures raw.Rows? ==> forall k :: 0 <= k < |raw.rows| && CleanRowIntended(raw.rows[k], p).Some? ==>
                            CleanRowIntended(raw.rows[k], p).value in r
    ensures raw.Rows? ==> forall x :: multiset(r)[x] == |Filter(raw.rows, CleansTo(IntendedCleaner(p), x))|
  {
    match raw
    case NotAnArray => []
    case Rows(rows) =>
      var kept := KeepCleaned(rows, IntendedCleaner(p));
      SortByMembers(kept, RecYear);
      SortedKeepCount(rows, IntendedCleaner(p), RecYear);
      assert forall k :: 0 <= k < |rows| ==> IntendedCleaner(p)(rows[k]) == CleanRowIntended(rows[k], p);
      SortBy(kept, RecYear)
  }

  /** The intended cleaner keeps the row of ZeroEmissionsRowDropped, with emissions 0. */
  lemma ZeroEmissionsRowKeptWhenIntended(p: Parsers)
    requires p.parseInt(Num(1990.0)) == Some(1990) && p.parseFloat(Num(0.0)) == Some(0.0)
    ensures var row := RawRow(Str("Tuvalu"), Undefined, Undefined, Num(1990.0), Undefined,
                              Num(0.0), Undefined, Undefined, Str("TUV"), Undefined, Undefined);
            CleanCountryDataIntended(Rows([row]), p) == [Rec(Str("Tuvalu"), Str("TUV"), 1990, 0.0)]
  {
    var row := RawRow(Str("Tuvalu"), Undefined, Undefined, Num(1990.0), Undefined,
                      Num(0.0), Undefined, Undefined, Str("TUV"), Undefined, Undefined);
    var tuvalu := Rec(Str("Tuvalu"), Str("TUV"), 1990, 0.0);
    assert CleanRowIntended(row, p) == Some(tuvalu);
    assert [row][1..] == [];
    assert KeepCleaned([row], IntendedCleaner(p)) == [tuvalu];
    SortBySingleton(tuvalu, RecYear);
  }

}
