# CO₂ dashboard data cleaning, modelled in Dafny

This project models `src/utils/dataCleaning.js`, the data core of a CO₂-emissions
dashboard. The file turns parsed CSV rows into cleaned records and computes the
views the dashboard shows:

- **cleaning:** per-country records (`cleanCountryData`) and world-aggregate
  records (`getGlobalData`);
- **aggregation:** yearly totals (`aggregateByYear`) and the year-on-year
  variation (`calculateYearlyVariation`);
- **rankings:** the top countries of a year (`getTopCountries`, with its
  single-country mode built on `getCountryWithGrowth`), the most polluted years
  (`getTopContaminatedYears`) and the most polluted year
  (`getMostContaminatedYear`);
- **simple views:** a year range, one country's series, one year's records, and
  names matched to the map (`normalizeCountryNames`).

The modules follow the program's layers:

- `Wrappers`: `Option`.
- `JsValue`: the values a CSV cell can hold, JavaScript truthiness, the `||`
  operator, and `parseFloat(x.toFixed(2))`.
- `JsArray`: `Array.prototype` `filter`, `findIndex`/`find`, `slice(0, end)` and
  the stable `sort`, as functions on sequences.
- `Records`: the record shapes.
- `Normalizer`: the two cleaners.
- `Aggregator`: yearly totals and variation. The `forEach` loop over a
  dictionary becomes a method `SumByYear` with a `while` loop over a `map`.
- `Views`: the simple views.
- `Ranking`: the ranked listings and the single-country lookup.

Every function of the core is pure except `aggregateByYear`, whose loop
accumulates into an object. The model is therefore pure functions with lemmas,
plus one loop method proved against the function `TotalFor`.

`parseInt` and `parseFloat` are not modelled. They are passed in as a
`Parsers` value: two functions from a cell to `Option`, where `None` stands for
NaN. Numbers are exact reals: nothing here models IEEE doubles.

Where a description of the system and the code differ, the model follows the code:

- The alias chains use `||`, so they take the first truthy cell, not the first present one.
- The `'Unknown'` entity default of line 78 is modelled, but no input reaches it: line 74 admits only rows whose entity chain is truthy.
- The growth guard (lines 133-135) and the variation guard (lines 224-226) test `prev > 0`. A negative previous value therefore also gives 0, not only a zero one.

## Model

| member | source | states |
|---|---|---|
| JsValue.Or | src/utils/dataCleaning.js:70-72 | `a \|\| b` is truthy exactly when a or b is; it is a when a is truthy, otherwise b |
| JsValue.Coalesce | src/utils/dataCleaning.js:72-74 | `a ?? b`, the operator the admission test assumes: nullish exactly when both are; a unless a is null or undefined |
| JsValue.ToFixed2 | src/utils/dataCleaning.js:144 | `parseFloat(x.toFixed(2))` is within 0.005 of x below 10^21 in magnitude, and keeps x's sign |
| JsValue.ToFixed2Monotonic | src/utils/dataCleaning.js:230 | rounding to hundredths never reverses the order of two numbers |
| JsValue.ToFixed2OfHundredths | src/utils/dataCleaning.js:230 | a number with at most two decimals comes back unchanged |
| JsValue.ToFixed2Idempotent | src/utils/dataCleaning.js:144 | rounding an already rounded value changes nothing |
| JsArray.Filter | src/utils/dataCleaning.js:236 | `filter` keeps only elements that pass, all drawn from the input, never more of them |
| JsArray.FilterCount | src/utils/dataCleaning.js:247 | a passing element is kept exactly as often as it occurs; a failing one never |
| JsArray.FilterIsSubsequence | src/utils/dataCleaning.js:236 | `filter` keeps the input order |
| JsArray.FilterMember | src/utils/dataCleaning.js:138 | an element is in the filtered array exactly when it is in the input and passes |
| JsArray.FilterExtensional | src/utils/dataCleaning.js:247 | two predicates that agree everywhere filter alike |
| JsArray.FilterKeepsAll | src/utils/dataCleaning.js:236 | filtering an array whose every element passes gives it back |
| JsArray.FilterHead | src/utils/dataCleaning.js:179 | the first element of a filtered array is the first passing element of the input |
| JsArray.FindIndex | src/utils/dataCleaning.js:140 | `findIndex` gives -1 exactly when nothing passes, else the first passing index |
| JsArray.Find | src/utils/dataCleaning.js:128-129 | `find` gives nothing exactly when nothing passes, else the first passing element |
| JsArray.SliceTo | src/utils/dataCleaning.js:168 | `slice(0, end)` is the prefix whose length is end clamped to the array, counted from the back when end is negative |
| JsArray.InsertBy | src/utils/dataCleaning.js:92 | one insertion step of the sort adds exactly that element |
| JsArray.InsertBySorted | src/utils/dataCleaning.js:92 | inserting into a sorted array keeps it sorted |
| JsArray.SortBy | src/utils/dataCleaning.js:92 | `sort` by a comparator `key(a) - key(b)` is a permutation of its input, ascending in the key |
| JsArray.SortByMembers | src/utils/dataCleaning.js:242 | sorting keeps exactly the elements it was given |
| JsArray.SortBySingleton | src/utils/dataCleaning.js:92 | a one-element array sorts to itself |
| JsArray.FilterInsertBy | src/utils/dataCleaning.js:123 | within one key class, an insertion step puts the new element before the others |
| JsArray.SortByStable | src/utils/dataCleaning.js:123 | the sort is stable: the elements of one key class keep their input order |
| JsArray.InsertByStrict | src/utils/dataCleaning.js:214 | inserting a new key into a strictly ascending array keeps it strictly ascending |
| JsArray.SortByDistinctKeys | src/utils/dataCleaning.js:214 | elements with pairwise distinct keys sort strictly ascending |
| JsArray.SortBySorted | src/utils/dataCleaning.js:214 | sorting an already sorted array changes nothing |
| JsArray.SortedPrefixHoldsSmaller | src/utils/dataCleaning.js:168 | a prefix of a sorted array holds every element strictly below its last key |
| JsArray.SortedPrefixFacts | src/utils/dataCleaning.js:166-168 | a sorted prefix is sorted, drawn from the input, and omits nothing strictly ahead of its last element |
| JsArray.TopBy | src/utils/dataCleaning.js:178-180 | sort then `slice(0, limit)`: the clamped length, sorted, drawn from the input, nothing with a smaller key left out |
| Normalizer.CleanRow | src/utils/dataCleaning.js:68-91 | a row is kept exactly when its entity and year chains are truthy, its emissions chain is not nullish, and the parsed year is at least 1750 and the parsed emissions non-negative; the record carries the alias chains' values, with code `''` whenever the code chain is falsy (absent, `null`, or an empty string) |
| Normalizer.GlobalRow | src/utils/dataCleaning.js:100-122 | a row is kept exactly when its entity is exactly World or OWID_WRL, its year chain is truthy, its emissions chain not nullish, and the parsed emissions non-negative; no year floor |
| Normalizer.KeepCleaned | src/utils/dataCleaning.js:68-91 | the `filter`/`map`/`filter` chain keeps a record exactly when some row cleans to it, never more records than rows |
| Normalizer.CleansTo | src/utils/dataCleaning.js:76-91 | the rows that the cleaner turns into a given record |
| Normalizer.KeepCleanedCount | src/utils/dataCleaning.js:68-91 | every record is kept exactly as often as there are rows that clean to it, so each accepted row yields one record |
| Normalizer.SortedKeepCount | src/utils/dataCleaning.js:92 | after the year sort, every record still occurs exactly as often as there are rows that clean to it |
| Normalizer.KeptCountryRows | src/utils/dataCleaning.js:68-91 | a record is kept exactly when some row cleans to it; every kept record has a truthy entity, year ≥ 1750 and emissions ≥ 0 |
| Normalizer.CleanCountryData | src/utils/dataCleaning.js:64-93 | not an array gives []; otherwise ascending by year, each record valid, and each record occurring exactly as often as there are rows that clean to it |
| Normalizer.CleanCountryDataKeepsYearOrder | src/utils/dataCleaning.js:92 | records of one year leave in their input order |
| Normalizer.KeptWorldRows | src/utils/dataCleaning.js:100-122 | a world record is kept exactly when some row cleans to it; each has a world entity and emissions ≥ 0 |
| Normalizer.GetGlobalData | src/utils/dataCleaning.js:96-124 | not an array gives []; otherwise ascending by year, each record a world record, and each occurring exactly as often as there are rows that clean to it |
| Normalizer.GetGlobalDataKeepsYearOrder | src/utils/dataCleaning.js:123 | world records of one year leave in their input order |
| Normalizer.CleanOneRow | src/utils/dataCleaning.js:64-93 | a one-row input gives that row's record or nothing |
| Normalizer.GlobalOneRow | src/utils/dataCleaning.js:96-124 | a one-row input gives that row's world record or nothing |
| Normalizer.WorldRowBefore1750 | src/utils/dataCleaning.js:88 | a World row dated 1700 is kept by getGlobalData and dropped by cleanCountryData |
| Normalizer.ZeroEmissionsRowDropped | src/utils/dataCleaning.js:72-74 | a valid row whose emissions cell holds the number 0 is dropped (see Findings) |
| Normalizer.CleanRowIntended | src/utils/dataCleaning.js:72-88 | the corrected cleaner: the emissions cell is the first present one, so a present zero is admitted and parsed |
| Normalizer.CleanCountryDataIntended | src/utils/dataCleaning.js:64-93 | the corrected cleanCountryData is sorted by year, keeps every row the corrected cleaner accepts, and each record exactly as often as rows clean to it |
| Normalizer.ZeroEmissionsRowKeptWhenIntended | src/utils/dataCleaning.js:80 | the corrected cleaner keeps the zero-emissions row, with emissions 0 |
| Aggregator.YearsOfMembers | src/utils/dataCleaning.js:202-207 | the dictionary's keys are exactly the years some record carries |
| Aggregator.TotalForAbsentYear | src/utils/dataCleaning.js:203-204 | a year with no record totals 0 |
| Aggregator.TotalForAppend | src/utils/dataCleaning.js:206 | the total over two pieces is the sum of their totals |
| Aggregator.TotalForRemove | src/utils/dataCleaning.js:206 | removing one record subtracts its emissions from its year's total only |
| Aggregator.TotalForPermutation | src/utils/dataCleaning.js:202-207 | with exact arithmetic the totals do not depend on the order of the records |
| Aggregator.SummedStep | src/utils/dataCleaning.js:203-206 | one loop step adds the record's emissions to its year's entry, creating the entry and its key when new |
| Aggregator.SumByYear | src/utils/dataCleaning.js:200-207 | after the loop, the dictionary's keys are exactly the data's years, each holding the sum of that year's emissions; the key list names each key once |
| Aggregator.Entries | src/utils/dataCleaning.js:209-213 | `Object.entries(...).map(...)` gives one entry per key, in key order, holding that key's total |
| Aggregator.EntriesFacts | src/utils/dataCleaning.js:209-213 | the entries have pairwise distinct years, each with its total, and every year has one |
| Aggregator.SortedEntries | src/utils/dataCleaning.js:214 | after the sort, the entries ascend strictly by year and still cover every year |
| Aggregator.AggregateByYear | src/utils/dataCleaning.js:199-215 | one entry per distinct year, strictly ascending, each holding the sum of that year's emissions; no data gives [] |
| Aggregator.PercentChangeRoundTrip | src/utils/dataCleaning.js:224-225 | applying the percentage change to a positive previous total gives back the current total |
| Aggregator.PercentChangeSign | src/utils/dataCleaning.js:224-225 | the change is positive, negative or zero as the total rises, falls or stays; a non-negative total never falls below -100% |
| Aggregator.CalculateYearlyVariation | src/utils/dataCleaning.js:217-233 | null gives []; each entry keeps year and total; the first variation is 0; every other is the rounded percentage change from the entry before, and 0 when that total is not positive |
| Aggregator.VariationFollowsTotals | src/utils/dataCleaning.js:224-230 | after a positive total, a rising total shows a variation ≥ 0, a falling one ≤ 0, and it is never below -100 |
| Aggregator.VariationExample | src/utils/dataCleaning.js:217-233 | totals 100, 150, 0 give variations 0, 50, -100 |
| Aggregator.VariationAfterZeroTotal | src/utils/dataCleaning.js:224-226 | a zero previous total gives variation 0 rather than a division by zero |
| Views.FilterByYearRange | src/utils/dataCleaning.js:235-237 | exactly the records within the closed range, each as often as in data, in data's order; an inverted range gives [] |
| Views.FilterByYearRangeIdentity | src/utils/dataCleaning.js:235-237 | a range covering every record's year gives the data back |
| Views.FilterByYearRangeTwice | src/utils/dataCleaning.js:235-237 | two range filters in a row are one filter by the intersection of the ranges |
| Views.FilterBetweenTwice | src/utils/dataCleaning.js:236 | the same, stated on the filter predicate |
| Views.DataForYear | src/utils/dataCleaning.js:246-248 | exactly the records of that year, each as often as in data, in data's order |
| Views.DataForYearIsSingleYearRange | src/utils/dataCleaning.js:246-248 | one year's records are the range from that year to itself |
| Views.CountryData | src/utils/dataCleaning.js:239-243 | exactly that entity's records, each as often as in data, ascending by year |
| Views.CountryDataKeepsYearOrder | src/utils/dataCleaning.js:242 | a country's records of one year keep their order in data |
| Views.CanonicalName | src/utils/dataCleaning.js:252-264 | a name in the six-entry table (the constant `Views.NameMappings`, lines 252-260) becomes its mapped name; any other entity is kept |
| Views.NormalizeCountryNames | src/utils/dataCleaning.js:251-266 | same length; each record keeps code, year and emissions and gets its canonical name |
| Views.NormalizeCountryNamesIdempotent | src/utils/dataCleaning.js:252-264 | no mapped name is itself in the table, so normalising twice is normalising once |
| Ranking.RankedForYear | src/utils/dataCleaning.js:138-139 | the year's records, a permutation of data's records of that year, by descending emissions |
| Ranking.RankedMembers | src/utils/dataCleaning.js:138-139 | the ranking holds only records of that year from data, and all of them |
| Ranking.RankedAhead | src/utils/dataCleaning.js:139 | in the ranking, every entry with more emissions than entry n comes before n |
| Ranking.RankedHasCountry | src/utils/dataCleaning.js:138-140 | the country has a record that year exactly when `findIndex` finds it in the ranking |
| Ranking.RankFacts | src/utils/dataCleaning.js:138-140 | the facts GlobalRank states, about `findIndex(...) + 1` in the ranking |
| Ranking.GlobalRank | src/utils/dataCleaning.js:137-140 | 0 exactly when the country has no record that year; otherwise the 1-based place of its first entry in the ranking, behind every larger emitter |
| Ranking.Growth | src/utils/dataCleaning.js:129-135 | the rounded percentage change from the first record of the year before; 0 when there is none; ≥ 0 when emissions did not fall |
| Ranking.CountryWithGrowth | src/utils/dataCleaning.js:126-147 | null exactly when there is no record that year; else the first such record, its growth, and its rank, which is positive |
| Ranking.CountrySources | src/utils/dataCleaning.js:169-173 | the records a listing entry was built from |
| Ranking.YearDataSubMultiset | src/utils/dataCleaning.js:164 | one year's records are a sub-multiset of data |
| Ranking.SingleCountryEntry | src/utils/dataCleaning.js:151-160 | [] exactly when the country has no record that year; else one entry copying the lookup's emissions, code, growth and rank |
| Ranking.TopOfYear | src/utils/dataCleaning.js:164-168 | the listed prefix holds only that year's records, drawn from data, with no larger emitter of that year left out |
| Ranking.ToCountryRanks | src/utils/dataCleaning.js:169-173 | `map` gives one entry per ranked record, in order |
| Ranking.ListingOfYear | src/utils/dataCleaning.js:164-173 | the listing's entries give back the ranked prefix, by descending emissions |
| Ranking.TopCountriesOfYear | src/utils/dataCleaning.js:163-173 | `slice(0, limit)` of the year's records by descending emissions: clamped length, drawn from data, no larger emitter of that year left out |
| Ranking.TopCountries | src/utils/dataCleaning.js:150-174 | a truthy specificCountry gives the single-country entry, anything else the year's listing |
| Ranking.ListingIsRankedPrefix | src/utils/dataCleaning.js:137-139 | the first k entries of the listing are the first k countries of the ranking |
| Ranking.GlobalRankAgreesWithTopList | src/utils/dataCleaning.js:140 | the rank of the single-country mode is the country's first place in a listing of that many entries |
| Ranking.RankYears | src/utils/dataCleaning.js:181-186 | entry i has rank i + 1 and copies row i's year, emissions and entity |
| Ranking.YearSources | src/utils/dataCleaning.js:181-186 | the world rows a year listing was built from |
| Ranking.TopContaminatedYears | src/utils/dataCleaning.js:177-187 | ranks 1, 2, ... in order, by descending emissions, clamped length, drawn from the input, no larger year left out |
| Ranking.ReduceMax | src/utils/dataCleaning.js:193-195 | the fold yields the first row with the largest emissions |
| Ranking.MostContaminatedYear | src/utils/dataCleaning.js:190-196 | null exactly for a missing or empty series; else the first row with the largest emissions |
| Ranking.SortedHeadIsFirstMax | src/utils/dataCleaning.js:179 | the stable descending sort puts first the row the fold reports |
| Ranking.TopYearIsMostContaminated | src/utils/dataCleaning.js:177-196 | the first of the most polluted years is the most polluted year |
| Ranking.RankedOfTwo | src/utils/dataCleaning.js:164-168 | two records of one year are ranked larger emitter first |
| Ranking.SortOfTwo | src/utils/dataCleaning.js:167 | the descending sort swaps two records when the second has more emissions |
| Ranking.TopCountriesOfTwo | src/utils/dataCleaning.js:162-173 | two records of one year are listed larger emitter first |
| Ranking.MostContaminatedYearExample | src/utils/dataCleaning.js:193-195 | of two equally polluted years the earlier row is reported |
| Ranking.RankedOfOne | src/utils/dataCleaning.js:138-139 | a year with one record ranks just that record |
| Ranking.CountryWithGrowthOfTwo | src/utils/dataCleaning.js:126-147 | emissions going from 200 to 250 give growth 25 and rank 1 |
| JsValue.Truthy | src/utils/dataCleaning.js:74 | JavaScript's ToBoolean on cell values: `undefined`, `null`, `""` and `0` are falsy |
| JsValue.IsNullish | src/utils/dataCleaning.js:74 | the test `=== null \|\| === undefined` |
| JsValue.RoundHalfAwayToHundredths | src/utils/dataCleaning.js:144 | the nearest hundredth, the one farther from zero on a tie |
| JsArray.IsSubsequence | src/utils/dataCleaning.js:236 | one array is another with some elements deleted, the rest in order |
| JsArray.SliceLength | src/utils/dataCleaning.js:168 | the length of `slice(0, end)`: end clamped to the array, counted from the back when negative |
| JsArray.SortedBy | src/utils/dataCleaning.js:92 | an array is ascending in a key |
| JsArray.StrictlySortedBy | src/utils/dataCleaning.js:214 | an array is strictly ascending in a key |
| Records.RecYear | src/utils/dataCleaning.js:92 | the key of the comparator `a.year - b.year` on country records |
| Records.GlobalYear | src/utils/dataCleaning.js:123 | the key of `a.year - b.year` on world records |
| Records.TotalYear | src/utils/dataCleaning.js:214 | the key of `a.year - b.year` on yearly totals |
| Records.RecNegEmissions | src/utils/dataCleaning.js:167 | the key of the comparator `b.emissions - a.emissions` on country records, that is the negated emissions |
| Records.GlobalNegEmissions | src/utils/dataCleaning.js:179 | the key of `b.emissions - a.emissions` on world records |
| Records.YearIs | src/utils/dataCleaning.js:164 | the predicate `item => item.year === year` |
| Records.GlobalYearIs | src/utils/dataCleaning.js:123 | the same predicate on world records |
| Records.EntityIs | src/utils/dataCleaning.js:241 | the predicate `item => item.entity === countryName` |
| Normalizer.EntityChain | src/utils/dataCleaning.js:70 | `item.Entity \|\| item.country \|\| item.entity` |
| Normalizer.YearChain | src/utils/dataCleaning.js:71 | `item.Year \|\| item.year` |
| Normalizer.EmissionsChain | src/utils/dataCleaning.js:72 | `item['Annual CO₂ emissions'] \|\| item.emissions \|\| item.co2` |
| Normalizer.CodeAliases | src/utils/dataCleaning.js:81 | `item.Code \|\| item.code \|\| item.iso_code` |
| Normalizer.ParsedYear | src/utils/dataCleaning.js:79 | what `parseInt` reads from the year chain |
| Normalizer.ParsedEmissions | src/utils/dataCleaning.js:80 | what `parseFloat` reads from the emissions chain |
| Normalizer.ValidCountryValues | src/utils/dataCleaning.js:88 | the `isValid` test: both numbers parsed, emissions at least 0, year at least 1750 |
| Normalizer.HasCountryFields | src/utils/dataCleaning.js:74 | the admission test: entity and year chains truthy, emissions chain not null or undefined |
| Normalizer.IsWorld | src/utils/dataCleaning.js:106 | the entity is exactly `World` or `OWID_WRL` |
| Normalizer.HasWorldFields | src/utils/dataCleaning.js:101-108 | the admission test of getGlobalData |
| Normalizer.CountryCleaner | src/utils/dataCleaning.js:68-91 | CleanRow as a per-row cleaner |
| Normalizer.GlobalCleaner | src/utils/dataCleaning.js:100-122 | GlobalRow as a per-row cleaner |
| Normalizer.PresentEmissions | src/utils/dataCleaning.js:72 | the corrected emissions alias: the first cell that is not null or undefined |
| Normalizer.IntendedCleaner | src/utils/dataCleaning.js:68-91 | CleanRowIntended as a per-row cleaner |
| Aggregator.YearsOf | src/utils/dataCleaning.js:203-204 | the years that get a dictionary entry; YearsOfMembers states which |
| Aggregator.TotalFor | src/utils/dataCleaning.js:206 | the reference total: one year's emissions summed in data's order, against which SumByYear is proved |
| Aggregator.Summed | src/utils/dataCleaning.js:202-207 | the loop invariant: the dictionary holds exactly the prefix's years with their totals, each key listed once |
| Aggregator.PercentChange | src/utils/dataCleaning.js:224-226 | `prev > 0 ? (cur - prev) / prev * 100 : 0` before rounding, also the growth of lines 133-135; PercentChangeRoundTrip and PercentChangeSign state its properties |
| Aggregator.VariationAt | src/utils/dataCleaning.js:220-232 | the `map` callback at index i: variation 0 at index 0, else the rounded change from the entry before; CalculateYearlyVariation states its result |
| Views.YearBetween | src/utils/dataCleaning.js:236 | the predicate `item.year >= startYear && item.year <= endYear` |
| Ranking.RecordOf | src/utils/dataCleaning.js:128-129 | the predicate `item.entity === countryName && item.year === year` |
| Ranking.HasRecord | src/utils/dataCleaning.js:131 | the data holds a record of that country and year |
| Ranking.ToCountryRank | src/utils/dataCleaning.js:169-173 | the object `{country: item.entity, emissions: item.emissions, code: item.code}` |
| Ranking.GlobalEmissionsAre | src/utils/dataCleaning.js:194 | the world rows with one emissions value, the class the stable sort keeps in order |

## Left out

- `loadCountryData` and `loadWorldData` (lines 12-61) are left out. They fetch and parse CSV files, which is I/O; the model's input is the parsed rows.
- The list `GLOBAL_ENTITIES` (lines 5-9) is left out because no function uses it. `getGlobalData` compares against `World` and `OWID_WRL` only.
- The components, `App.js`, `server.js`, `importData.js` and `deploy.js` are not part of this model.
- `parseInt` and `parseFloat` are parameters, not definitions. The examples state on their requires what the parsers return for the cells they use.
- Floating point is not modelled. Emissions are exact reals: no NaN, no Infinity, no rounding in sums, no `-0`. NaN from parsing is `None`.
- TotalForPermutation holds only for exact sums; double addition is not associative.
- ToFixed2 models `toFixed(2)` as exact rounding half away from zero. The double nearest a decimal can round the other way.
- A cell can hold `undefined`, `null`, a string or a number. Booleans, objects and a cell literally named like an `Object.prototype` member are left out.
- Years and limits are integers. `parseInt` of a non-integer key and a fractional `limit` in `slice` are not modelled.
- The default arguments (`limit = 10`, `limit = 5`, `specificCountry = null`) are not modelled; callers pass every argument.
- Records are not given the `isValid` field. `cleanCountryData` adds it, and it is `true` on every record it keeps.
- Null or undefined data is not modelled where the code throws on it. `getTopContaminatedYears` (`[...globalData]`), `getCountryWithGrowth` (`data.find`), `getTopCountries` and `filterByYearRange`, `getCountryData` and `getDataForYear` (`data.filter`), `aggregateByYear` (`data.forEach`) and `normalizeCountryNames` (`data.map`) all throw; the model takes a sequence there. The callers in `App.js` always pass arrays.
- A `null` row inside the array is not modelled: both cleaners throw on `item.Entity` for it. The model's rows are records of cells.
- `getTopCountries`, `getCountryData` and `getCountryWithGrowth` are modelled as pure functions. They call the in-place `sort` only on a fresh copy made by `filter` or spread, so no caller can see the mutation.
- The `sort` of `cleanCountryData`, `getGlobalData` and `getCountryData` also runs on an array made one step earlier, so those are pure too.
- SumByYear does not model `Object.entries` order. JavaScript lists array-index keys (0 to 2³²−2) ascending and any other key, such as a negative year, after them in insertion order; the model lists every key in first-seen order. The sort that follows makes the two agree.
- `year: parseInt(year)` parses the dictionary's string key back to an integer. The model keeps the integer key.

## Findings

| source | as written | input that shows it | evidently intended | confidence | as-written member | corrected member |
|---|---|---|---|---|---|---|
| src/utils/dataCleaning.js:72-74 | the emissions alias is `a \|\| b \|\| c`, so a numeric 0 falls through to the absent later columns and gives `undefined`; the test `!== null && !== undefined` then drops the row | a row with Entity `Tuvalu`, Year 1990, the emissions column 0 and no `emissions` or `co2` column, as only the PapaParse fallback of `loadCountryData` (lines 20-33, `dynamicTyping: true`) delivers it; the d3 `csv` path (line 15) gives the string `"0"`, which is truthy and kept. `getGlobalData` uses the same chain and test at lines 103, 108 and 113 | the null checks admit present but falsy values, so the first present cell (`??`) should be used and a zero emission kept | not executed | Normalizer.ZeroEmissionsRowDropped | Normalizer.CleanCountryDataIntended |
