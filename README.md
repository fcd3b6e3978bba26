# Roaming option matcher — a Dafny model

This project models the decision logic of a roaming-plan recommender for business travellers. A traveller's itinerary is a list of items: a country name and two dates. The recommender:

1. collects the distinct non-empty destination names;
2. looks up each name's coverage category in the country directory, ignoring case;
3. drops EU destinations and destinations the directory does not know;
4. matches every catalog option against the destinations that remain;
5. annotates each option that covers at least one of them with the countries it covers, and flags it as recommended when it covers them all;
6. ranks the annotated options:
   - recommended options first;
   - then by plan type (monthly, weekly, daily, special, base);
   - then by number of covered countries, most first;
   - any remaining tie keeps catalog order.

Around that core sit three smaller pieces, all modelled:

- the alias table and the country-name normaliser used on names extracted from free text;
- the step that turns extracted records into itinerary items;
- the editing helpers of the itinerary planner, which cover the two date-format converters and the add, remove and change handlers.

Layout, one module per file:

- `types.dfy` (`Types`): the record types of the application. Optional fields become `Optional<T>`.
- `text.dfy` (`Text`): the JavaScript string primitives the core uses: `toLowerCase`, `trim`, `split`, `reverse` and `join`.
- `sequences.dfy` (`Sequences`): `filter` and `[...new Set(xs)]`, plus the notion of one list keeping another list's order.
- `sorting.dfy` (`Sorting`): `Array.prototype.sort` with a comparator. It is specified by a functional stable insertion sort and implemented in place on an `array`. It is proved to be a permutation, sorted under a consistent comparator, and stable, as section 22.1.3.27 of ECMA-262, 10th edition, requires.
- `option_service.dfy` (`OptionService`): `getOptionsForItinerary`, in two parts:
  - functions that define each step;
  - methods that run the service's own loops (the `forEach` that fills the category map, the two `forEach` loops that push covered countries and matched options, and the in-place sort), each proved equal to the defining function.
- `option_properties.dfy` (`OptionProperties`): what the matcher's result means.
- `gemini_service.dfy` (`GeminiService`): the alias table, `normalizeCountryName` and the record-to-item mapping.
- `itinerary_planner.dfy` (`ItineraryPlanner`): the date converters and the three list handlers.

The directory (`ALL_COUNTRIES`) and the catalog (`ALL_OPTIONS`) come from a constants file that is not part of this model. So `getOptionsForItinerary` takes them as parameters. The readings of the clock (`Date.now()`) are parameters too.

The application's entry component (App.tsx:26,50,90,104) expects a result with three parts: `baseOption`, `recommended` and `special`. The code of `getOptionsForItinerary` returns one flat list instead, and it matches every catalog option whatever its type. The model follows that code.

The record types of types.ts become datatypes in `Types`:

- `ItineraryItem` (types.ts:2-7): a numeric id and three plain strings that may be empty.
- `CoverageCategory` (types.ts:9): exactly five categories.
- `OptionCoverage` (types.ts:11-15): a rule tagged `countries`, `category` or `special`, with an optional country list and an optional category.
- `OptionIncludes` (types.ts:17-24): six optional strings.
- `Option` (types.ts:26-38): a plan of one of five types (`PlanType`), with one of four cost units (`CostUnit`). The two annotations `isRecommended` and `coveredItineraryCountries` are optional and absent on plain catalog entries.
- `Country` (types.ts:40-44): a name, a category and a code.

The alias table `countryAliases` (services/geminiService.ts:6-20) is the constant map `GeminiService.Aliases`: thirteen lower-case keys, each mapped to "Emirati Arabi Uniti", "Stati Uniti" or "Regno Unito". AliasTargets, CanonicalIsNoAlias, UsaAliases and UnitedKingdomAliases state its properties.

## Model

| member | source | states |
|---|---|---|
| OptionService.GetOptionsForItinerary | services/optionService.ts:4-86 | The procedure equals the step-by-step definition `OptionsForItinerary`: an empty itinerary gives `[]`, an itinerary without a known non-EU destination gives `[]`, and otherwise the result is the matched options after the stable sort. |
| OptionService.OptionsForItinerary | services/optionService.ts:4-86 | The step-by-step definition of the matcher: `[]` for an empty itinerary, `[]` without a known non-EU destination, and otherwise the stable sort of the matched options. ResultEmpty, ResultIsStableSort, ResultOrder, ResultEntry and ResultComplete state what it means. |
| OptionService.UniqueCountries | services/optionService.ts:9 | The non-empty destination names without repeats, in first-seen order (UniqueCountriesSpec). |
| OptionService.CategoryMap | services/optionService.ts:10-11 | The map from lower-cased directory name to category, filled in directory order (CategoryMapDomain, CategoryMapLastWins). |
| OptionService.NonEuCountries | services/optionService.ts:13-16 | The destinations whose case-insensitive lookup finds a category other than EU (NonEuSpec). |
| OptionService.CategoryCovers | services/optionService.ts:37-41 | The containment rule: a category covers itself, and `ExtraUE_World` also covers `TOP16` and `USA` (CategoryCoversIsOrder). |
| OptionService.CoveredCountries | services/optionService.ts:26-43 | The destinations an option's category rule covers, in destination order, and none without a category rule (CoveredSpec). |
| OptionService.Annotate | services/optionService.ts:45-51 | The copy with the deduplicated covered list and the full-match flag set; every other field is the catalog entry's (MatchedSpec). |
| OptionService.Matched | services/optionService.ts:26-51 | The annotated copy of one catalog option (MatchedSpec, MatchedEntry). |
| OptionService.MatchCatalog | services/optionService.ts:22-55 | The annotated copies of the catalog options that cover something, in catalog order (MatchCatalogIsFilterMap, MatchCatalogSound, MatchCatalogComplete). |
| OptionService.TypePriority | services/optionService.ts:67-69 | monthly 1, weekly 2, daily 3, special 4, base 5 (SortsBeforeMeaning, ResultOrder). |
| OptionService.Compare | services/optionService.ts:61-83 | The comparator: recommended first, then lower type priority, then more covered countries, else 0 (CompareAntisymmetric, TiedIffCompareZero, SortsBeforeIsKeyLess). |
| OptionService.SortsBefore | services/optionService.ts:61-83 | A negative comparison (SortsBeforeMeaning, SortsBeforeIsStrictWeakOrder). |
| OptionService.BuildCategoryMap | services/optionService.ts:10-11 | The `forEach` that calls `set` for each directory entry builds exactly the map from lower-cased name to category, the later entry overwriting the earlier one. |
| OptionService.CollectCovered | services/optionService.ts:26-43 | The inner loop pushes exactly the destinations the option's category rule covers, in destination order. It pushes nothing for an option without a category rule. |
| OptionService.MatchOptions | services/optionService.ts:22-55 | The catalog loop yields the annotated copies of the options that cover something, in catalog order. Each copy gets the deduplicated covered list and the full-match flag. |
| Sorting.SortInPlace | services/optionService.ts:61-83 | Sorting the array in place leaves in it exactly the stable insertion sort of its old contents under the comparator. |
| Sorting.InsertAt | services/optionService.ts:61-83 | One pass moves the new element left past exactly the elements it sorts strictly before, and leaves the rest of the array unchanged. |
| Sorting.SortByPermutes | services/optionService.ts:61 | Sorting only reorders: the result is a permutation of the input. |
| Sorting.SortBySorted | services/optionService.ts:61-83 | With a consistent comparator (a strict weak order), no element of the result sorts before an element to its left. |
| Sorting.SortByStable | services/optionService.ts:82 | Stability: for every `k`, the elements tied with `k` keep their relative order. |
| OptionProperties.UniqueCountriesSpec | services/optionService.ts:9 | A name is a unique country if and only if it is non-empty and some item carries exactly that string. The unique countries have no repeats and are in first-seen order. |
| OptionProperties.CategoryMapDomain | services/optionService.ts:10-11 | A key is in the category map if and only if it is the lower-cased name of some directory entry. |
| OptionProperties.CategoryMapLastWins | services/optionService.ts:11 | A key maps to the category of the last directory entry with that lower-cased name. |
| OptionProperties.NonEuSpec | services/optionService.ts:13-16 | A name is a non-EU destination if and only if it is a non-empty itinerary country whose case-insensitive lookup finds a category other than EU. Unknown names are excluded. The list has no repeats and is in itinerary order. |
| OptionProperties.CaseVariantsBothKept | services/optionService.ts:9-16 | Two spellings of a known non-EU country that differ only in case both stay as destinations, because deduplication compares exact strings while the lookup ignores case. |
| OptionProperties.CategoryCoversIsOrder | services/optionService.ts:37-41 | The containment rule between categories is reflexive, antisymmetric and transitive. |
| OptionProperties.CoveredSpec | services/optionService.ts:28-43 | A destination is covered if and only if the option has a category rule whose category contains the destination's category. The covered list has no repeats and keeps destination order. |
| OptionProperties.OnlyCategoryRulesMatch | services/optionService.ts:28-45 | An option that covers something has a category rule, and that rule covers one of the destinations. Options with a country-list or special rule never match. |
| OptionProperties.MatchedSpec | services/optionService.ts:45-51 | On the annotated copy: its covered list is the covered destinations, and the deduplication changes nothing. Its flag is set, and it is true if and only if every destination is covered, equivalently if and only if as many are covered as there are destinations. Every other field is the catalog entry's. |
| OptionProperties.MatchCatalogIsFilterMap | services/optionService.ts:24-55 | The matched options are the catalog filtered by "covers something", then mapped to annotated copies, in catalog order. |
| OptionProperties.MatchCatalogSound | services/optionService.ts:24-54 | Each matched option is the annotated copy of a catalog option that covers a destination. |
| OptionProperties.MatchCatalogComplete | services/optionService.ts:45-53 | The annotated copy of every catalog option that covers a destination is among the matched options. |
| OptionProperties.SortsBeforeMeaning | services/optionService.ts:61-83 | A negative comparison means one of three things: the first option is recommended and the second is not; the flags are equal and the type priority is lower; or the flags and types are equal and more countries are covered. |
| OptionProperties.CompareAntisymmetric | services/optionService.ts:61-83 | `compare(a, b) == -compare(b, a)`. |
| OptionProperties.TiedIffCompareZero | services/optionService.ts:82 | Two options tie under the sort if and only if the comparator returns 0. |
| OptionProperties.SortsBeforeIsKeyLess | services/optionService.ts:61-83 | A negative comparison is the lexicographic order on the key (not recommended, type priority, minus covered count). |
| OptionProperties.SortsBeforeIsStrictWeakOrder | services/optionService.ts:61-83 | The comparator is consistent: "sorts before" is asymmetric and its complement is transitive. |
| OptionProperties.ResultEmpty | services/optionService.ts:4-20 | The result is empty if and only if one of three holds: the itinerary is empty; it has no known non-EU destination; or no catalog option covers one. |
| OptionProperties.ResultIsStableSort | services/optionService.ts:57-85 | Otherwise the result is a permutation of the matched options. It is sorted by the comparator, and options the comparator ties stay in catalog order. |
| OptionProperties.ResultOrder | services/optionService.ts:57-83 | Ordering of the result: recommended before non-recommended; with equal flags, lower type priority first; with equal flags and type, more covered countries first. |
| OptionProperties.ResultEntry | services/optionService.ts:24-54 | Each returned option is the annotated copy of a catalog option and has a category rule. Its covered list is non-empty, has no repeats and is in itinerary order. It holds only known non-EU destinations that its category contains, so EU and unknown countries never appear. Its flag is true if and only if it covers all destinations. |
| OptionProperties.ResultComplete | services/optionService.ts:45-53 | For a non-empty itinerary, every catalog option that covers a destination is returned. |
| OptionProperties.MatchedEntry | services/optionService.ts:28-53 | The annotated copy of an option that covers something, for duplicate-free known non-EU destinations, has all the per-entry properties above. |
| Sequences.Filter | services/optionService.ts:13 | `filter` keeps exactly the elements that pass: every kept element is in the input and passes, and every passing input element is kept. |
| Sequences.FilterConcat | components/ItineraryPlanner.tsx:37 | Filtering a concatenation is the concatenation of the filters, so filtering keeps order. |
| Sequences.FilterKeepsAll | services/optionService.ts:49 | The filter is as long as its input if and only if every element passes, and then it is the input. |
| Sequences.FilterOrdered | services/optionService.ts:13 | A filter of a duplicate-free list is duplicate-free and keeps the list's order. |
| Sequences.FilterFirstIndex | services/optionService.ts:9 | Filtering keeps the relative order of first occurrences. |
| Sequences.Distinct | services/optionService.ts:9 | `[...new Set(xs)]` holds exactly the elements of `xs`. |
| Sequences.DistinctOrdered | services/optionService.ts:9 | The deduplicated list has no repeats and lists elements in first-occurrence order. |
| Sequences.DistinctOfDistinct | services/optionService.ts:46 | Deduplicating a list without repeats changes nothing. |
| Text.Lower | services/optionService.ts:11 | `toLowerCase` keeps the length and lowers each character. |
| Text.LowerIdempotent | services/geminiService.ts:23 | Lower-casing twice is lower-casing once. |
| Text.Trim | services/geminiService.ts:23 | `trim` gives the slice of the input between its leading and its trailing white space. That slice neither starts nor ends with white space, and a string that already does neither is left unchanged. |
| Text.TrimStart | services/geminiService.ts:23 | It drops only leading white space and keeps a suffix. |
| Text.TrimEnd | services/geminiService.ts:23 | It drops only trailing white space and keeps a prefix. |
| Text.Split | components/ItineraryPlanner.tsx:18 | `split` gives at least one piece, and no piece contains the separator. |
| Text.JoinSplit | components/ItineraryPlanner.tsx:18-19 | Joining the pieces of a split with the same separator gives the string back. |
| Text.SplitJoin | components/ItineraryPlanner.tsx:18-19 | Splitting a join of separator-free pieces gives the pieces back. |
| Text.Reverse | components/ItineraryPlanner.tsx:18 | `reverse` keeps the length and mirrors the positions. |
| Text.ReverseReverse | components/ItineraryPlanner.tsx:18-19 | Reversing twice is the identity. |
| ItineraryPlanner.ToYYYYMMDD | components/ItineraryPlanner.tsx:18 | `toYYYYMMDD` reverses the '/'-separated fields and joins them with '-'. It maps "" to "", and no '/' is left in its result. ToAfterFrom and FromAfterTo make it the inverse of `fromYYYYMMDD`. |
| ItineraryPlanner.FromYYYYMMDD | components/ItineraryPlanner.tsx:19 | `fromYYYYMMDD` reverses the '-'-separated fields and joins them with '/'. It maps "" to "", and no '-' is left in its result. |
| ItineraryPlanner.EmptyDates | components/ItineraryPlanner.tsx:18-19 | Both converters map "" to "". |
| ItineraryPlanner.ReverseJoinRoundTrip | components/ItineraryPlanner.tsx:18-19 | Reversing the pieces split on one separator and joining with another, then doing the same back, returns the input. |
| ItineraryPlanner.ToAfterFrom | components/ItineraryPlanner.tsx:18-19 | `toYYYYMMDD(fromYYYYMMDD(d)) == d` for every `d` without '/'. |
| ItineraryPlanner.FromAfterTo | components/ItineraryPlanner.tsx:18-19 | `fromYYYYMMDD(toYYYYMMDD(d)) == d` for every `d` without '-'. |
| ItineraryPlanner.FromExample | components/ItineraryPlanner.tsx:19 | "2025-10-26" becomes "26/10/2025". |
| ItineraryPlanner.ToExample | components/ItineraryPlanner.tsx:18 | "26/10/2025" becomes "2025-10-26". |
| ItineraryPlanner.AddItem | components/ItineraryPlanner.tsx:26-33 | Add appends exactly one item: it has the clock value as id and empty country and dates. The existing items are unchanged and in order. |
| ItineraryPlanner.RemoveItem | components/ItineraryPlanner.tsx:36-37 | Removal is the `filter` on "id differs": an item is kept if and only if its id differs from the given one. |
| ItineraryPlanner.RemoveAbsent | components/ItineraryPlanner.tsx:36-37 | Removing an id that no item carries changes nothing. |
| ItineraryPlanner.RemoveConcat | components/ItineraryPlanner.tsx:37 | Removal acts on each part of a concatenation separately, so order is kept. |
| ItineraryPlanner.AddThenRemove | components/ItineraryPlanner.tsx:26-37 | Removing the id of a freshly added item undoes the add. |
| ItineraryPlanner.ItemChange | components/ItineraryPlanner.tsx:40-44 | Change keeps the length and the ids. The named field of each item with the id reads the new value, and every other field of every item reads as before. |
| ItineraryPlanner.ChangeLeavesOthers | components/ItineraryPlanner.tsx:41-42 | Items with another id are left exactly as they were. |
| ItineraryPlanner.ChangeIdempotent | components/ItineraryPlanner.tsx:40-44 | Applying the same change twice is applying it once. |
| GeminiService.NormalizeCountryName | services/geminiService.ts:22-30 | A name whose trimmed, lower-cased key is an alias becomes that alias's canonical name. Any other name comes back exactly as given. |
| GeminiService.NormalizeResult | services/geminiService.ts:6-29 | The result is always the input unchanged or one of "Emirati Arabi Uniti", "Stati Uniti" and "Regno Unito". |
| GeminiService.CanonicalIsNoAlias | services/geminiService.ts:6-20 | No canonical name, trimmed and lower-cased, is an alias key. |
| GeminiService.NormalizeIdempotent | services/geminiService.ts:22-30 | Normalising twice is normalising once. |
| GeminiService.UsaAliases | services/geminiService.ts:22-26 | "USA", " usa " and "Usa" all become "Stati Uniti". |
| GeminiService.UnitedKingdomAliases | services/geminiService.ts:13-19 | "uk", "great britain", "united kingdom", "england", "scotland", "wales" and "northern ireland" all map to "Regno Unito". |
| GeminiService.ToItineraryItems | services/geminiService.ts:71-75 | The mapping keeps length and order. Each item has the id "clock reading for that record + index" and the normalised country, and keeps its dates. |
| GeminiService.IdsIncreasing | services/geminiService.ts:70-75 | While the per-record clock readings do not decrease, the ids strictly increase with the index, so they are distinct, as the comment at line 70 promises. |
| GeminiService.IdsCollideWhenClockStepsBack | services/geminiService.ts:70-75 | With readings 1000 and then 999, two records get the same id 1000, so uniqueness needs a clock that does not go backwards. |
| GeminiService.ItemsAreNormal | services/geminiService.ts:71-75 | Every produced country is already normal. |
| GeminiService.AliasLookupAsWritten | services/geminiService.ts:25 | `countryAliases[key]` with the prototype chain: the alias's canonical name for an own key, a non-string object for "constructor" and "__proto__", and `undefined` otherwise (PrototypeKeyDiverges). |
| GeminiService.NormalizeAsWritten | services/geminiService.ts:22-30 | The function as JavaScript evaluates it, with the prototype chain, agrees with the own-key lookup on every name whose key is not a prototype key. |
| GeminiService.PrototypeKeyDiverges | services/geminiService.ts:22-27 | On names whose key is "constructor" or "__proto__", the function as written returns a non-string, while the own-key lookup returns the input. |
| GeminiService.PrototypeKeyEscapes | services/geminiService.ts:22-27 | " constructor " is such a name. |

## Left out

- Text.Lower: `toLowerCase` is modelled on ASCII letters only. Other Unicode case mappings are not modelled, so names with accented capitals are lowered less than JavaScript lowers them.
- The network call to the language model, its prompt, and the `JSON.parse` of its reply (services/geminiService.ts:33-68). These are I/O and untrusted parsing. The parsed records are a parameter of `GeminiService.ToItineraryItems`.
- `Date.now()`: its readings are parameters. `handleAddItem` reads the clock once; the `.map` of services/geminiService.ts:71-75 reads it once per record, so `GeminiService.ToItineraryItems` takes one reading per record. GeminiService.IdsIncreasing states uniqueness within one call, under non-decreasing readings. Uniqueness across calls, or against ids made by `handleAddItem`, depends on the clock and is not stated.
- Ids and counts are unbounded integers. JavaScript numbers beyond 2^53 are not modelled.
- The `!itinerary` test at services/optionService.ts:5: a Dafny sequence is never null or undefined, so only the empty case exists.
- The JSON deep copy at services/optionService.ts:25: Dafny datatype values are immutable, so annotating a copy cannot change the catalog, and aliasing does not arise.
- The `|| 99` fallback at services/optionService.ts:68-69: every plan type has a priority, so the fallback is unreachable. The model has none.
- Sorting.SortInPlace fixes one algorithm, insertion sort, while ECMAScript fixes only the outcome's stability. The model proves that the result is a sorted, stable permutation. It does not prove that such a permutation is unique, and so does not prove that every conforming engine returns the same list.
- The `countries` list of a country-list coverage rule is never read by the matcher, and the model does not read it either.
- The React components, their state and rendering (App.tsx, OptionCard.tsx, AllOptions.tsx, Header.tsx, Footer.tsx). Presentation only.
- The country dropdown's `localeCompare` sort (components/ItineraryPlanner.tsx:24): locale-dependent collation.
- The contents of the directory and the catalog. constants.ts is not part of this model, so both are arbitrary parameters.
- `findRecommendedOptions` and its `RecommendedOptions` result, to which App.tsx refers. Their source is not part of this model, and no base-coverage entry or special list is invented for them.

## Findings

| source | as written | input that shows it | evidently intended | confidence | as-written member | corrected member |
|---|---|---|---|---|---|---|
| services/geminiService.ts:22-27 | `countryAliases[lowerCaseName]` indexes a plain object literal. A key that is not an own property is looked up along the prototype chain. The lower-case keys "constructor" and "__proto__" reach `Object.prototype` members, which are truthy non-strings, and the function returns them in place of a country name. | `" constructor "` (trimmed and lower-cased to "constructor") | Look the alias up among the table's own keys only, for example with `Object.hasOwn` or a `Map`. Return the input unchanged when the key is not an alias. | not executed | GeminiService.PrototypeKeyEscapes | GeminiService.NormalizeCountryName |
