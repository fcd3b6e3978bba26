/** What the result of `getOptionsForItinerary` means: which destinations count,
    which options are returned and with what annotations, and in what order. */
module OptionProperties {
  import opened Types
  import opened Text
  import opened Sequences
  import opened Sorting
  import opened OptionService

  // ---------------------------------------------------------------------------
  // Destinations.

  /** The unique countries are the non-empty itinerary countries, compared as
      exact strings, each once, in first-seen order. */
  lemma UniqueCountriesSpec(itinerary: seq<ItineraryItem>)
    ensures forall c :: c in UniqueCountries(itinerary) <==>
      c != "" && exists i :: 0 <= i < |itinerary| && itinerary[i].country == c
    ensures NoDuplicates(UniqueCountries(itinerary))
    ensures OrderedAsIn(UniqueCountries(itinerary), CountryNames(itinerary))
  {
    var names := CountryNames(itinerary);
    var named := NonEmptyCountries(itinerary);
    var u := UniqueCountries(itinerary);
    forall c
      ensures c in u <==> c != "" && exists i :: 0 <= i < |itinerary| && itinerary[i].country == c
    {
      if c in u {
        var k :| 0 <= k < |u| && u[k] == c;
        var m :| 0 <= m < |named| && named[m] == c;
        assert Named(named[m]);
        var n :| 0 <= n < |names| && names[n] == c;
        assert itinerary[n].country == c;
      }
      if c != "" && exists i :: 0 <= i < |itinerary| && itinerary[i].country == c {
        var i :| 0 <= i < |itinerary| && itinerary[i].country == c;
        assert names[i] == c && Named(names[i]);
        var m :| 0 <= m < |named| && named[m] == c;
      }
    }
    DistinctOrdered(named);
    OrderedAsInFilter(u, names, Named);
  }

  /** The map from lower-cased directory names to categories holds exactly the
      lower-cased names of the directory. */
  lemma {:induction false} CategoryMapDomain(directory: seq<Country>, key: string)
    ensures key in CategoryMap(directory) <==>
      exists i :: 0 <= i < |directory| && Lower(directory[i].name) == key
  {
    if directory != [] {
      var n := |directory| - 1;
      var init := directory[..n];
      CategoryMapDomain(init, key);
      if exists i :: 0 <= i < |directory| && Lower(directory[i].name) == key {
        var i :| 0 <= i < |directory| && Lower(directory[i].name) == key;
        if i < n {
          assert init[i] == directory[i];
        }
      }
      if key in CategoryMap(init) {
        var i :| 0 <= i < |init| && Lower(init[i].name) == key;
        assert directory[i] == init[i];
      }
    }
  }

  /** Of several directory entries equal up to case, the last one sets the category. */
  lemma {:induction false} CategoryMapLastWins(directory: seq<Country>, i: int)
    requires 0 <= i < |directory|
    requires forall j :: i < j < |directory| ==> Lower(directory[j].name) != Lower(directory[i].name)
    ensures Lower(directory[i].name) in CategoryMap(directory)
    ensures CategoryMap(directory)[Lower(directory[i].name)] == directory[i].category
  {
    var n := |directory| - 1;
    if i < n {
      var init := directory[..n];
      assert init[i] == directory[i];
      forall j | i < j < |init| ensures Lower(init[j].name) != Lower(init[i].name) {
        assert init[j] == directory[j];
      }
      CategoryMapLastWins(init, i);
    }
  }

  /** The non-EU destinations are the non-empty itinerary countries whose
      case-insensitive lookup finds a category other than EU, each once, in
      first-seen order. */
  lemma NonEuSpec(itinerary: seq<ItineraryItem>, directory: seq<Country>)
    ensures forall c :: c in NonEuOf(itinerary, directory) <==>
      && c != ""
      && (exists i :: 0 <= i < |itinerary| && itinerary[i].country == c)
      && IsNonEu(CategoryMap(directory), c)
    ensures NoDuplicates(NonEuOf(itinerary, directory))
    ensures OrderedAsIn(NonEuOf(itinerary, directory), CountryNames(itinerary))
  {
    UniqueCountriesSpec(itinerary);
    var u := UniqueCountries(itinerary);
    var cmap := CategoryMap(directory);
    var p := NonEuTest(cmap);
    var nonEu := NonEuOf(itinerary, directory);
    forall c ensures c in nonEu <==> c in u && IsNonEu(cmap, c) {
      if c in nonEu {
        var k :| 0 <= k < |nonEu| && nonEu[k] == c;
        assert p(nonEu[k]);
      }
      if c in u && IsNonEu(cmap, c) {
        var k :| 0 <= k < |u| && u[k] == c;
        assert p(u[k]);
      }
    }
    FilterOrdered(u, p);
    OrderedAsInTrans(nonEu, u, CountryNames(itinerary));
  }

  /** Deduplication is by exact string while the lookup ignores case: two
      spellings of a known non-EU country that differ only in case are both kept. */
  lemma CaseVariantsBothKept(itinerary: seq<ItineraryItem>, directory: seq<Country>, i: int, j: int)
    requires 0 <= i < |itinerary| && 0 <= j < |itinerary|
    requires itinerary[i].country != "" && itinerary[j].country != ""
    requires Lower(itinerary[i].country) == Lower(itinerary[j].country)
    requires IsNonEu(CategoryMap(directory), itinerary[i].country)
    ensures itinerary[i].country in NonEuOf(itinerary, directory)
    ensures itinerary[j].country in NonEuOf(itinerary, directory)
  {
    NonEuSpec(itinerary, directory);
  }

  // ---------------------------------------------------------------------------
  // Coverage of one option.

  /** Category containment is a partial order. */
  lemma CategoryCoversIsOrder()
    ensures forall a :: CategoryCovers(a, a)
    ensures forall a, b :: CategoryCovers(a, b) && CategoryCovers(b, a) ==> a == b
    ensures forall a, b, c :: CategoryCovers(a, b) && CategoryCovers(b, c) ==> CategoryCovers(a, c)
  {
  }

  /** An option covers a destination exactly when it has a category rule and
      that category contains the destination's category; the covered list keeps
      the destinations' order without repeats. */
  lemma CoveredSpec(option: Option, nonEu: seq<string>, cmap: map<string, CoverageCategory>)
    ensures forall c :: c in CoveredCountries(option, nonEu, cmap) <==>
      c in nonEu && HasCategoryRule(option) && CoversCountry(cmap, option.coverage.category.value, c)
    ensures NoDuplicates(nonEu) ==>
      NoDuplicates(CoveredCountries(option, nonEu, cmap)) && OrderedAsIn(CoveredCountries(option, nonEu, cmap), nonEu)
  {
    if HasCategoryRule(option) {
      var p := CoversTest(cmap, option.coverage.category.value);
      var cov := CoveredCountries(option, nonEu, cmap);
      forall c ensures c in cov <==> c in nonEu && p(c) {
        if c in cov {
          var k :| 0 <= k < |cov| && cov[k] == c;
          assert p(cov[k]);
        }
        if c in nonEu && p(c) {
          var k :| 0 <= k < |nonEu| && nonEu[k] == c;
        }
      }
      if NoDuplicates(nonEu) {
        FilterOrdered(nonEu, p);
      }
    }
  }

  /** The annotated copy: its covered list is the covered destinations (already
      free of repeats), it is flagged recommended exactly when it covers every
      destination, equivalently when it covers as many as there are, and every
      other field is the catalog entry's. */
  lemma MatchedSpec(option: Option, nonEu: seq<string>, cmap: map<string, CoverageCategory>)
    requires NoDuplicates(nonEu)
    ensures Matched(option, nonEu, cmap).coveredItineraryCountries == Some(CoveredCountries(option, nonEu, cmap))
    ensures Matched(option, nonEu, cmap).isRecommended.Some?
    ensures Recommended(Matched(option, nonEu, cmap)) <==>
      forall c :: c in nonEu ==> c in CoveredCountries(option, nonEu, cmap)
    ensures Recommended(Matched(option, nonEu, cmap)) <==>
      |CoveredCountries(option, nonEu, cmap)| == |nonEu|
    ensures Matched(option, nonEu, cmap).(coveredItineraryCountries := option.coveredItineraryCountries,
                                          isRecommended := option.isRecommended) == option
  {
    CoveredSpec(option, nonEu, cmap);
    var cov := CoveredCountries(option, nonEu, cmap);
    DistinctOfDistinct(cov);
    if HasCategoryRule(option) {
      var p := CoversTest(cmap, option.coverage.category.value);
      FilterKeepsAll(nonEu, p);
      if forall c :: c in nonEu ==> c in cov {
        forall i | 0 <= i < |nonEu| ensures p(nonEu[i]) {
          assert nonEu[i] in cov;
        }
      }
    } else if nonEu != [] {
      assert nonEu[0] !in cov;
    }
  }

  /** Only an option with a category rule keeps anything. */
  lemma OnlyCategoryRulesMatch(option: Option, nonEu: seq<string>, cmap: map<string, CoverageCategory>)
    requires CoversSome(option, nonEu, cmap)
    ensures HasCategoryRule(option)
    ensures exists c :: c in nonEu && CoversCountry(cmap, option.coverage.category.value, c)
  {
    CoveredSpec(option, nonEu, cmap);
    assert CoveredCountries(option, nonEu, cmap)[0] in CoveredCountries(option, nonEu, cmap);
  }

  // ---------------------------------------------------------------------------
  // The matched options.

  function CoversSomeTest(nonEu: seq<string>, cmap: map<string, CoverageCategory>): Option -> bool
  {
    (o: Option) => CoversSome(o, nonEu, cmap)
  }

  /** The annotated copies of a list of options, in order. */
  function MatchedAll(options: seq<Option>, nonEu: seq<string>, cmap: map<string, CoverageCategory>): (r: seq<Option>)
    ensures |r| == |options|
  {
    seq(|options|, i requires 0 <= i < |options| => Matched(options[i], nonEu, cmap))
  }

  lemma MatchedAllSnoc(options: seq<Option>, x: Option, nonEu: seq<string>, cmap: map<string, CoverageCategory>)
    ensures MatchedAll(options + [x], nonEu, cmap) == MatchedAll(options, nonEu, cmap) + [Matched(x, nonEu, cmap)]
  {
  }

  /** `matchedOptions` is `catalog.filter(coversSome).map(annotate)`: the annotated
      copies of exactly the catalog options that cover a destination, in catalog order. */
  lemma {:induction false} MatchCatalogIsFilterMap(catalog: seq<Option>, nonEu: seq<string>, cmap: map<string, CoverageCategory>)
    ensures MatchCatalog(catalog, nonEu, cmap) == MatchedAll(Filter(catalog, CoversSomeTest(nonEu, cmap)), nonEu, cmap)
  {
    if catalog != [] {
      var init, last := catalog[..|catalog| - 1], catalog[|catalog| - 1];
      var p := CoversSomeTest(nonEu, cmap);
      MatchCatalogIsFilterMap(init, nonEu, cmap);
      assert catalog == init + [last];
      FilterSnoc(init, last, p);
      assert p(last) == CoversSome(last, nonEu, cmap);
      if p(last) {
        MatchedAllSnoc(Filter(init, p), last, nonEu, cmap);
      }
    }
  }

  /** Each matched option is the annotated copy of a catalog option that covers
      a destination. */
  lemma MatchCatalogSound(catalog: seq<Option>, nonEu: seq<string>, cmap: map<string, CoverageCategory>, o: Option)
    requires o in MatchCatalog(catalog, nonEu, cmap)
    ensures exists j :: 0 <= j < |catalog| && CoversSome(catalog[j], nonEu, cmap) && o == Matched(catalog[j], nonEu, cmap)
  {
    MatchCatalogIsFilterMap(catalog, nonEu, cmap);
    var p := CoversSomeTest(nonEu, cmap);
    var kept := Filter(catalog, p);
    var m := MatchCatalog(catalog, nonEu, cmap);
    var k :| 0 <= k < |m| && m[k] == o;
    assert p(kept[k]);
    var j :| 0 <= j < |catalog| && catalog[j] == kept[k];
  }

  /** Each catalog option that covers a destination has its annotated copy among
      the matched options. */
  lemma MatchCatalogComplete(catalog: seq<Option>, nonEu: seq<string>, cmap: map<string, CoverageCategory>, j: int)
    requires 0 <= j < |catalog| && CoversSome(catalog[j], nonEu, cmap)
    ensures Matched(catalog[j], nonEu, cmap) in MatchCatalog(catalog, nonEu, cmap)
  {
    MatchCatalogIsFilterMap(catalog, nonEu, cmap);
    var p := CoversSomeTest(nonEu, cmap);
    var kept := Filter(catalog, p);
    assert p(catalog[j]);
    var k :| 0 <= k < |kept| && kept[k] == catalog[j];
    assert MatchCatalog(catalog, nonEu, cmap)[k] == Matched(catalog[j], nonEu, cmap);
  }

  // ---------------------------------------------------------------------------
  // The comparator.

  /** The comparator's negative outcomes spelled out: recommended first, then
      lower type priority, then more covered countries. */
  lemma SortsBeforeMeaning(a: Option, b: Option)
    ensures SortsBefore(a, b) <==>
      || (Recommended(a) && !Recommended(b))
      || (Recommended(a) == Recommended(b) && TypePriority(a.kind) < TypePriority(b.kind))
      || (Recommended(a) == Recommended(b) && a.kind == b.kind && CoveredCount(a) > CoveredCount(b))
  {
  }

  /** The comparator is antisymmetric, as `sort` requires of a consistent comparator. */
  lemma CompareAntisymmetric(a: Option, b: Option)
    ensures Compare(a, b) == -Compare(b, a)
  {
  }

  /** Two options tie under the sort exactly when the comparator returns 0. */
  lemma TiedIffCompareZero(a: Option, b: Option)
    ensures Tied(SortsBefore, a, b) <==> Compare(a, b) == 0
  {
    CompareAntisymmetric(a, b);
  }

  /** The ranking key the comparator orders by, lexicographically. */
  function RankKey(o: Option): (int, int, int)
  {
    (if Recommended(o) then 0 else 1, TypePriority(o.kind), -(CoveredCount(o) as int))
  }

  predicate KeyLess(x: (int, int, int), y: (int, int, int))
  {
    x.0 < y.0 || (x.0 == y.0 && (x.1 < y.1 || (x.1 == y.1 && x.2 < y.2)))
  }

  /** Sorting before is comparing the ranking keys. */
  lemma SortsBeforeIsKeyLess(a: Option, b: Option)
    ensures SortsBefore(a, b) <==> KeyLess(RankKey(a), RankKey(b))
  {
  }

  /** The comparator is consistent: sorting before is a strict weak order. */
  lemma SortsBeforeIsStrictWeakOrder()
    ensures StrictWeakOrder(SortsBefore)
  {
    forall a, b | SortsBefore(a, b) ensures !SortsBefore(b, a) {
      SortsBeforeIsKeyLess(a, b);
      SortsBeforeIsKeyLess(b, a);
    }
    forall a, b, c | !SortsBefore(a, b) && !SortsBefore(b, c) ensures !SortsBefore(a, c) {
      SortsBeforeIsKeyLess(a, b);
      SortsBeforeIsKeyLess(b, c);
      SortsBeforeIsKeyLess(a, c);
    }
  }

  // ---------------------------------------------------------------------------
  // The result.

  /** The result is empty exactly when the itinerary is empty, when it has no
      known non-EU destination, or when no catalog option covers one. */
  lemma ResultEmpty(itinerary: seq<ItineraryItem>, directory: seq<Country>, catalog: seq<Option>)
    ensures OptionsForItinerary(itinerary, directory, catalog) == [] <==>
      || |itinerary| == 0
      || |NonEuOf(itinerary, directory)| == 0
      || forall j :: 0 <= j < |catalog| ==>
           !CoversSome(catalog[j], NonEuOf(itinerary, directory), CategoryMap(directory))
  {
    var nonEu := NonEuOf(itinerary, directory);
    var cmap := CategoryMap(directory);
    if |itinerary| > 0 && |nonEu| > 0 {
      var m := MatchCatalog(catalog, nonEu, cmap);
      SortByPermutes(m, SortsBefore);
      assert |SortBy(m, SortsBefore)| == |multiset(m)| == |m|;
      MatchCatalogIsFilterMap(catalog, nonEu, cmap);
      var p := CoversSomeTest(nonEu, cmap);
      var kept := Filter(catalog, p);
      if kept != [] {
        assert p(kept[0]);
      }
      if exists j :: 0 <= j < |catalog| && CoversSome(catalog[j], nonEu, cmap) {
        var j :| 0 <= j < |catalog| && CoversSome(catalog[j], nonEu, cmap);
        assert p(catalog[j]);
      }
    }
  }

  /** Otherwise the result is the matched options reordered by the comparator:
      a permutation of them, sorted, and with tied options in catalog order. */
  lemma ResultIsStableSort(itinerary: seq<ItineraryItem>, directory: seq<Country>, catalog: seq<Option>)
    requires |itinerary| > 0 && |NonEuOf(itinerary, directory)| > 0
    ensures var m := MatchCatalog(catalog, NonEuOf(itinerary, directory), CategoryMap(directory));
      && multiset(OptionsForItinerary(itinerary, directory, catalog)) == multiset(m)
      && SortedBy(OptionsForItinerary(itinerary, directory, catalog), SortsBefore)
      && forall k :: Ties(OptionsForItinerary(itinerary, directory, catalog), k, SortsBefore) == Ties(m, k, SortsBefore)
  {
    var m := MatchCatalog(catalog, NonEuOf(itinerary, directory), CategoryMap(directory));
    SortByPermutes(m, SortsBefore);
    SortsBeforeIsStrictWeakOrder();
    SortBySorted(m, SortsBefore);
    forall k ensures Ties(SortBy(m, SortsBefore), k, SortsBefore) == Ties(m, k, SortsBefore) {
      SortByStable(m, k, SortsBefore);
    }
  }

  /** The order of the result: recommended options first; among equally
      flagged ones lower type priority first; among those of the same type
      more covered countries first. */
  lemma ResultOrder(itinerary: seq<ItineraryItem>, directory: seq<Country>, catalog: seq<Option>)
    ensures var r := OptionsForItinerary(itinerary, directory, catalog);
      forall i, j :: 0 <= i < j < |r| ==>
        && (Recommended(r[j]) ==> Recommended(r[i]))
        && (Recommended(r[i]) == Recommended(r[j]) ==> TypePriority(r[i].kind) <= TypePriority(r[j].kind))
        && (Recommended(r[i]) == Recommended(r[j]) && r[i].kind == r[j].kind ==> CoveredCount(r[i]) >= CoveredCount(r[j]))
  {
    var r := OptionsForItinerary(itinerary, directory, catalog);
    if |itinerary| > 0 && |NonEuOf(itinerary, directory)| > 0 {
      ResultIsStableSort(itinerary, directory, catalog);
      forall i, j | 0 <= i < j < |r|
        ensures && (Recommended(r[j]) ==> Recommended(r[i]))
                && (Recommended(r[i]) == Recommended(r[j]) ==> TypePriority(r[i].kind) <= TypePriority(r[j].kind))
                && (Recommended(r[i]) == Recommended(r[j]) && r[i].kind == r[j].kind ==> CoveredCount(r[i]) >= CoveredCount(r[j]))
      {
        assert !SortsBefore(r[j], r[i]);
        SortsBeforeMeaning(r[j], r[i]);
      }
    }
  }

  /** Every returned option is the annotated copy of a catalog option; its covered
      list is non-empty, free of repeats, in itinerary order, and holds only known
      non-EU destinations its category contains; it is flagged recommended exactly
      when it covers all of them. */
  lemma ResultEntry(itinerary: seq<ItineraryItem>, directory: seq<Country>, catalog: seq<Option>, o: Option)
    requires o in OptionsForItinerary(itinerary, directory, catalog)
    ensures var nonEu := NonEuOf(itinerary, directory);
            var cmap := CategoryMap(directory);
      && (exists j :: 0 <= j < |catalog| && CoversSome(catalog[j], nonEu, cmap) && o == Matched(catalog[j], nonEu, cmap))
      && HasCategoryRule(o)
      && o.coveredItineraryCountries.Some?
      && |o.coveredItineraryCountries.value| > 0
      && NoDuplicates(o.coveredItineraryCountries.value)
      && OrderedAsIn(o.coveredItineraryCountries.value, CountryNames(itinerary))
      && (forall c :: c in o.coveredItineraryCountries.value ==>
            c in nonEu && IsNonEu(cmap, c) && CoversCountry(cmap, o.coverage.category.value, c))
      && o.isRecommended.Some?
      && (Recommended(o) <==> |o.coveredItineraryCountries.value| == |nonEu|)
  {
    var nonEu := NonEuOf(itinerary, directory);
    var cmap := CategoryMap(directory);
    var m := MatchCatalog(catalog, nonEu, cmap);
    ResultIsStableSort(itinerary, directory, catalog);
    assert o in multiset(m);
    MatchCatalogSound(catalog, nonEu, cmap, o);
    var j :| 0 <= j < |catalog| && CoversSome(catalog[j], nonEu, cmap) && o == Matched(catalog[j], nonEu, cmap);
    NonEuSpec(itinerary, directory);
    MatchedEntry(catalog[j], nonEu, cmap, CountryNames(itinerary));
  }

  /** Every catalog option covering a destination of a non-empty itinerary is returned. */
  lemma ResultComplete(itinerary: seq<ItineraryItem>, directory: seq<Country>, catalog: seq<Option>, j: int)
    requires |itinerary| > 0
    requires 0 <= j < |catalog| && CoversSome(catalog[j], NonEuOf(itinerary, directory), CategoryMap(directory))
    ensures Matched(catalog[j], NonEuOf(itinerary, directory), CategoryMap(directory))
      in OptionsForItinerary(itinerary, directory, catalog)
  {
    var nonEu := NonEuOf(itinerary, directory);
    var cmap := CategoryMap(directory);
    assert |nonEu| > 0;
    MatchCatalogComplete(catalog, nonEu, cmap, j);
    ResultIsStableSort(itinerary, directory, catalog);
    assert Matched(catalog[j], nonEu, cmap) in multiset(MatchCatalog(catalog, nonEu, cmap));
  }

  /** The annotated copy of an option that covers a destination, for destinations
      that are distinct, known, non-EU and ordered as in `names`. */
  lemma MatchedEntry(option: Option, nonEu: seq<string>, cmap: map<string, CoverageCategory>, names: seq<string>)
    requires NoDuplicates(nonEu) && OrderedAsIn(nonEu, names)
    requires forall c :: c in nonEu ==> IsNonEu(cmap, c)
    requires CoversSome(option, nonEu, cmap)
    ensures var o := Matched(option, nonEu, cmap);
      && HasCategoryRule(o)
      && o.coveredItineraryCountries == Some(CoveredCountries(option, nonEu, cmap))
      && |o.coveredItineraryCountries.value| > 0
      && NoDuplicates(o.coveredItineraryCountries.value)
      && OrderedAsIn(o.coveredItineraryCountries.value, names)
      && (forall c :: c in o.coveredItineraryCountries.value ==>
            c in nonEu && IsNonEu(cmap, c) && CoversCountry(cmap, o.coverage.category.value, c))
      && o.isRecommended.Some?
      && (Recommended(o) <==> |o.coveredItineraryCountries.value| == |nonEu|)
  {
    OnlyCategoryRulesMatch(option, nonEu, cmap);
    CoveredSpec(option, nonEu, cmap);
    MatchedSpec(option, nonEu, cmap);
    OrderedAsInTrans(CoveredCountries(option, nonEu, cmap), nonEu, names);
  }
}
