/** The pure parts of the itinerary extraction service: the alias table, the
    country-name normaliser and the step that turns extracted records into
    itinerary items. The language-model call and the JSON parsing are not modelled;
    the records arrive as a parameter, and so does the clock. */
module GeminiService {
  import opened Types
  import opened Text

  /** `countryAliases`: lower-case alias to canonical directory name. */
  const Aliases: map<string, string> := map[
    "uae" := "Emirati Arabi Uniti",
    "united arab emirates" := "Emirati Arabi Uniti",
    "usa" := "Stati Uniti",
    "stati uniti d'america" := "Stati Uniti",
    "united states" := "Stati Uniti",
    "united states of america" := "Stati Uniti",
    "uk" := "Regno Unito",
    "great britain" := "Regno Unito",
    "united kingdom" := "Regno Unito",
    "england" := "Regno Unito",
    "scotland" := "Regno Unito",
    "wales" := "Regno Unito",
    "northern ireland" := "Regno Unito"
  ]

  /** The names an alias can resolve to. */
  predicate IsCanonical(name: string)
  {
    name == "Emirati Arabi Uniti" || name == "Stati Uniti" || name == "Regno Unito"
  }

  /** The lookup key: the trimmed, lower-cased name. */
  function AliasKey(name: string): string
  {
    Lower(Trim(name))
  }

  /** `normalizeCountryName`, with the alias table read as an own-key dictionary.
      A name whose key is an alias becomes that alias's canonical name; any other
      name comes back exactly as given (no trimming, no case change). */
  function NormalizeCountryName(name: string): (r: string)
    ensures AliasKey(name) in Aliases ==> r == Aliases[AliasKey(name)]
    ensures AliasKey(name) !in Aliases ==> r == name
  {
    var key := AliasKey(name);
    if key in Aliases then Aliases[key] else name
  }

  /** Every alias resolves to one of the three canonical names. */
  lemma AliasTargets()
    ensures forall k :: k in Aliases ==> IsCanonical(Aliases[k])
  {
  }

  /** The result is the input unchanged or one of the three canonical names. */
  lemma NormalizeResult(name: string)
    ensures NormalizeCountryName(name) == name || IsCanonical(NormalizeCountryName(name))
  {
    AliasTargets();
  }

  lemma AliasKeyLengths()
    ensures forall k :: k in Aliases ==> |k| in {2, 3, 5, 7, 8, 13, 14, 16, 20, 21, 24}
  {
  }

  /** No canonical name, trimmed and lower-cased, is itself an alias key. */
  lemma CanonicalIsNoAlias(c: string)
    requires IsCanonical(c)
    ensures AliasKey(c) !in Aliases
  {
    assert |AliasKey(c)| == |c| by {
      assert !IsWhiteSpace(c[0]) && !IsWhiteSpace(c[|c| - 1]);
    }
    AliasKeyLengths();
  }

  /** Normalisation is idempotent. */
  lemma NormalizeIdempotent(name: string)
    ensures NormalizeCountryName(NormalizeCountryName(name)) == NormalizeCountryName(name)
  {
    var r := NormalizeCountryName(name);
    if r != name {
      NormalizeResult(name);
      CanonicalIsNoAlias(r);
    }
  }

  /** Case and surrounding blanks do not matter: "USA", " usa " and "Usa" all become "Stati Uniti". */
  lemma UsaAliases()
    ensures NormalizeCountryName("USA") == "Stati Uniti"
    ensures NormalizeCountryName(" usa ") == "Stati Uniti"
    ensures NormalizeCountryName("Usa") == "Stati Uniti"
  {
    UpperUsaKey();
    KeyedAsUsa("USA");
    PaddedUsaKey();
    KeyedAsUsa(" usa ");
    MixedUsaKey();
    KeyedAsUsa("Usa");
  }

  lemma KeyedAsUsa(name: string)
    requires AliasKey(name) == "usa"
    ensures NormalizeCountryName(name) == "Stati Uniti"
  {
    assert "usa" in Aliases && Aliases["usa"] == "Stati Uniti";
  }

  lemma UpperUsaKey()
    ensures AliasKey("USA") == "usa"
  {
    assert !IsWhiteSpace('U') && !IsWhiteSpace('A');
    assert Lower("USA") == "usa";
  }

  lemma MixedUsaKey()
    ensures AliasKey("Usa") == "usa"
  {
    assert !IsWhiteSpace('U') && !IsWhiteSpace('a');
    assert Lower("Usa") == "usa";
  }

  lemma PaddedUsaKey()
    ensures AliasKey(" usa ") == "usa"
  {
    assert Trim(" usa ") == "usa" by {
      UsaTrimStart();
      UsaTrimEnd();
    }
    UsaIsLower();
  }

  lemma UsaTrimStart()
    ensures TrimStart(" usa ") == "usa "
  {
    assert " usa "[1..] == "usa ";
    assert !IsWhiteSpace('u');
  }

  lemma UsaTrimEnd()
    ensures TrimEnd("usa ") == "usa"
  {
    assert "usa "[..3] == "usa";
    assert !IsWhiteSpace('a');
  }

  lemma UsaIsLower()
    ensures Lower("usa") == "usa"
  {
    LowerKeepsLower("usa");
  }

  /** The constituent nations and the other names of the United Kingdom all fold into "Regno Unito". */
  lemma UnitedKingdomAliases()
    ensures forall k :: k in ["uk", "great britain", "united kingdom", "england", "scotland", "wales", "northern ireland"] ==>
              k in Aliases && Aliases[k] == "Regno Unito"
  {
  }

  /** A record as the extraction step returns it (after `JSON.parse`). */
  datatype ExtractedRecord = ExtractedRecord(country: string, startDate: string, endDate: string)

  /** The `.map` that closes `parseItineraryFromText`: every record keeps its dates,
      gets its country normalised and receives the id `Date.now() + index`. The
      callback reads the clock once per record; `clock[i]` is the reading taken for
      record `i`. */
  function ToItineraryItems(records: seq<ExtractedRecord>, clock: seq<int>): (items: seq<ItineraryItem>)
    requires |clock| == |records|
    ensures |items| == |records|
    ensures forall i :: 0 <= i < |items| ==>
      && items[i].id == clock[i] + i
      && items[i].country == NormalizeCountryName(records[i].country)
      && items[i].startDate == records[i].startDate
      && items[i].endDate == records[i].endDate
  {
    seq(|records|, i requires 0 <= i < |records| =>
      ItineraryItem(clock[i] + i, NormalizeCountryName(records[i].country), records[i].startDate, records[i].endDate))
  }

  /** While the clock does not go backwards during the call, the ids strictly
      increase with the index, so they are pairwise distinct. */
  lemma IdsIncreasing(records: seq<ExtractedRecord>, clock: seq<int>)
    requires |clock| == |records|
    requires forall i, j :: 0 <= i <= j < |clock| ==> clock[i] <= clock[j]
    ensures var items := ToItineraryItems(records, clock);
      forall i, j :: 0 <= i < j < |items| ==> items[i].id < items[j].id
  {
  }

  /** A clock that steps back by one between two readings gives two records the same id. */
  lemma IdsCollideWhenClockStepsBack(r: ExtractedRecord)
    ensures var items := ToItineraryItems([r, r], [1000, 999]);
      items[0].id == items[1].id == 1000
  {
  }

  /** Every country of the produced items is already normal: normalising it again changes nothing. */
  lemma ItemsAreNormal(records: seq<ExtractedRecord>, clock: seq<int>)
    requires |clock| == |records|
    ensures var items := ToItineraryItems(records, clock);
      forall i :: 0 <= i < |items| ==> NormalizeCountryName(items[i].country) == items[i].country
  {
    var items := ToItineraryItems(records, clock);
    forall i | 0 <= i < |items|
      ensures NormalizeCountryName(items[i].country) == items[i].country
    {
      NormalizeIdempotent(records[i].country);
    }
  }

  // The alias table is a plain object literal, so a key that is not one of its
  // own properties is still looked up along the prototype chain. The two members
  // of Object.prototype whose names are all lower case, "constructor" and
  // "__proto__", are truthy and are not strings.

  /** The JavaScript value an indexing of the alias object yields. */
  datatype JsValue = JsString(s: string) | JsObject | Undefined

  /** Object.prototype members reachable with an all-lower-case key. */
  const PrototypeKeys: set<string> := {"constructor", "__proto__"}

  /** `countryAliases[key]` as JavaScript evaluates it. */
  function AliasLookupAsWritten(key: string): JsValue
  {
    if key in Aliases then JsString(Aliases[key])
    else if key in PrototypeKeys then JsObject
    else Undefined
  }

  /** `normalizeCountryName` as written: return the looked-up value when it is
      truthy, the input otherwise. */
  function NormalizeAsWritten(name: string): (r: JsValue)
    ensures AliasKey(name) !in PrototypeKeys ==> r == JsString(NormalizeCountryName(name))
  {
    AliasTargets();
    var v := AliasLookupAsWritten(AliasKey(name));
    match v
    case JsString(s) => if s != "" then v else JsString(name)
    case JsObject => v
    case Undefined => JsString(name)
  }

  /** The alias table and the prototype keys are disjoint. */
  lemma PrototypeKeysAreNoAliases()
    ensures forall k :: k in PrototypeKeys ==> k !in Aliases
  {
    assert "constructor" !in Aliases;
    assert "__proto__" !in Aliases;
  }

  /** Exactly on the names whose key is a prototype key, the function as written
      returns a non-string, where the own-key lookup returns the input unchanged;
      on every other name the two agree. */
  lemma PrototypeKeyDiverges(name: string)
    ensures AliasKey(name) in PrototypeKeys ==>
      NormalizeAsWritten(name) == JsObject && NormalizeCountryName(name) == name
    ensures AliasKey(name) !in PrototypeKeys ==> NormalizeAsWritten(name) == JsString(NormalizeCountryName(name))
  {
    PrototypeKeysAreNoAliases();
  }

  /** A concrete input: " constructor " trims to the prototype key "constructor". */
  lemma PrototypeKeyEscapes()
    ensures NormalizeAsWritten(" constructor ") == JsObject
    ensures NormalizeCountryName(" constructor ") == " constructor "
  {
    PaddedConstructorKey();
    PrototypeKeyDiverges(" constructor ");
  }

  lemma PaddedConstructorKey()
    ensures AliasKey(" constructor ") == "constructor"
  {
    assert Trim(" constructor ") == "constructor" by {
      ConstructorTrimStart();
      ConstructorTrimEnd();
    }
    ConstructorIsLower();
  }

  lemma ConstructorIsLower()
    ensures Lower("constructor") == "constructor"
  {
    LowerKeepsLower("constructor");
  }

  lemma ConstructorTrimStart()
    ensures TrimStart(" constructor ") == "constructor "
  {
    assert " constructor "[1..] == "constructor ";
    assert !IsWhiteSpace('c');
  }

  lemma ConstructorTrimEnd()
    ensures TrimEnd("constructor ") == "constructor"
  {
    assert "constructor "[..11] == "constructor";
    assert !IsWhiteSpace('r');
  }
}
