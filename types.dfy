/** Data model of the roaming-option recommender (types.ts). */
module Types {

  /** A TypeScript optional field (`x?: T`): absent or present with a value. */
  datatype Optional<T> = None | Some(value: T)

  /** The closed set of coverage categories a country belongs to. */
  datatype CoverageCategory = EU | USA | TOP16 | ExtraUE_World | Excluded_MondoNew

  /** The tag of an option's coverage rule. */
  datatype CoverageType = CountriesCoverage | CategoryCoverage | SpecialCoverage

  /** Coverage rule of a catalog option; both payload fields are optional, whatever the tag. */
  datatype OptionCoverage = OptionCoverage(
    kind: CoverageType,
    countries: Optional<seq<string>>,
    category: Optional<CoverageCategory>)

  /** Free-text descriptions of what a plan includes. */
  datatype OptionIncludes = OptionIncludes(
    calls: Optional<string>,
    callsOriginated: Optional<string>,
    callsReceived: Optional<string>,
    data: Optional<string>,
    sms: Optional<string>,
    internationalCalls: Optional<string>)

  /** The five plan kinds (`Option.type`). */
  datatype PlanType = Base | Monthly | Weekly | Daily | Special

  /** The four cost units (`Option.costUnit`). */
  datatype CostUnit = Mese | Settimana | Giorno | Consumo

  /** A roaming option. Catalog entries leave the last two annotation fields absent;
      the matcher fills them in on its copy. */
  datatype Option = Option(
    id: string,
    name: string,
    kind: PlanType,
    cost: string,
    costUnit: CostUnit,
    description: string,
    includes: OptionIncludes,
    coverage: OptionCoverage,
    notes: Optional<string>,
    isRecommended: Optional<bool>,
    coveredItineraryCountries: Optional<seq<string>>)

  /** An entry of the country directory. */
  datatype Country = Country(name: string, category: CoverageCategory, code: string)

  /** One leg of the itinerary; the three strings may be empty. */
  datatype ItineraryItem = ItineraryItem(id: int, country: string, startDate: string, endDate: string)
}
