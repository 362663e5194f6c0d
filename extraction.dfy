/**
 * What the two ingestion runs read from each record: a fixed list of
 * declared attributes (name, description, form type, how to read the value
 * from a record). Reading a record is abstract and may fail; the one
 * concrete reading is the Marvel print price.
 */
module Extraction {
  import opened Wrappers
  import opened FormTypes
  import opened Schema
  import opened Dates

  /** One `_add_field(...)` call of a run, minus the object and service. */
  datatype Attribute<!R> = Attribute(name: string, description: string, formType: string, extract: R -> Option<Payload>)

  /** The catalog key the attribute's field gets under service `sid`. */
  function KeyOf<R>(sid: Id, a: Attribute<R>): Field {
    Field(sid, a.name, a.description, a.formType)
  }

  /** The values of a record, one per attribute, when every attribute can be read. */
  function Extract<R>(attrs: seq<Attribute<R>>, rec: R): (r: Option<seq<Payload>>)
    ensures r.Some? <==> forall j :: 0 <= j < |attrs| ==> attrs[j].extract(rec).Some?
    ensures r.Some? ==> |r.value| == |attrs| && forall j :: 0 <= j < |attrs| ==> r.value[j] == attrs[j].extract(rec).value
  {
    if attrs == [] then Some([])
    else match (Extract(attrs[..|attrs| - 1], rec), attrs[|attrs| - 1].extract(rec))
      case (Some(vs), Some(v)) => Some(vs + [v])
      case _ => None
  }

  /** The declared form types, in declaration order. */
  function Codes<R>(attrs: seq<Attribute<R>>): (codes: seq<string>)
    ensures |codes| == |attrs| && forall j :: 0 <= j < |attrs| ==> codes[j] == attrs[j].formType
  {
    seq(|attrs|, j requires 0 <= j < |attrs| => attrs[j].formType)
  }

  /** The declared keys are pairwise different. */
  ghost predicate DistinctKeys<R>(attrs: seq<Attribute<R>>) {
    forall i, j :: 0 <= i < j < |attrs| ==> KeyOf(0, attrs[i]) != KeyOf(0, attrs[j])
  }

  /** Every declared form type has a value table. */
  ghost predicate KnownTypes<R>(attrs: seq<Attribute<R>>) {
    forall j :: 0 <= j < |attrs| ==> attrs[j].formType in KnownCodes
  }

  /** Every record can be read and, when there is one, every declared form type has a table. */
  ghost predicate Ingestible<R>(attrs: seq<Attribute<R>>, records: seq<R>) {
    && (records == [] || KnownTypes(attrs))
    && forall i :: 0 <= i < |records| ==> Extract(attrs, records[i]).Some?
  }

  /** The values read from each record. */
  function Values<R>(attrs: seq<Attribute<R>>, records: seq<R>): (valss: seq<seq<Payload>>)
    requires forall i :: 0 <= i < |records| ==> Extract(attrs, records[i]).Some?
    ensures |valss| == |records|
    ensures forall i :: 0 <= i < |records| ==> valss[i] == Extract(attrs, records[i]).value && |valss[i]| == |attrs|
  {
    seq(|records|, i requires 0 <= i < |records| => Extract(attrs, records[i]).value)
  }

  // ---- Pokemon card sets ----

  const PokemonServiceName: string := "pokemonSetCollection"
  const PokemonServiceDescription: string := "Collection of pokemon Card Sets"

  /**
   * The five attributes of a card set. The release date is read as a raw
   * string (default `""`) and then put through `_date_converter`; a date
   * that does not convert fails the record.
   */
  function PokemonAttributes<R>(
    setName: R -> Option<Payload>,
    series: R -> Option<Payload>,
    printedTotal: R -> Option<Payload>,
    releaseDate: R -> Option<string>,
    symbol: R -> Option<Payload>): (attrs: seq<Attribute<R>>)
    ensures |attrs| == 5 && DistinctKeys(attrs) && KnownTypes(attrs)
  {
    [ Attribute("SetName", "Name of the pokemon set", TEXT, setName),
      Attribute("Series", "Series of the pokemon set", TEXT, series),
      Attribute("TotalCards", "Total number of cards in the set", INTEGER, printedTotal),
      Attribute("ReleaseDate", "Release date of the pokemon set", DATE, (rec: R) => ConvertedDate(releaseDate(rec))),
      Attribute("symbol", "Pokemon set symbol URL", URL, symbol) ]
  }

  /** The stored release date: the converted string, or a failure. */
  function ConvertedDate(raw: Option<string>): (r: Option<Payload>)
    ensures r.Some? <==> raw.Some? && IsSourceDate(raw.value)
    ensures r.Some? ==> r.value == Str(DateConverter(raw.value).value)
  {
    match raw
    case None => None
    case Some(s) =>
      match DateConverter(s)
      case None => None
      case Some(d) => Some(Str(d))
  }

  // ---- Marvel comics ----

  const MarvelServiceName: string := "MarvelComicCollection"
  const MarvelServiceDescription: string := "Collection of Marvel Comics books"

  const PrintPriceType: string := "printPrice"

  /** One entry of a comic's `prices` list; either key may be missing. */
  datatype PriceEntry = PriceEntry(kind: Option<string>, price: Option<Payload>)

  /** The comprehension `[p for p in prices if p["type"] == "printPrice"]`: an entry without a type fails it. */
  function PrintPriceEntries(prices: seq<PriceEntry>): (r: Option<seq<PriceEntry>>)
    ensures r.Some? <==> forall i :: 0 <= i < |prices| ==> prices[i].kind.Some?
    ensures r.Some? ==> forall e :: e in r.value <==> e in prices && e.kind == Some(PrintPriceType)
    ensures r.Some? && r.value != [] ==> exists i :: 0 <= i < |prices| && IsFirstPrintPrice(prices, i) && r.value[0] == prices[i]
  {
    if prices == [] then Some([])
    else if prices[0].kind.None? then None
    else match PrintPriceEntries(prices[1..])
      case None => None
      case Some(rest) =>
        if prices[0].kind == Some(PrintPriceType) then
          assert IsFirstPrintPrice(prices, 0);
          Some([prices[0]] + rest)
        else
          assert rest != [] ==> exists i :: 0 <= i < |prices[1..]| && IsFirstPrintPrice(prices[1..], i) && rest[0] == prices[1..][i];
          assert forall i :: 0 <= i < |prices[1..]| && IsFirstPrintPrice(prices[1..], i) ==> IsFirstPrintPrice(prices, i + 1);
          Some(rest)
  }

  /** Entry `i` is the first whose type is `printPrice`. */
  ghost predicate IsFirstPrintPrice(prices: seq<PriceEntry>, i: int) {
    && 0 <= i < |prices|
    && prices[i].kind == Some(PrintPriceType)
    && forall k :: 0 <= k < i ==> prices[k].kind != Some(PrintPriceType)
  }

  /**
   * `[...][0].get("price", 0.0)`: the price of the first `printPrice`
   * entry (0.0 when it has none); fails when an entry has no type or no
   * entry is a print price.
   */
  function PrintPrice(prices: seq<PriceEntry>): (r: Option<Payload>)
    ensures r.Some? <==>
      (forall i :: 0 <= i < |prices| ==> prices[i].kind.Some?) &&
      (exists i :: 0 <= i < |prices| && prices[i].kind == Some(PrintPriceType))
    ensures r.Some? ==> exists i :: IsFirstPrintPrice(prices, i) && r.value == prices[i].price.GetOr(Real(0.0))
  {
    match PrintPriceEntries(prices)
    case None => None
    case Some(matching) =>
      if matching == [] then
        assert forall i :: 0 <= i < |prices| ==> prices[i] !in matching;
        None
      else Some(matching[0].price.GetOr(Real(0.0)))
  }

  /** The comic's price attribute: `marvel_comic["prices"]` (a missing key fails), then `PrintPrice`. */
  function ComicPrice(prices: Option<seq<PriceEntry>>): (r: Option<Payload>)
    ensures r.Some? <==> (prices.Some? &&
      (forall i :: 0 <= i < |prices.value| ==> prices.value[i].kind.Some?) &&
      (exists i :: 0 <= i < |prices.value| && prices.value[i].kind == Some(PrintPriceType)))
    ensures r.Some? ==> exists i :: IsFirstPrintPrice(prices.value, i) && r.value == prices.value[i].price.GetOr(Real(0.0))
  {
    match prices
    case None => None
    case Some(ps) => PrintPrice(ps)
  }

  /** The four attributes of a comic. */
  function MarvelAttributes<R>(
    title: R -> Option<Payload>,
    pageCount: R -> Option<Payload>,
    resourceUri: R -> Option<Payload>,
    prices: R -> Option<seq<PriceEntry>>): (attrs: seq<Attribute<R>>)
    ensures |attrs| == 4 && DistinctKeys(attrs) && KnownTypes(attrs)
  {
    [ Attribute("title", "Name of the Marvel comic book", TEXT, title),
      Attribute("pageCount", "The number of pages of the Marvel comic book", INTEGER, pageCount),
      Attribute("resourceURI", "The resource URI of the Marvel comic book", URL, resourceUri),
      Attribute("price", "The print price of the Marvel comic book", FLOAT, (rec: R) => ComicPrice(prices(rec))) ]
  }

  lemma PrintPriceExample()
    ensures PrintPrice([PriceEntry(Some("digitalPurchasePrice"), Some(Real(1.99))),
                        PriceEntry(Some(PrintPriceType), Some(Real(3.99))),
                        PriceEntry(Some(PrintPriceType), Some(Real(4.99)))]) == Some(Real(3.99))
    ensures PrintPrice([PriceEntry(Some(PrintPriceType), None)]) == Some(Real(0.0))
    ensures PrintPrice([PriceEntry(Some("digitalPurchasePrice"), Some(Real(1.99)))]) == None
    ensures PrintPrice([]) == None
  {
  }
}
