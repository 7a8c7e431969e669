/** `CurrencyCore` of src/utils/currency_core.py: a copy of the scraper half
    of src/currency.py (same cell parse, same record keys, same `None` on
    any error), kept as its own module so that the two can be compared.
 */
module UtilsCurrencyCore {
  import opened Wrappers
  import opened RatePage
  import opened RateRecord
  import Currency

  /** `parse_currency_rates`: the anchor's display name or the placeholder,
      then one record with the first row's date and every label's last
      cleaned rate. */
  function ParseCurrencyRates(code: string, page: Page): (r: Result<seq<Currency.Record>>)
    ensures r.Ok? ==> |r.value| <= 1
  {
    var name :- NameOrPlaceholder(page.ccyAnchor);
    LooseRecords(WithName, code, name, page.rows)
  }

  /** `fetch_currency_rates`: every exception, including a 4xx or 5xx
      status, is swallowed into `None`. */
  function FetchCurrencyRates(code: string, get: string -> Response): (r: Option<seq<Currency.Record>>)
    ensures get(RateUrl(code)).NoResponse? ==> r.None?
    ensures get(RateUrl(code)).Response? && RaisesForStatus(get(RateUrl(code)).status) ==> r.None?
  {
    match get(RateUrl(code))
    case NoResponse => None
    case Response(status, page) =>
      if RaisesForStatus(status) then None
      else ParseCurrencyRates(code, page).ToOption()
  }

  /** The copy behaves exactly like src/currency.py's `CurrencyRate` on
      every page and every response. */
  lemma SameAsCurrency(code: string, get: string -> Response)
    ensures FetchCurrencyRates(code, get) == Currency.FetchCurrencyRates(code, get)
    ensures forall page :: ParseCurrencyRates(code, page) == Currency.ParseCurrencyRates(code, page)
  {
  }

  /** A good response fails exactly when the currency anchor's text has no
      display name or some row has a malformed cell; otherwise it is one
      record when some row takes part and none when no row does. */
  lemma FetchCurrencyRatesShape(code: string, get: string -> Response)
    requires get(RateUrl(code)).Response? && !RaisesForStatus(get(RateUrl(code)).status)
    ensures FetchCurrencyRates(code, get).None? <==>
      || NameOrPlaceholder(get(RateUrl(code)).page.ccyAnchor).Err?
      || exists i :: BadRow(get(RateUrl(code)).page.rows, LoosePair, i)
    ensures FetchCurrencyRates(code, get).Some? ==>
      (|FetchCurrencyRates(code, get).value| == 1 <==> AnyQualifies(get(RateUrl(code)).page.rows))
  {
    var page := get(RateUrl(code)).page;
    var name := NameOrPlaceholder(page.ccyAnchor);
    if name.Ok? {
      LooseRecordsShape(WithName, code, name.value, page.rows);
    }
  }
}
