/** `CurrencyCore` of src/currency_core.py: the page address of a currency,
    the currency menu as one-entry dicts, and the rates of the currency. The
    page fetch is the parameter `get`.
 */
module CurrencyCore {
  import opened Wrappers
  import opened PyStr
  import opened Seqs
  import opened RatePage
  import opened RateRecord

  /** The computed field `base_url`. */
  function BaseUrl(countryName: string): (url: string)
    ensures url == Site + RatePath + countryName + Suffix
  {
    RateUrl(countryName)
  }

  /** Distinct currencies are fetched from distinct pages. */
  lemma BaseUrlInjective(a: string, b: string)
    ensures BaseUrl(a) == BaseUrl(b) <==> a == b
  {
    RateUrlInjective(a, b);
  }

  /** `{currency_name_cn: currency_link}` for one menu item. */
  function CatalogEntry(item: ListItem): (r: Result<map<string, string>>)
    ensures r.Ok? <==> Href(item).Ok?
    ensures r.Ok? ==> |r.value| == 1
    ensures r.Ok? ==> r.value.Values == {Site + Href(item).value}
    ensures r.Err? ==> r.error == Href(item).error
  {
    var href :- Href(item);
    var entry := map[AfterLast(Strip(item.text), " - ") := Site + href];
    assert entry.Keys == {AfterLast(Strip(item.text), " - ")};
    Ok(entry)
  }

  /** A well-formed entry `"<code> - <name>"` maps the name to the full
      address. */
  lemma CatalogEntryOf(code: string, name: string, href: string)
    requires ' ' !in code && !Contains(name, " - ")
    requires Trimmed(code + " - " + name)
    ensures CatalogEntry(ListItem(code + " - " + name, Some(Anchor(Some(href))))) == Ok(map[name := Site + href])
  {
    var item := ListItem(code + " - " + name, Some(Anchor(Some(href))));
    MenuName(code, name);
    assert Href(item) == Ok(href);
  }

  /** `get_all_currency`: one entry per menu item, in order. On a status
      other than 200 only a log line is written and `currency_list` is never
      bound, so the `return` raises `UnboundLocalError`. */
  function GetAllCurrency(countryName: string, get: string -> Response): (r: Result<seq<map<string, string>>>)
    ensures get(BaseUrl(countryName)).NoResponse? ==> r == Err(RequestError)
    ensures get(BaseUrl(countryName)).Response? && get(BaseUrl(countryName)).status != 200 ==> r == Err(UnboundLocalError)
    ensures r.Ok? ==> |r.value| == |get(BaseUrl(countryName)).page.items|
  {
    match get(BaseUrl(countryName))
    case NoResponse => Err(RequestError)
    case Response(status, page) =>
      if status != 200 then Err(UnboundLocalError)
      else MapAll(page.items, CatalogEntry)
  }

  /** The i-th dict is the entry of the i-th menu item, and the list fails
      exactly when some item has no link. */
  lemma GetAllCurrencyEntries(countryName: string, get: string -> Response)
    requires get(BaseUrl(countryName)).Response? && get(BaseUrl(countryName)).status == 200
    ensures var items := get(BaseUrl(countryName)).page.items;
      && (GetAllCurrency(countryName, get).Ok? <==> forall i :: 0 <= i < |items| ==> Href(items[i]).Ok?)
      && (GetAllCurrency(countryName, get).Ok? ==> forall i :: 0 <= i < |items| ==> GetAllCurrency(countryName, get).value[i] == CatalogEntry(items[i]).value)
  {
    MapAllSpec(get(BaseUrl(countryName)).page.items, CatalogEntry);
  }

  /** `fetch_currency_rates`: a status other than 200 executes
      `raise logfire.exception(...)`, which raises `None` and so
      `TypeError`; a missing `change_ccy()` anchor leaves the placeholder
      name. */
  function FetchCurrencyRates(countryName: string, get: string -> Response): (r: Result<CurrencyRate>)
    ensures get(BaseUrl(countryName)).NoResponse? ==> r == Err(RequestError)
    ensures get(BaseUrl(countryName)).Response? && get(BaseUrl(countryName)).status != 200 ==> r == Err(TypeError)
    ensures get(BaseUrl(countryName)).Response? && get(BaseUrl(countryName)).status == 200
      && get(BaseUrl(countryName)).page.ccyAnchor.None?
      ==> r == StrictRecord(countryName, NoName, get(BaseUrl(countryName)).page.rows)
    ensures get(BaseUrl(countryName)).Response? && get(BaseUrl(countryName)).status == 200
      && get(BaseUrl(countryName)).page.ccyAnchor.Some?
      && RateCell.DisplayName(get(BaseUrl(countryName)).page.ccyAnchor.value).Err?
      ==> r == Err(IndexError)
    ensures get(BaseUrl(countryName)).Response? && get(BaseUrl(countryName)).status == 200
      && get(BaseUrl(countryName)).page.ccyAnchor.Some?
      && RateCell.DisplayName(get(BaseUrl(countryName)).page.ccyAnchor.value).Ok?
      ==> r == StrictRecord(countryName, RateCell.DisplayName(get(BaseUrl(countryName)).page.ccyAnchor.value).value,
                            get(BaseUrl(countryName)).page.rows)
  {
    match get(BaseUrl(countryName))
    case NoResponse => Err(RequestError)
    case Response(status, page) =>
      if status != 200 then Err(TypeError)
      else
        var name :- NameOrPlaceholder(page.ccyAnchor);
        StrictRecord(countryName, name, page.rows)
  }

  /** On a 200 page, the anchor's text without `" - "` is the IndexError of
      `split(" - ")[1]`, and the fetch succeeds exactly when the anchor is
      missing or has that separator, no row's cell has several `"("`, and
      some row takes part. */
  lemma FetchCurrencyRatesOutcome(countryName: string, get: string -> Response)
    requires get(BaseUrl(countryName)).Response? && get(BaseUrl(countryName)).status == 200
    ensures var page := get(BaseUrl(countryName)).page;
      && (FetchCurrencyRates(countryName, get) == Err(IndexError) <==>
            page.ccyAnchor.Some? && !Contains(page.ccyAnchor.value, " - "))
      && (FetchCurrencyRates(countryName, get).Ok? <==>
            && (page.ccyAnchor.None? || Contains(page.ccyAnchor.value, " - "))
            && (forall i :: !BadRow(page.rows, StrictPair, i))
            && AnyQualifies(page.rows))
  {
    var page := get(BaseUrl(countryName)).page;
    if page.ccyAnchor.Some? {
      RateCell.DisplayNameFails(page.ccyAnchor.value);
    }
    var name := NameOrPlaceholder(page.ccyAnchor);
    if name.Ok? {
      StrictRecordFails(countryName, name.value, page.rows);
    }
  }

  /** With the anchor and without rows labelled like the name fields, the
      record carries the code and the anchor's display name. */
  lemma FetchCurrencyRatesAnchored(countryName: string, get: string -> Response)
    requires FetchCurrencyRates(countryName, get).Ok?
    requires get(BaseUrl(countryName)).page.ccyAnchor.Some?
    requires forall j ::
      !Labelled(get(BaseUrl(countryName)).page.rows, j, CodeKey) && !Labelled(get(BaseUrl(countryName)).page.rows, j, NameKey)
    ensures RateCell.DisplayName(get(BaseUrl(countryName)).page.ccyAnchor.value).Ok?
    ensures FetchCurrencyRates(countryName, get).value.currencyEn == countryName
    ensures FetchCurrencyRates(countryName, get).value.currencyCn ==
      RateCell.DisplayName(get(BaseUrl(countryName)).page.ccyAnchor.value).value
  {
    var page := get(BaseUrl(countryName)).page;
    StrictRecordNames(countryName, RateCell.DisplayName(page.ccyAnchor.value).value, page.rows);
  }

  /** Without the anchor and without rows labelled like the name fields,
      the record carries the code and the placeholder name. */
  lemma FetchCurrencyRatesNoAnchor(countryName: string, get: string -> Response)
    requires FetchCurrencyRates(countryName, get).Ok?
    requires get(BaseUrl(countryName)).page.ccyAnchor.None?
    requires forall j ::
      !Labelled(get(BaseUrl(countryName)).page.rows, j, CodeKey) && !Labelled(get(BaseUrl(countryName)).page.rows, j, NameKey)
    ensures FetchCurrencyRates(countryName, get).value.currencyEn == countryName
    ensures FetchCurrencyRates(countryName, get).value.currencyCn == NoName
  {
    StrictRecordNames(countryName, NoName, get(BaseUrl(countryName)).page.rows);
  }
}
