/** `CurrencyCore` of src/igpf/currency_core.py: the currency menu, the
    rates of one currency, and the `"all"` dispatch over the menu. The page
    fetch is the parameter `get`.
 */
module IgpfCurrencyCore {
  import opened Wrappers
  import opened PyStr
  import opened Seqs
  import opened RatePage
  import opened RateRecord

  /** The pydantic `CountryCurrency`. */
  datatype CountryCurrency = CountryCurrency(currencyName: string, currencyNameCn: string, currencyUrl: string)

  /** The page whose menu lists every currency. */
  function MenuUrl(): string {
    RateUrl("usd")
  }

  /** One menu entry: the code before the first `" - "`, lower-cased; the
      name after the last `" - "`; the site address joined to the link. */
  function ListingEntry(item: ListItem): (r: Result<CountryCurrency>)
    ensures r.Ok? <==> Href(item).Ok?
    ensures r.Ok? ==> r.value.currencyUrl == Site + Href(item).value
    ensures r.Err? ==> r.error == Href(item).error
  {
    var text := Strip(item.text);
    var href :- Href(item);
    Ok(CountryCurrency(Lower(Before(text, " - ")), AfterLast(text, " - "), Site + href))
  }

  /** A well-formed entry `"<CODE> - <name>"` gives the lower-cased code and
      the name. */
  lemma ListingEntryOf(code: string, name: string, href: string)
    requires ' ' !in code && !Contains(name, " - ")
    requires Trimmed(code + " - " + name)
    ensures ListingEntry(ListItem(code + " - " + name, Some(Anchor(Some(href)))))
      == Ok(CountryCurrency(Lower(code), name, Site + href))
  {
    var t := code + " - " + name;
    var item := ListItem(t, Some(Anchor(Some(href))));
    MenuText(code, name);
    assert Href(item) == Ok(href);
    assert Strip(item.text) == t;
    var b := Before(t, " - ");
    assert ListingEntry(item) == Ok(CountryCurrency(Lower(b), AfterLast(t, " - "), Site + href));
    assert b == code;
  }

  /** `get_country_list`: one entry per menu item, in order; a status other
      than 200 raises `ValueError`. */
  function GetCountryList(get: string -> Response): (r: Result<seq<CountryCurrency>>)
    ensures get(MenuUrl()).NoResponse? ==> r == Err(RequestError)
    ensures get(MenuUrl()).Response? && get(MenuUrl()).status != 200 ==> r == Err(ValueError)
    ensures r.Ok? ==> get(MenuUrl()).Response? && |r.value| == |get(MenuUrl()).page.items|
  {
    match get(MenuUrl())
    case NoResponse => Err(RequestError)
    case Response(status, page) =>
      if status != 200 then Err(ValueError)
      else MapAll(page.items, ListingEntry)
  }

  /** The menu entries are the items' entries, in order, and the list
      fails exactly when some item has no link. */
  lemma GetCountryListEntries(get: string -> Response)
    requires get(MenuUrl()).Response? && get(MenuUrl()).status == 200
    ensures var items := get(MenuUrl()).page.items;
      && (GetCountryList(get).Ok? <==> forall i :: 0 <= i < |items| ==> Href(items[i]).Ok?)
      && (GetCountryList(get).Ok? ==> forall i :: 0 <= i < |items| ==> GetCountryList(get).value[i] == ListingEntry(items[i]).value)
  {
    MapAllSpec(get(MenuUrl()).page.items, ListingEntry);
  }

  /** The name in the `change_ccy()` anchor; the source reads `.text` of the
      anchor before testing it, so a missing anchor raises
      `AttributeError`. */
  function CurrencyName(anchor: Option<string>): (r: Result<string>)
    ensures anchor.None? ==> r == Err(AttributeError)
    ensures anchor.Some? ==> r == RateCell.DisplayName(anchor.value)
  {
    match anchor
    case None => Err(AttributeError)
    case Some(t) => RateCell.DisplayName(t)
  }

  /** `_get_currency_rate`: status 200 or `ValueError`, then the name, then
      the row fold. */
  function GetCurrencyRate(code: string, get: string -> Response): (r: Result<CurrencyRate>)
    ensures get(RateUrl(code)).NoResponse? ==> r == Err(RequestError)
    ensures get(RateUrl(code)).Response? && get(RateUrl(code)).status != 200 ==> r == Err(ValueError)
    ensures get(RateUrl(code)).Response? && get(RateUrl(code)).status == 200 && get(RateUrl(code)).page.ccyAnchor.None?
      ==> r == Err(AttributeError)
    ensures r.Ok? ==> get(RateUrl(code)).Response? && get(RateUrl(code)).page.ccyAnchor.Some?
    ensures get(RateUrl(code)).Response? && get(RateUrl(code)).status == 200 && get(RateUrl(code)).page.ccyAnchor.Some?
      && RateCell.DisplayName(get(RateUrl(code)).page.ccyAnchor.value).Err?
      ==> r == Err(IndexError)
    ensures get(RateUrl(code)).Response? && get(RateUrl(code)).status == 200 && get(RateUrl(code)).page.ccyAnchor.Some?
      && RateCell.DisplayName(get(RateUrl(code)).page.ccyAnchor.value).Ok?
      ==> r == StrictRecord(code, RateCell.DisplayName(get(RateUrl(code)).page.ccyAnchor.value).value, get(RateUrl(code)).page.rows)
  {
    match get(RateUrl(code))
    case NoResponse => Err(RequestError)
    case Response(status, page) =>
      if status != 200 then Err(ValueError)
      else
        var name :- CurrencyName(page.ccyAnchor);
        StrictRecord(code, name, page.rows)
  }

  /** On a 200 page, an anchor text without `" - "` is the IndexError of
      `split(" - ")[1]`, and the fetch succeeds exactly when the anchor is
      there with that separator, no row's cell has several `"("`, and some
      row takes part. */
  lemma GetCurrencyRateOutcome(code: string, get: string -> Response)
    requires get(RateUrl(code)).Response? && get(RateUrl(code)).status == 200
    ensures var page := get(RateUrl(code)).page;
      && (GetCurrencyRate(code, get) == Err(IndexError) <==>
            page.ccyAnchor.Some? && !Contains(page.ccyAnchor.value, " - "))
      && (GetCurrencyRate(code, get).Ok? <==>
            && page.ccyAnchor.Some? && Contains(page.ccyAnchor.value, " - ")
            && (forall i :: !BadRow(page.rows, StrictPair, i))
            && AnyQualifies(page.rows))
  {
    var page := get(RateUrl(code)).page;
    if page.ccyAnchor.Some? {
      RateCell.DisplayNameFails(page.ccyAnchor.value);
      var name := CurrencyName(page.ccyAnchor);
      if name.Ok? {
        StrictRecordFails(code, name.value, page.rows);
      }
    }
  }

  /** Without rows labelled like the name fields, a fetched record carries
      the requested code and the anchor's display name. */
  lemma GetCurrencyRateNames(code: string, get: string -> Response)
    requires GetCurrencyRate(code, get).Ok?
    requires forall j ::
      !Labelled(get(RateUrl(code)).page.rows, j, CodeKey) && !Labelled(get(RateUrl(code)).page.rows, j, NameKey)
    ensures get(RateUrl(code)).page.ccyAnchor.Some?
    ensures RateCell.DisplayName(get(RateUrl(code)).page.ccyAnchor.value).Ok?
    ensures GetCurrencyRate(code, get).value.currencyEn == code
    ensures GetCurrencyRate(code, get).value.currencyCn == RateCell.DisplayName(get(RateUrl(code)).page.ccyAnchor.value).value
  {
    var page := get(RateUrl(code)).page;
    StrictRecordNames(code, RateCell.DisplayName(page.ccyAnchor.value).value, page.rows);
  }

  /** `fetch_currency_rates`: for `"all"`, the rates of every menu entry in
      menu order; otherwise the rates of the one code. */
  function FetchCurrencyRates(code: string, get: string -> Response): (r: Result<seq<CurrencyRate>>)
    ensures code != "all" ==> (r.Ok? <==> GetCurrencyRate(code, get).Ok?)
    ensures code != "all" && r.Ok? ==> r.value == [GetCurrencyRate(code, get).value]
    ensures code == "all" ==> r == FetchAll(get)
  {
    if code == "all" then FetchAll(get)
    else
      var one :- GetCurrencyRate(code, get);
      Ok([one])
  }

  /** The `"all"` branch: the menu, then the rates of each entry's code. */
  function FetchAll(get: string -> Response): (r: Result<seq<CurrencyRate>>)
    ensures r.Ok? ==> GetCountryList(get).Ok? && |r.value| == |GetCountryList(get).value|
  {
    var list :- GetCountryList(get);
    MapAll(list, (c: CountryCurrency) => GetCurrencyRate(c.currencyName, get))
  }

  /** With `"all"`, the i-th record is the rate page of the i-th menu
      entry, and the fetch fails exactly when the menu or one of those pages
      does. */
  lemma FetchAllInOrder(get: string -> Response, list: seq<CountryCurrency>)
    requires GetCountryList(get) == Ok(list)
    ensures FetchAll(get).Ok? <==> forall i :: 0 <= i < |list| ==> GetCurrencyRate(list[i].currencyName, get).Ok?
    ensures FetchAll(get).Ok? ==> |FetchAll(get).value| == |list|
    ensures FetchAll(get).Ok? ==>
      forall i :: 0 <= i < |list| ==> FetchAll(get).value[i] == GetCurrencyRate(list[i].currencyName, get).value
  {
    var f := (c: CountryCurrency) => GetCurrencyRate(c.currencyName, get);
    MapAllSpec(list, f);
    assert FetchAll(get) == MapAll(list, f);
  }
}
