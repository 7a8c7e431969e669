/** `get_all_currency` of src/get_currency.py: the currency menu as
    one-entry dicts from name to the link exactly as it appears in the page.
 */
module GetCurrency {
  import opened Wrappers
  import opened PyStr
  import opened Seqs
  import opened RatePage

  /** `{currency_name_cn: currency_link}` with the raw `href`. */
  function RawEntry(item: ListItem): (r: Result<map<string, string>>)
    ensures r.Ok? <==> Href(item).Ok?
    ensures r.Ok? ==> |r.value| == 1 && r.value.Values == {Href(item).value}
    ensures r.Err? ==> r.error == Href(item).error
  {
    var href :- Href(item);
    var entry := map[AfterLast(Strip(item.text), " - ") := href];
    assert entry.Keys == {AfterLast(Strip(item.text), " - ")};
    Ok(entry)
  }

  /** A well-formed entry `"<code> - <name>"` maps the name to the raw
      link. */
  lemma RawEntryOf(code: string, name: string, href: string)
    requires ' ' !in code && !Contains(name, " - ")
    requires Trimmed(code + " - " + name)
    ensures RawEntry(ListItem(code + " - " + name, Some(Anchor(Some(href))))) == Ok(map[name := href])
  {
    var item := ListItem(code + " - " + name, Some(Anchor(Some(href))));
    MenuName(code, name);
    assert Href(item) == Ok(href);
  }

  /** The page whose menu is read. */
  function MenuUrl(): string {
    RateUrl("usd")
  }

  /** `get_all_currency`: one dict per menu item, in document order; a
      status other than 200 logs and then fails at the `return` with
      `UnboundLocalError`. */
  function GetAllCurrency(get: string -> Response): (r: Result<seq<map<string, string>>>)
    ensures get(MenuUrl()).NoResponse? ==> r == Err(RequestError)
    ensures get(MenuUrl()).Response? && get(MenuUrl()).status != 200 ==> r == Err(UnboundLocalError)
    ensures r.Ok? ==> |r.value| == |get(MenuUrl()).page.items|
  {
    match get(MenuUrl())
    case NoResponse => Err(RequestError)
    case Response(status, page) =>
      if status != 200 then Err(UnboundLocalError)
      else MapAll(page.items, RawEntry)
  }

  /** The i-th dict is the entry of the i-th menu item, and the list fails
      exactly when some item has no link. */
  lemma GetAllCurrencyEntries(get: string -> Response)
    requires get(MenuUrl()).Response? && get(MenuUrl()).status == 200
    ensures var items := get(MenuUrl()).page.items;
      && (GetAllCurrency(get).Ok? <==> forall i :: 0 <= i < |items| ==> Href(items[i]).Ok?)
      && (GetAllCurrency(get).Ok? ==> forall i :: 0 <= i < |items| ==> GetAllCurrency(get).value[i] == RawEntry(items[i]).value)
  {
    MapAllSpec(get(MenuUrl()).page.items, RawEntry);
  }
}
