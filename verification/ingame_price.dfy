/** src/ingame_price.py: the in-game price of one game in every country of
    the currency table. The game is resolved in the catalog when no package
    id is given, each country is fetched (in completion order, given as a
    parameter), records without both bounds are dropped, and the records
    are joined with the currency table when one is passed. The Play Store,
    the catalog match and `price_parser` are parameters.
 */
module IngamePrice {
  import opened Wrappers
  import opened PyStr
  import opened Seqs
  import opened PlayStore
  import opened PriceJoin

  /** `fetch_single_game_info`: the range of the `zh-TW` price text, each
      end read by `Price.fromstring`, which may give no amount; any raised
      exception gives a record with both bounds missing. Name and country
      are always those asked for. */
  function FetchSingle(id: string, name: string, country: string, app: App, parse: PriceParser): (r: GameRecord)
    ensures r.name == Some(name) && r.country == Some(country)
    ensures RangeZh(id, country, app).None? ==> r.lowest.None? && r.highest.None?
  {
    match RangeZh(id, country, app)
    case None => GameRecord(Some(name), Some(country), None, None)
    case Some((lo, hi)) => GameRecord(Some(name), Some(country), parse(lo), parse(hi))
  }

  /** A price text that is one range once `"每個項目 "` is removed gives the
      amounts of its two ends. */
  lemma FetchSingleOf(id: string, name: string, country: string, app: App, parse: PriceParser, lo: string, hi: string)
    requires app(id, "zh-TW", country).Some?
    requires RemoveAll(app(id, "zh-TW", country).value, UnitZh) == lo + RangeSep + hi
    requires ' ' !in lo && !Contains(hi, RangeSep)
    ensures FetchSingle(id, name, country, app, parse) == GameRecord(Some(name), Some(country), parse(lo), parse(hi))
  {
    PriceRangeOf(app(id, "zh-TW", country).value, UnitZh, lo, hi);
  }

  /** `game_details`: the name and package id of the first catalog game the
      query matches, or the target itself and no id. */
  function GameDetails(target: string, catalog: seq<Game>, matches: (string, Game) -> bool): (r: (string, Option<string>))
    ensures r.1.None? ==> r.0 == target
  {
    var found := Filter(catalog, g => matches(target, g));
    if found == [] then (target, None) else (found[0].name, Some(found[0].packageId))
  }

  /** The id is missing exactly when nothing matches; otherwise name and id
      come from the first matching game. */
  lemma GameDetailsFirst(target: string, catalog: seq<Game>, matches: (string, Game) -> bool)
    ensures GameDetails(target, catalog, matches).1.None? <==> forall i :: 0 <= i < |catalog| ==> !matches(target, catalog[i])
    ensures GameDetails(target, catalog, matches).1.Some? ==> exists i :: (
      && 0 <= i < |catalog| && matches(target, catalog[i])
      && (forall j :: 0 <= j < i ==> !matches(target, catalog[j]))
      && GameDetails(target, catalog, matches) == (catalog[i].name, Some(catalog[i].packageId)))
  {
    var p := g => matches(target, g);
    var found := Filter(catalog, p);
    if found == [] {
      forall i | 0 <= i < |catalog|
        ensures !matches(target, catalog[i])
      {
        FilterMembers(catalog, p, catalog[i]);
      }
    } else {
      FilterFirst(catalog, p);
    }
  }

  /** The name and id the fetches use: the given id, or the catalog's. */
  function Resolve(target: string, targetId: Option<string>, catalog: seq<Game>, matches: (string, Game) -> bool): (string, Option<string>) {
    if targetId.None? then GameDetails(target, catalog, matches) else (target, targetId)
  }

  /** `dropna(subset=["lowest", "highest"])` keeps these. */
  predicate HasBounds(r: GameRecord) {
    r.lowest.Some? && r.highest.Some?
  }

  /** The records of `fetch_data` before the optional join: one fetch per
      country code, gathered in completion order `order`, without the
      records that miss a bound. A missing id reaches the Play Store as the
      text `None`. With no country codes the frame has no `lowest` column
      and the `dropna` raises `KeyError`. */
  function FetchRecords(
    target: string, targetId: Option<string>, catalog: seq<Game>, matches: (string, Game) -> bool,
    codes: seq<string>, order: seq<nat>, app: App, parse: PriceParser): (r: Result<seq<GameRecord>>)
    requires IsOrder(order, |codes|)
    ensures r.Err? <==> codes == []
    ensures r.Err? ==> r.error == KeyError
  {
    var (name, id) := Resolve(target, targetId, catalog, matches);
    if codes == [] then Err(KeyError)
    else
      var fetched := Map(codes, c => FetchSingle(StrOf(id), name, c, app, parse));
      Ok(Filter(Reorder(fetched, order), HasBounds))
  }

  /** Every kept record has both bounds, the resolved name, and a country
      from the list. */
  lemma FetchRecordsSound(
    target: string, targetId: Option<string>, catalog: seq<Game>, matches: (string, Game) -> bool,
    codes: seq<string>, order: seq<nat>, app: App, parse: PriceParser, rec: GameRecord)
    requires IsOrder(order, |codes|) && codes != []
    requires rec in FetchRecords(target, targetId, catalog, matches, codes, order, app, parse).value
    ensures HasBounds(rec) && rec.name == Some(Resolve(target, targetId, catalog, matches).0)
    ensures rec.country.Some? && rec.country.value in codes
  {
    var (name, id) := Resolve(target, targetId, catalog, matches);
    var f := c => FetchSingle(StrOf(id), name, c, app, parse);
    var completed := Reorder(Map(codes, f), order);
    assert FetchRecords(target, targetId, catalog, matches, codes, order, app, parse).value == Filter(completed, HasBounds);
    FilterMembers(completed, HasBounds, rec);
    var k :| 0 <= k < |completed| && completed[k] == rec;
    assert rec == f(codes[order[k]]);
  }

  /** Every country whose fetch gives both bounds has its record kept,
      whatever the completion order. */
  lemma FetchRecordsComplete(
    target: string, targetId: Option<string>, catalog: seq<Game>, matches: (string, Game) -> bool,
    codes: seq<string>, order: seq<nat>, app: App, parse: PriceParser, i: nat)
    requires IsOrder(order, |codes|) && i < |codes|
    requires var (name, id) := Resolve(target, targetId, catalog, matches);
      HasBounds(FetchSingle(StrOf(id), name, codes[i], app, parse))
    ensures var (name, id) := Resolve(target, targetId, catalog, matches);
      FetchSingle(StrOf(id), name, codes[i], app, parse) in FetchRecords(target, targetId, catalog, matches, codes, order, app, parse).value
  {
    var (name, id) := Resolve(target, targetId, catalog, matches);
    var f := c => FetchSingle(StrOf(id), name, c, app, parse);
    var fetched := Map(codes, f);
    var completed := Reorder(fetched, order);
    assert FetchRecords(target, targetId, catalog, matches, codes, order, app, parse).value == Filter(completed, HasBounds);
    ReorderFinds(fetched, order, i);
    FilterMembers(completed, HasBounds, f(codes[i]));
  }

  /** What `fetch_data` returns: the records, or their join with the
      currency table. */
  datatype FetchedData = Records(records: seq<GameRecord>) | Details(details: seq<PriceDetail>)

  /** `fetch_data(country_currency)`. */
  function FetchData(
    target: string, targetId: Option<string>, catalog: seq<Game>, matches: (string, Game) -> bool,
    codes: seq<string>, order: seq<nat>, app: App, parse: PriceParser,
    currency: Option<seq<CurrencyRow>>): (r: Result<FetchedData>)
    requires IsOrder(order, |codes|)
    ensures r.Err? <==> codes == []
    ensures r.Ok? ==> (r.value.Details? <==> currency.Some?)
  {
    var records :- FetchRecords(target, targetId, catalog, matches, codes, order, app, parse);
    match currency
    case None => Ok(Records(records))
    case Some(rows) => Ok(Details(PriceDetails(rows, records)))
  }
}
