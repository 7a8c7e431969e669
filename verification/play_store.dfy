/** The Play-Store side shared by the game-price fetchers: the in-app price
    text `app(...)["inAppProductPrice"]` and its `"low - high"` range. The
    store itself and the `price_parser` library are parameters.
 */
module PlayStore {
  import opened Wrappers
  import opened PyStr

  /** `app(package_id, lang=..., country=...)["inAppProductPrice"]` for a
      package, a language and a country; `None` when the call raises or
      the game lists no in-app price (the next string method on `None`
      then raises). */
  type App = (string, string, string) -> Option<string>

  /** `Price.fromstring(s).amount_float`, which gives `None` for text
      without an amount instead of raising. */
  type PriceParser = string -> Option<real>

  /** An entry of `gameList.json`: the `name` and `packageId` keys. */
  datatype Game = Game(name: string, packageId: string)

  /** The unit phrase of the Traditional Chinese store page. */
  const UnitZh: string := "每個項目 "

  /** The unit phrase of the English store page. */
  const UnitEn: string := " per item"

  /** The separator of the two ends of a price range. */
  const RangeSep: string := " - "

  /** `text.replace(unit, "").split(" - ")` unpacked into `lowest, highest`:
      the unpack fails unless the split gives exactly two parts, and then
      the two parts joined by the separator are the text without the unit
      phrase. */
  function PriceRange(text: string, unit: string): (r: Option<(string, string)>)
    requires |unit| > 0
    ensures r.Some? <==> |Split(RemoveAll(text, unit), RangeSep)| == 2
    ensures r.Some? ==> RemoveAll(text, unit) == r.value.0 + RangeSep + r.value.1
    ensures r.Some? ==> !Contains(r.value.0, RangeSep) && !Contains(r.value.1, RangeSep)
  {
    var parts := Split(RemoveAll(text, unit), RangeSep);
    if |parts| == 2 then
      SplitPiecesFree(RemoveAll(text, unit), RangeSep);
      assert Join(parts, RangeSep) == parts[0] + RangeSep + parts[1];
      Some((parts[0], parts[1]))
    else None
  }

  /** Conversely, a text that is one range once the unit is removed gives
      its two ends. */
  lemma PriceRangeOf(text: string, unit: string, lo: string, hi: string)
    requires |unit| > 0
    requires RemoveAll(text, unit) == lo + RangeSep + hi
    requires ' ' !in lo && !Contains(hi, RangeSep)
    ensures PriceRange(text, unit) == Some((lo, hi))
  {
    SplitOnce(lo, RangeSep, hi);
  }

  /** The `try` body of both `zh-TW` fetchers up to the two amounts: the
      price text of the package in the country, without the unit phrase,
      split into its two ends. */
  function RangeZh(id: string, country: string, app: App): Option<(string, string)> {
    var text :- app(id, "zh-TW", country);
    PriceRange(text, UnitZh)
  }

  /** The same for the English store page of src/game_info.py. */
  function RangeEn(id: string, country: string, app: App): Option<(string, string)> {
    var text :- app(id, "en", country);
    PriceRange(text, UnitEn)
  }
}
