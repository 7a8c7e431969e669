/** The per-country price tables of src/get_game_prices.py (both
    versions), get_prices.py, multi.py and src/single_core.py. Each game of
    the list is looked up with `get_game_info`, whose store call cannot
    raise (any exception there becomes a missing price), and the raw price
    text becomes the second space-separated token after the last
    `"-"`. The sequential versions keep game order; the process-pool
    versions collect results as they complete, which is a reordering given
    as a parameter.
 */
module GamePrices {
  import opened Wrappers
  import opened PyStr
  import opened Seqs
  import opened PlayStore

  /** `get_game_info((game, country))`: name, country and the English price
      text, with `None` in place of the text when the lookup raises. */
  function GameInfo(game: Game, country: string, app: App): (r: (string, string, Option<string>))
    ensures r.0 == game.name && r.1 == country
    ensures app(game.packageId, "en", country).None? ==> r.2.None?
    ensures r.2.Some? ==> r.2 == app(game.packageId, "en", country)
  {
    (game.name, country, app(game.packageId, "en", country))
  }

  /** `.str.split("-").str[-1].str.split(" ").str[1]` on one cell: the
      second token of the segment after the last `"-"`; a missing cell, or a
      segment with fewer than two tokens, is missing afterwards. */
  function PriceToken(price: Option<string>): (r: Option<string>)
    ensures price.None? ==> r.None?
  {
    match price
    case None => None
    case Some(s) =>
      var tokens := Split(Last(Split(s, "-")), " ");
      if |tokens| >= 2 then Some(tokens[1]) else None
  }

  /** The token is missing exactly when the segment after the last `"-"`
      holds no space, and a present token never holds one. */
  lemma PriceTokenFails(s: string)
    ensures PriceToken(Some(s)).None? <==> ' ' !in AfterLast(s, "-")
    ensures PriceToken(Some(s)).Some? ==> ' ' !in PriceToken(Some(s)).value
  {
    var seg := AfterLast(s, "-");
    ContainsChar(seg, ' ');
    SplitPiecesFree(seg, " ");
    var tokens := Split(seg, " ");
    if |tokens| >= 2 {
      assert !Contains(tokens[1], " ");
      ContainsChar(tokens[1], ' ');
    }
  }

  /** A range `"lo - tok rest"` whose upper end has no further `"-"` gives
      the upper amount `tok`: the token after the space that follows the
      last `"-"`. */
  lemma PriceTokenOf(lo: string, tok: string, tail: string)
    requires '-' !in tok && '-' !in tail && ' ' !in tok
    requires tail == [] || tail[0] == ' '
    ensures PriceToken(Some(lo + "- " + tok + tail)) == Some(tok)
  {
    var seg := " " + tok + tail;
    assert lo + "- " + tok + tail == lo + ['-'] + seg;
    SplitLast(lo, '-', seg);
    SecondToken(tok, tail);
  }

  /** `" tok tail".split(" ")[1]` is `tok`. */
  lemma SecondToken(tok: string, tail: string)
    requires ' ' !in tok && (tail == [] || tail[0] == ' ')
    ensures |Split(" " + tok + tail, " ")| >= 2 && Split(" " + tok + tail, " ")[1] == tok
  {
    assert " " + tok + tail == [] + [' '] + (tok + tail);
    SplitHead([], ' ', tok + tail);
    FirstToken(tok, tail);
  }

  /** `"tok tail".split(" ")[0]` is `tok`. */
  lemma FirstToken(tok: string, tail: string)
    requires ' ' !in tok && (tail == [] || tail[0] == ' ')
    ensures Split(tok + tail, " ")[0] == tok
  {
    if tail == [] {
      assert tok + tail == tok;
      SplitNone(tok, ' ');
    } else {
      assert tok + tail == tok + [' '] + tail[1..];
      SplitHead(tok, ' ', tail[1..]);
    }
  }

  /** A row of the output frame: `遊戲名稱`, `國家`, `價格`. */
  datatype PriceRow = PriceRow(name: string, country: string, price: Option<string>)

  /** The row of one `get_game_info` result after the price transform. */
  function RowOf(info: (string, string, Option<string>)): PriceRow {
    PriceRow(info.0, info.1, PriceToken(info.2))
  }

  /** `get_game_price_v1` and single_core's `get_game_price`: one row per
      game in list order. An empty list builds a frame without a `價格`
      column, and selecting it raises `KeyError`. */
  function PricesInOrder(games: seq<Game>, country: string, app: App): (r: Result<seq<PriceRow>>)
    ensures r.Err? <==> games == []
    ensures r.Err? ==> r.error == KeyError
    ensures r.Ok? ==> |r.value| == |games|
    ensures r.Ok? ==> forall i :: 0 <= i < |games| ==>
      r.value[i].name == games[i].name && r.value[i].country == country
  {
    if games == [] then Err(KeyError)
    else Ok(Map(Map(games, g => GameInfo(g, country, app)), RowOf))
  }

  /** `get_game_price_v2` and the `get_game_info_to_df` of get_prices.py and
      multi.py: the rows in completion order `order`, under declared
      columns, so an empty list gives an empty frame. */
  function PricesCompleted(games: seq<Game>, country: string, app: App, order: seq<nat>): (r: seq<PriceRow>)
    requires IsOrder(order, |games|)
    ensures |r| == |games|
  {
    Map(Reorder(Map(games, g => GameInfo(g, country, app)), order), RowOf)
  }

  /** The row of a game: its name, the country, and the transformed price,
      which is missing when the lookup failed. */
  lemma PricesInOrderRows(games: seq<Game>, country: string, app: App, i: nat)
    requires i < |games|
    ensures PricesInOrder(games, country, app).Ok?
    ensures PricesInOrder(games, country, app).value[i] ==
      PriceRow(games[i].name, country, PriceToken(app(games[i].packageId, "en", country)))
    ensures app(games[i].packageId, "en", country).None? ==> PricesInOrder(games, country, app).value[i].price.None?
  {
  }

  /** The parallel versions give the sequential rows, reordered by
      completion: one row per game, none lost. */
  lemma CompletedIsReordering(games: seq<Game>, country: string, app: App, order: seq<nat>)
    requires IsOrder(order, |games|) && games != []
    ensures PricesCompleted(games, country, app, order) == Reorder(PricesInOrder(games, country, app).value, order)
  {
    var infos := Map(games, g => GameInfo(g, country, app));
    var rows := PricesInOrder(games, country, app).value;
    assert rows == Map(infos, RowOf);
    var a := PricesCompleted(games, country, app, order);
    var b := Reorder(rows, order);
    forall k | 0 <= k < |games|
      ensures a[k] == b[k]
    {
      assert a[k] == RowOf(infos[order[k]]);
    }
  }

  /** Every game has its row in the parallel table too. */
  lemma CompletedCovers(games: seq<Game>, country: string, app: App, order: seq<nat>, i: nat)
    requires IsOrder(order, |games|) && i < |games|
    ensures exists k :: (
      && 0 <= k < |games|
      && PricesCompleted(games, country, app, order)[k] ==
         PriceRow(games[i].name, country, PriceToken(app(games[i].packageId, "en", country))))
  {
    OrderCovers(order, |games|, i);
    var k :| 0 <= k < |games| && order[k] == i;
    assert PricesCompleted(games, country, app, order)[k] == RowOf(GameInfo(games[i], country, app));
  }
}
