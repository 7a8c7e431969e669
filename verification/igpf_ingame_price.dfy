/** src/igpf/ingame_price.py: `GameInfoUpdater`. A fetch that fails for
    any reason, a missing id or name included, records both bounds as
    `0.0`, because `GamePriceInfo` demands numbers. With both an id and a
    name one game is fetched; otherwise every game of `game_info_list` is
    fetched, in list order. That filter tests the loading loop's last entry
    instead of each entry, so it keeps every game or none; the filter it
    evidently meant is modelled beside it.
 */
module IgpfIngamePrice {
  import opened Wrappers
  import opened PyStr
  import opened Seqs
  import opened PlayStore

  /** `GamePriceInfo`. */
  datatype GamePriceInfo = GamePriceInfo(name: Option<string>, country: string, lowest: real, highest: real)

  /** Python truthiness of an optional string. */
  predicate Truthy(s: Option<string>) {
    s.Some? && s.value != ""
  }

  /** The record of a failed fetch. */
  function Zero(name: Option<string>, country: string): GamePriceInfo {
    GamePriceInfo(name, country, 0.0, 0.0)
  }

  /** The `try` body succeeds: id and name are set, the price text splits
      into a range, and `Price.fromstring` finds an amount at both ends
      (a missing amount fails `GamePriceInfo`'s validation). */
  predicate Fetched(id: Option<string>, name: Option<string>, country: string, app: App, parse: PriceParser) {
    && Truthy(id) && Truthy(name)
    && RangeZh(id.value, country, app).Some?
    && parse(RangeZh(id.value, country, app).value.0).Some?
    && parse(RangeZh(id.value, country, app).value.1).Some?
  }

  /** `__fetch`: the parsed amounts, or `0.0` for both on any failure; name
      and country are always the updater's. */
  function Fetch(id: Option<string>, name: Option<string>, country: string, app: App, parse: PriceParser): (r: GamePriceInfo)
    ensures r.name == name && r.country == country
    ensures !Fetched(id, name, country, app, parse) ==> r == Zero(name, country)
    ensures Fetched(id, name, country, app, parse) ==>
      var range := RangeZh(id.value, country, app).value;
      r.lowest == parse(range.0).value && r.highest == parse(range.1).value
  {
    if !Truthy(id) || !Truthy(name) then Zero(name, country)
    else match RangeZh(id.value, country, app)
      case None => Zero(name, country)
      case Some((lo, hi)) =>
        if parse(lo).Some? && parse(hi).Some? then GamePriceInfo(name, country, parse(lo).value, parse(hi).value)
        else Zero(name, country)
  }

  /** A missing or empty id or name never reaches the Play Store: whatever
      it would answer, the bounds are `0.0`. */
  lemma FetchNeedsBoth(id: Option<string>, name: Option<string>, country: string, app: App, app': App, parse: PriceParser)
    requires !Truthy(id) || !Truthy(name)
    ensures Fetch(id, name, country, app, parse) == Fetch(id, name, country, app', parse) == Zero(name, country)
  {
  }

  /** `game_info_list` as written: the comprehension tests `game_info`,
      the variable the loading loop left at the last entry, instead of
      `info`. The name filter wins over the id filter; with neither, the
      whole list. */
  function GameInfoListAsWritten(entries: seq<Game>, gameName: Option<string>, gameId: Option<string>): (r: seq<Game>)
    ensures r == [] || r == entries
    ensures !Truthy(gameName) && !Truthy(gameId) ==> r == entries
  {
    if entries == [] then []
    else
      var last := entries[|entries| - 1];
      if Truthy(gameName) then (if Contains(last.name, gameName.value) then entries else [])
      else if Truthy(gameId) then (if Contains(last.packageId, gameId.value) then entries else [])
      else entries
  }

  /** Two games, the first one searched for: the filter as written returns
      nothing, since the last game's name does not contain the first's,
      while the intended filter returns the first game. */
  lemma GameInfoListLeftover()
    ensures var entries := [Game("天堂W", "com.ncsoft.lineagew"), Game("原神", "com.miHoYo.GenshinImpact")];
      && GameInfoListAsWritten(entries, Some("天堂W"), None) == []
      && GameInfoList(entries, Some("天堂W"), None) == [entries[0]]
  {
    var entries := [Game("天堂W", "com.ncsoft.lineagew"), Game("原神", "com.miHoYo.GenshinImpact")];
    var p := (e: Game) => Contains(e.name, "天堂W");
    assert IsAt("天堂W", "天堂W", 0);
    assert Filter(entries, p) == [entries[0]] + Filter(entries[1..], p);
    assert Filter(entries[1..], p) == [] + Filter(entries[2..], p);
  }

  /** `game_info_list` with the comprehension testing each entry: the
      entries whose name (or else id) contains the search text. */
  function GameInfoList(entries: seq<Game>, gameName: Option<string>, gameId: Option<string>): (r: seq<Game>)
    ensures |r| <= |entries|
  {
    if Truthy(gameName) then Filter(entries, (e: Game) => Contains(e.name, gameName.value))
    else if Truthy(gameId) then Filter(entries, (e: Game) => Contains(e.packageId, gameId.value))
    else entries
  }

  /** An entry is listed exactly when it passes the filter that applies:
      the name filter when a name is set, else the id filter, else none. */
  lemma GameInfoListFilters(entries: seq<Game>, gameName: Option<string>, gameId: Option<string>, e: Game)
    ensures e in GameInfoList(entries, gameName, gameId) <==> (
      && e in entries
      && if Truthy(gameName) then Contains(e.name, gameName.value)
         else if Truthy(gameId) then Contains(e.packageId, gameId.value)
         else true)
  {
    if Truthy(gameName) {
      FilterMembers(entries, (e: Game) => Contains(e.name, gameName.value), e);
    } else if Truthy(gameId) {
      FilterMembers(entries, (e: Game) => Contains(e.packageId, gameId.value), e);
    }
  }

  /** The record of one listed game: the loop sets the updater's id and
      name to the game's before each fetch. */
  function FetchListed(e: Game, country: string, app: App, parse: PriceParser): GamePriceInfo {
    Fetch(Some(e.packageId), Some(e.name), country, app, parse)
  }

  /** `fetch_game_info` as written: with both an id and a name, that one
      game; otherwise every game of `game_info_list` as written, each
      fetched with its own id and name. The list is computed once, before
      the loop overwrites the id and name. */
  function FetchGameInfo(gameId: Option<string>, gameName: Option<string>, country: string, entries: seq<Game>, app: App, parse: PriceParser): (r: seq<GamePriceInfo>)
    ensures Truthy(gameId) && Truthy(gameName) ==> r == [Fetch(gameId, gameName, country, app, parse)]
    ensures !(Truthy(gameId) && Truthy(gameName)) ==> |r| == |GameInfoListAsWritten(entries, gameName, gameId)|
  {
    if Truthy(gameId) && Truthy(gameName) then [Fetch(gameId, gameName, country, app, parse)]
    else Map(GameInfoListAsWritten(entries, gameName, gameId), (e: Game) => FetchListed(e, country, app, parse))
  }

  /** As written, a search gives a record for every game or for none: for
      every game exactly when the last game of the list passes the filter. */
  lemma FetchGameInfoAllOrNone(gameId: Option<string>, gameName: Option<string>, country: string, entries: seq<Game>, app: App, parse: PriceParser)
    requires !(Truthy(gameId) && Truthy(gameName))
    ensures var r := FetchGameInfo(gameId, gameName, country, entries, app, parse);
      && (r == [] || |r| == |entries|)
      && (forall i :: 0 <= i < |r| ==> r[i] == FetchListed(entries[i], country, app, parse))
  {
  }

  /** The `i`-th record is the fetch of the `i`-th game of the list as
      written. */
  lemma FetchGameInfoOrder(gameId: Option<string>, gameName: Option<string>, country: string, entries: seq<Game>, app: App, parse: PriceParser, i: nat)
    requires !(Truthy(gameId) && Truthy(gameName)) && i < |GameInfoListAsWritten(entries, gameName, gameId)|
    ensures var e := GameInfoListAsWritten(entries, gameName, gameId)[i];
      && FetchGameInfo(gameId, gameName, country, entries, app, parse)[i].name == Some(e.name)
      && FetchGameInfo(gameId, gameName, country, entries, app, parse)[i] == FetchListed(e, country, app, parse)
  {
  }

  /** `fetch_game_info` over the intended filter. */
  function FetchGameInfoIntended(gameId: Option<string>, gameName: Option<string>, country: string, entries: seq<Game>, app: App, parse: PriceParser): (r: seq<GamePriceInfo>)
    ensures Truthy(gameId) && Truthy(gameName) ==> r == [Fetch(gameId, gameName, country, app, parse)]
    ensures !(Truthy(gameId) && Truthy(gameName)) ==> |r| == |GameInfoList(entries, gameName, gameId)|
  {
    if Truthy(gameId) && Truthy(gameName) then [Fetch(gameId, gameName, country, app, parse)]
    else Map(GameInfoList(entries, gameName, gameId), (e: Game) => FetchListed(e, country, app, parse))
  }

  /** With the intended filter, the `i`-th record is the fetch of the
      `i`-th listed game. */
  lemma FetchGameInfoIntendedOrder(gameId: Option<string>, gameName: Option<string>, country: string, entries: seq<Game>, app: App, parse: PriceParser, i: nat)
    requires !(Truthy(gameId) && Truthy(gameName)) && i < |GameInfoList(entries, gameName, gameId)|
    ensures var e := GameInfoList(entries, gameName, gameId)[i];
      && FetchGameInfoIntended(gameId, gameName, country, entries, app, parse)[i].name == Some(e.name)
      && FetchGameInfoIntended(gameId, gameName, country, entries, app, parse)[i] == FetchListed(e, country, app, parse)
  {
  }

  /** The two games of `GameInfoListLeftover`, searched by the first one's
      name: the code fetches nothing, the intended filter fetches the first
      game. */
  lemma FetchGameInfoLeftover(country: string, app: App, parse: PriceParser)
    ensures var entries := [Game("天堂W", "com.ncsoft.lineagew"), Game("原神", "com.miHoYo.GenshinImpact")];
      && FetchGameInfo(None, Some("天堂W"), country, entries, app, parse) == []
      && FetchGameInfoIntended(None, Some("天堂W"), country, entries, app, parse) == [FetchListed(entries[0], country, app, parse)]
  {
    GameInfoListLeftover();
  }
}
