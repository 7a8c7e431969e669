/** src/game_info.py: the English price table of one country. Each game's
    price text loses its `" per item"` phrase, splits on `" - "` into two
    ends, and each end keeps its first number as text; a game that fails
    any step is skipped. `selected_games` can stop the loop early.
 */
module GameInfoEn {
  import opened Wrappers
  import opened PyStr
  import opened Seqs
  import opened Regex
  import opened PlayStore

  /** The `selected_games` argument: `None`, a game name, or a count. */
  datatype Selection = NoSelection | ByName(name: string) | ByCount(n: int)

  /** Python truthiness of the argument: `None`, `""` and `0` are false. */
  predicate Truthy(sel: Selection) {
    match sel
    case NoSelection => false
    case ByName(name) => name != ""
    case ByCount(n) => n != 0
  }

  /** How many games the loop reaches before its `break`: only a truthy
      count that some index equals stops it, so a name never does and a
      negative count never does. */
  function Reached(games: seq<Game>, sel: Selection): (k: nat)
    ensures k <= |games|
  {
    if Truthy(sel) && sel.ByCount? && 0 <= sel.n < |games| then sel.n else |games|
  }

  /** A row of the output frame. */
  datatype InfoRow = InfoRow(name: string, country: string, lowest: string, highest: string)

  /** The `try` block for one game: `None` where it raises and the loop
      `continue`s. */
  function GameRow(g: Game, country: string, app: App): (r: Option<InfoRow>)
    ensures r.Some? ==> r.value.name == g.name && r.value.country == country
  {
    var range :- RangeEn(g.packageId, country, app);
    var lowest :- FirstNumber(range.0);
    var highest :- FirstNumber(range.1);
    Some(InfoRow(g.name, country, lowest, highest))
  }

  /** Some character of `s` is a digit. */
  predicate HasDigit(s: string) {
    exists k :: 0 <= k < |s| && IsDigit(s[k])
  }

  /** A game gives a row exactly when its price text exists, its range
      splits in two, and both ends hold a digit. */
  lemma GameRowFails(g: Game, country: string, app: App)
    ensures var range := RangeEn(g.packageId, country, app);
      && (range.Some? <==> app(g.packageId, "en", country).Some? && PriceRange(app(g.packageId, "en", country).value, UnitEn).Some?)
      && (GameRow(g, country, app).Some? <==> range.Some? && HasDigit(range.value.0) && HasDigit(range.value.1))
  {
    var range := RangeEn(g.packageId, country, app);
    if range.Some? {
      FirstNumberMatches(range.value.0);
      FirstNumberMatches(range.value.1);
    }
  }

  /** Both bounds of a row are number tokens `\d+\.?\d*`, each the first
      one in its end of the range. */
  lemma GameRowNumbers(g: Game, country: string, app: App)
    requires GameRow(g, country, app).Some?
    ensures var range := RangeEn(g.packageId, country, app).value;
      && IsNumberToken(GameRow(g, country, app).value.lowest)
      && IsNumberToken(GameRow(g, country, app).value.highest)
      && GameRow(g, country, app).value.lowest == FirstNumber(range.0).value
      && GameRow(g, country, app).value.highest == FirstNumber(range.1).value
  {
    var range := RangeEn(g.packageId, country, app).value;
    FirstNumberMatches(range.0);
    FirstNumberMatches(range.1);
  }

  /** The rows the frame is built from: the games the loop reaches, each
      kept exactly when its `try` block succeeds, in list order. */
  function Table(games: seq<Game>, country: string, sel: Selection, app: App): seq<InfoRow> {
    Collect(games[..Reached(games, sel)], g => GameRow(g, country, app))
  }

  /** `fetch_game_info`, as the loop runs: `break` when the index equals a
      truthy count, otherwise append the row of every game that does not
      raise. */
  method FetchGameInfo(games: seq<Game>, country: string, sel: Selection, app: App) returns (rows: seq<InfoRow>)
    ensures rows == Table(games, country, sel, app)
  {
    var f := g => GameRow(g, country, app);
    rows := [];
    var idx := 0;
    while idx < |games|
      invariant idx <= Reached(games, sel)
      invariant rows == Collect(games[..idx], f)
    {
      if Truthy(sel) && sel.ByCount? && idx == sel.n {
        break;
      }
      var row := f(games[idx]);
      CollectOne(games[idx], f);
      CollectAppend(games[..idx], [games[idx]], f);
      assert games[..idx + 1] == games[..idx] + [games[idx]];
      if row.Some? {
        rows := rows + [row.value];
      }
      idx := idx + 1;
    }
    assert idx == Reached(games, sel);
  }

  /** A game the loop reaches appears in the table exactly when its block
      succeeds: successful games are never dropped. */
  lemma TableMembers(games: seq<Game>, country: string, sel: Selection, app: App, row: InfoRow)
    ensures row in Table(games, country, sel, app) <==>
      exists i :: 0 <= i < Reached(games, sel) && GameRow(games[i], country, app) == Some(row)
  {
    var reached := games[..Reached(games, sel)];
    var f := g => GameRow(g, country, app);
    assert Table(games, country, sel, app) == Collect(reached, f);
    CollectMembers(reached, f, row);
    if row in Table(games, country, sel, app) {
      var i :| 0 <= i < |reached| && f(reached[i]) == Some(row);
      assert reached[i] == games[i];
    }
    if exists i :: 0 <= i < Reached(games, sel) && GameRow(games[i], country, app) == Some(row) {
      var i :| 0 <= i < Reached(games, sel) && GameRow(games[i], country, app) == Some(row);
      assert reached[i] == games[i];
      assert f(reached[i]) == Some(row);
    }
  }

  /** A name, a falsy value or a negative count processes every game; a
      positive count `n` processes the first `n`. */
  lemma ReachedBySelection(games: seq<Game>, sel: Selection)
    ensures sel.ByName? || !Truthy(sel) ==> Reached(games, sel) == |games|
    ensures sel.ByCount? && sel.n < 0 ==> Reached(games, sel) == |games|
    ensures sel.ByCount? && 0 < sel.n ==> Reached(games, sel) == if sel.n < |games| then sel.n else |games|
  {
  }
}
